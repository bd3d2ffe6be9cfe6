/** The pure parts of `CalendarWidget.tsx`: the agenda list, what a month
    cell shows and selects, and how far the arrows move. Calendar arithmetic
    is abstract: `dayStart` is the timestamp of the start of the current
    day, and `dayOf` maps a timestamp to the day it falls on. */
module Calendar {
  import opened Wrappers
  import opened Seqs
  import opened Store

  datatype ViewMode = MonthView | WeekView | AgendaView

  predicate SortedByDate(s: seq<CalendarEvent>) {
    forall i, j :: 0 <= i < j < |s| ==> s[i].date <= s[j].date
  }

  /** Inserts `e` after every element dated no later than it. */
  function Insert(e: CalendarEvent, t: seq<CalendarEvent>): (r: seq<CalendarEvent>)
    ensures |r| == |t| + 1
    ensures multiset(r) == multiset(t) + multiset{e}
  {
    if t == [] then [e]
    else if e.date < t[0].date then [e] + t
    else
      assert t == [t[0]] + t[1..];
      [t[0]] + Insert(e, t[1..])
  }

  lemma {:induction false} InsertSorted(e: CalendarEvent, t: seq<CalendarEvent>)
    requires SortedByDate(t)
    ensures SortedByDate(Insert(e, t))
  {
    if t != [] && e.date >= t[0].date {
      var ins := Insert(e, t[1..]);
      InsertSorted(e, t[1..]);
      BoundedBelow(t[0].date, ins, t[1..], e);
      SortedCons(t[0], ins);
    }
  }

  /** Every element of a sequence holding `t` and `e` is dated no earlier
      than a bound that `t` and `e` both respect. */
  lemma BoundedBelow(d: int, ins: seq<CalendarEvent>, t: seq<CalendarEvent>, e: CalendarEvent)
    requires multiset(ins) == multiset(t) + multiset{e}
    requires d <= e.date && forall j :: 0 <= j < |t| ==> d <= t[j].date
    ensures forall i :: 0 <= i < |ins| ==> d <= ins[i].date
  {
    forall i | 0 <= i < |ins| ensures d <= ins[i].date {
      assert ins[i] in multiset(ins);
      if ins[i] != e {
        assert ins[i] in multiset(t);
      }
    }
  }

  /** An element dated no later than a sorted sequence goes in front. */
  lemma SortedCons(x: CalendarEvent, s: seq<CalendarEvent>)
    requires SortedByDate(s) && forall i :: 0 <= i < |s| ==> x.date <= s[i].date
    ensures SortedByDate([x] + s)
  {
    var r := [x] + s;
    forall i, j | 0 <= i < j < |r| ensures r[i].date <= r[j].date {
      assert r[j] == s[j - 1];
      if i > 0 {
        assert r[i] == s[i - 1];
      }
    }
  }

  /** `sort((a, b) => a.date - b.date)`: JavaScript's sort is stable, so
      this is an insertion sort that keeps equal dates in their order. */
  function SortByDate(s: seq<CalendarEvent>): (r: seq<CalendarEvent>)
    ensures |r| == |s| && multiset(r) == multiset(s)
    ensures SortedByDate(r)
  {
    if s == [] then []
    else
      assert s == s[..|s| - 1] + [s[|s| - 1]];
      InsertSorted(s[|s| - 1], SortByDate(s[..|s| - 1]));
      Insert(s[|s| - 1], SortByDate(s[..|s| - 1]))
  }

  function DateIs(d: int): CalendarEvent -> bool {
    (e: CalendarEvent) => e.date == d
  }

  lemma FilterNone(t: seq<CalendarEvent>, d: int)
    requires forall i :: 0 <= i < |t| ==> t[i].date != d
    ensures Filter(t, DateIs(d)) == []
  {
    FilterMembers(t, DateIs(d));
  }

  lemma FilterSingle(e: CalendarEvent, d: int)
    ensures Filter([e], DateIs(d)) == if e.date == d then [e] else []
  {
    assert [e][1..] == [];
  }

  lemma LaterDatesDiffer(e: CalendarEvent, t: seq<CalendarEvent>, d: int)
    requires SortedByDate(t) && t != [] && e.date < t[0].date && e.date == d
    ensures Filter(t, DateIs(d)) == []
  {
    assert forall i :: 0 <= i < |t| ==> t[0].date <= t[i].date;
    FilterNone(t, d);
  }

  lemma InsertFront(e: CalendarEvent, t: seq<CalendarEvent>, d: int)
    requires SortedByDate(t) && t != [] && e.date < t[0].date
    ensures Filter(Insert(e, t), DateIs(d)) == Filter(t, DateIs(d)) + (if e.date == d then [e] else [])
  {
    var p := DateIs(d);
    assert Insert(e, t) == [e] + t;
    FilterConcat([e], t, p);
    FilterSingle(e, d);
    if e.date == d {
      LaterDatesDiffer(e, t, d);
      assert Filter([e] + t, p) == [e] + [];
      assert Filter(t, p) + [e] == [] + [e];
    } else {
      assert Filter([e] + t, p) == [] + Filter(t, p);
      assert Filter(t, p) + [] == Filter(t, p);
    }
  }

  lemma InsertBehind(e: CalendarEvent, t: seq<CalendarEvent>, d: int, extra: seq<CalendarEvent>)
    requires t != [] && e.date >= t[0].date
    requires Filter(Insert(e, t[1..]), DateIs(d)) == Filter(t[1..], DateIs(d)) + extra
    ensures Filter(Insert(e, t), DateIs(d)) == Filter(t, DateIs(d)) + extra
  {
    assert Insert(e, t) == [t[0]] + Insert(e, t[1..]);
    assert t == [t[0]] + t[1..];
    FilterConsEqual(t[0], Insert(e, t[1..]), t[1..], extra, DateIs(d));
  }

  lemma {:induction false} InsertStable(e: CalendarEvent, t: seq<CalendarEvent>, d: int)
    requires SortedByDate(t)
    ensures Filter(Insert(e, t), DateIs(d)) == Filter(t, DateIs(d)) + (if e.date == d then [e] else [])
  {
    if t == [] {
      FilterSingle(e, d);
    } else if e.date < t[0].date {
      InsertFront(e, t, d);
    } else {
      assert SortedByDate(t[1..]);
      InsertStable(e, t[1..], d);
      InsertBehind(e, t, d, if e.date == d then [e] else []);
    }
  }

  /** The sort is stable: events sharing a date keep their store order. */
  lemma {:induction false} SortStable(s: seq<CalendarEvent>, d: int)
    ensures Filter(SortByDate(s), DateIs(d)) == Filter(s, DateIs(d))
  {
    if s != [] {
      var init, e := s[..|s| - 1], s[|s| - 1];
      assert s == init + [e];
      SortStable(init, d);
      InsertStable(e, SortByDate(init), d);
      FilterConcat(init, [e], DateIs(d));
      FilterSingle(e, d);
    }
  }

  function OnOrAfter(dayStart: int): CalendarEvent -> bool {
    (e: CalendarEvent) => e.date >= dayStart
  }

  lemma SortedMembers(s: seq<CalendarEvent>)
    ensures forall i :: 0 <= i < |SortByDate(s)| ==> SortByDate(s)[i] in s
  {
    var r := SortByDate(s);
    forall i | 0 <= i < |r| ensures r[i] in s {
      assert r[i] in multiset(r);
    }
  }

  /** The most entries the agenda shows. */
  const AgendaLength := 10

  /** `agendaEvents`: in agenda view, the events from the start of the
      current day on, by date, first ten; empty in the other views. */
  function Agenda(events: seq<CalendarEvent>, view: ViewMode, dayStart: int): (r: seq<CalendarEvent>)
    ensures view != AgendaView ==> r == []
    ensures |r| <= AgendaLength
    ensures forall i :: 0 <= i < |r| ==> r[i].date >= dayStart && r[i] in events
    ensures SortedByDate(r)
  {
    if view == AgendaView then
      var upcoming := Filter(events, OnOrAfter(dayStart));
      FilterMembers(events, OnOrAfter(dayStart));
      SortedMembers(upcoming);
      Take(SortByDate(upcoming), AgendaLength)
    else []
  }

  /** The agenda holds the earliest upcoming events: what it leaves out,
      `rest`, is dated no earlier than anything it shows, the two together
      are exactly the upcoming events, and something is left out only when
      the list is full. */
  lemma AgendaEarliest(events: seq<CalendarEvent>, dayStart: int) returns (rest: seq<CalendarEvent>)
    ensures var r := Agenda(events, AgendaView, dayStart);
      && multiset(r) + multiset(rest) == multiset(Filter(events, OnOrAfter(dayStart)))
      && (forall i, j :: 0 <= i < |r| && 0 <= j < |rest| ==> r[i].date <= rest[j].date)
      && (rest != [] ==> |r| == AgendaLength)
  {
    var upcoming := SortByDate(Filter(events, OnOrAfter(dayStart)));
    rest := TakeSplit(upcoming, AgendaLength);
  }

  /** Cutting a sorted sequence after its first `n` elements leaves a rest
      that is dated no earlier than the part kept. */
  lemma TakeSplit(s: seq<CalendarEvent>, n: nat) returns (rest: seq<CalendarEvent>)
    requires SortedByDate(s)
    ensures var r := Take(s, n);
      && multiset(r) + multiset(rest) == multiset(s)
      && (forall i, j :: 0 <= i < |r| && 0 <= j < |rest| ==> r[i].date <= rest[j].date)
      && (rest != [] ==> |r| == n)
  {
    var r := Take(s, n);
    rest := s[|r|..];
    assert s == r + rest;
    forall i, j | 0 <= i < |r| && 0 <= j < |rest| ensures r[i].date <= rest[j].date {
      assert rest[j] == s[|r| + j];
    }
  }

  /** The agenda lists same-day events... and, more generally, events
      sharing a timestamp, in store order. */
  lemma AgendaKeepsStoreOrder(events: seq<CalendarEvent>, dayStart: int, d: int)
    requires d >= dayStart
    requires Count(events, OnOrAfter(dayStart)) <= AgendaLength
    ensures Filter(Agenda(events, AgendaView, dayStart), DateIs(d)) == Filter(events, DateIs(d))
  {
    var upcoming := Filter(events, OnOrAfter(dayStart));
    FilterCount(events, OnOrAfter(dayStart));
    SortStable(upcoming, d);
    FilterOfFilter(events, dayStart, d);
  }

  /** Whatever the number of upcoming events, the agenda's events on any
      one date are the first of that date's events in store order. */
  lemma AgendaDayPrefix(events: seq<CalendarEvent>, dayStart: int, d: int)
    ensures var f := Filter(Agenda(events, AgendaView, dayStart), DateIs(d));
      |f| <= |Filter(events, DateIs(d))| && f == Filter(events, DateIs(d))[..|f|]
  {
    var a := Agenda(events, AgendaView, dayStart);
    if d < dayStart {
      FilterCount(a, DateIs(d));
    } else {
      var upcoming := Filter(events, OnOrAfter(dayStart));
      SortStable(upcoming, d);
      FilterOfFilter(events, dayStart, d);
      FilterTakePrefix(SortByDate(upcoming), AgendaLength, DateIs(d));
    }
  }

  lemma {:induction false} FilterOfFilter(events: seq<CalendarEvent>, dayStart: int, d: int)
    requires d >= dayStart
    ensures Filter(Filter(events, OnOrAfter(dayStart)), DateIs(d)) == Filter(events, DateIs(d))
  {
    if events != [] {
      var e, tail := events[0], events[1..];
      FilterOfFilter(tail, dayStart, d);
      var later := Filter(tail, OnOrAfter(dayStart));
      if e.date >= dayStart {
        assert Filter(events, OnOrAfter(dayStart)) == [e] + later;
        FilterConcat([e], later, DateIs(d));
        FilterSingle(e, d);
      } else {
        assert Filter(events, OnOrAfter(dayStart)) == later;
      }
    }
  }

  function OnDay(day: int, dayOf: int -> int): CalendarEvent -> bool {
    (e: CalendarEvent) => dayOf(e.date) == day
  }

  /** `dayEvents` of a month cell: the day's events in store order. */
  function DayEvents(events: seq<CalendarEvent>, day: int, dayOf: int -> int): seq<CalendarEvent> {
    Filter(events, OnDay(day, dayOf))
  }

  /** The most events a month cell lists. */
  const CellLength := 4

  /** What a month cell shows: the first four of the day's events and, when
      there are more, the count `N` of the "+N" label. */
  datatype Cell = Cell(shown: seq<CalendarEvent>, more: Option<nat>)

  function MonthCell(events: seq<CalendarEvent>, day: int, dayOf: int -> int): (c: Cell)
    ensures var all := DayEvents(events, day, dayOf);
      && |c.shown| == (if |all| < CellLength then |all| else CellLength)
      && c.shown == all[..|c.shown|]
      && (c.more.Some? <==> |all| > CellLength)
      && |c.shown| + c.more.GetOr(0) == |all|
  {
    var all := DayEvents(events, day, dayOf);
    Cell(Take(all, CellLength), if |all| > CellLength then Some(|all| - CellLength) else None)
  }

  /** Clicking a cell: the day's first event in store order, if any. */
  function ClickDay(events: seq<CalendarEvent>, day: int, dayOf: int -> int): (r: Option<CalendarEvent>)
    ensures r.None? <==> forall i :: 0 <= i < |events| ==> dayOf(events[i].date) != day
    ensures r.Some? ==> exists k :: FirstIndex(events, OnDay(day, dayOf)) == Some(k) && r.value == events[k]
  {
    var all := DayEvents(events, day, dayOf);
    FilterMembers(events, OnDay(day, dayOf));
    if |all| > 0 then
      FirstOfFilter(events, OnDay(day, dayOf));
      Some(all[0])
    else
      None
  }

  lemma {:induction false} FirstOfFilter(s: seq<CalendarEvent>, p: CalendarEvent -> bool)
    requires Filter(s, p) != []
    ensures FirstIndex(s, p).Some? && Filter(s, p)[0] == s[FirstIndex(s, p).value]
  {
    if !p(s[0]) {
      FirstOfFilter(s[1..], p);
    }
  }

  /** A to-do dropped on a day shows up last among that day's events. */
  lemma DroppedTodoJoinsDay(s: AppState, id: string, date: int, stamp: nat, dayOf: int -> int)
    requires HasTodoId(s, id)
    ensures var r := ConvertTodoToEvent(s, id, date, stamp);
      DayEvents(r.events, dayOf(date), dayOf) == DayEvents(s.events, dayOf(date), dayOf) + [r.events[|s.events|]]
  {
    var r := ConvertTodoToEvent(s, id, date, stamp);
    assert r.events == s.events + [r.events[|s.events|]];
    FilterConcat(s.events, [r.events[|s.events|]], OnDay(dayOf(date), dayOf));
  }

  /** How far one press of an arrow moves the current date. */
  datatype Shift = Months(n: int) | Weeks(n: int)

  /** `handlePrev`: back one week in week view, one month otherwise. */
  function PrevShift(view: ViewMode): (r: Shift)
    ensures r == if view == WeekView then Weeks(-1) else Months(-1)
  {
    if view == MonthView then Months(-1)
    else if view == WeekView then Weeks(-1)
    else Months(-1)
  }

  /** `handleNext`: forward one week in week view, one month otherwise. */
  function NextShift(view: ViewMode): (r: Shift)
    ensures r == if view == WeekView then Weeks(1) else Months(1)
  {
    if view == MonthView then Months(1)
    else if view == WeekView then Weeks(1)
    else Months(1)
  }

  /** Prev opposes next: in every view the two steps have the same unit and
      opposite signs.  This is a statement about the step only; a month step
      that clamps the day (31 January plus one month is 28 or 29 February)
      is not undone by the opposite step. */
  lemma PrevOpposesNext(view: ViewMode)
    ensures PrevShift(view).Months? == NextShift(view).Months?
    ensures PrevShift(view).n == -NextShift(view).n
  {
  }
}
