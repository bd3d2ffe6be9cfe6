/** The focus (Pomodoro) timer widget, `src/modules/focus/FocusWidget.tsx`:
    a state machine over (mode, timeLeft, isActive) driven by the buttons and
    by a one-second interval, and the "MM:SS" display of the time left. */
module Focus {
  import opened Wrappers
  import opened Text
  import opened Decimal

  datatype Mode = FocusMode | BreakMode

  /** The widget's three pieces of React state. */
  datatype Timer = Timer(mode: Mode, timeLeft: int, isActive: bool)

  /** Length of a session in seconds: 25 minutes of focus, 5 of break. */
  function TotalTime(m: Mode): nat {
    match m
    case FocusMode => 25 * 60
    case BreakMode => 5 * 60
  }

  /** The bounded-countdown invariant: the time left never leaves
      [0, TotalTime(mode)], and a timer at zero is not running. */
  predicate Valid(t: Timer) {
    0 <= t.timeLeft <= TotalTime(t.mode) && (t.timeLeft == 0 ==> !t.isActive)
  }

  /** The state the widget mounts with. */
  function Initial(): (t: Timer)
    ensures Valid(t)
    ensures t.mode == FocusMode && t.timeLeft == 1500 && !t.isActive
  {
    Timer(FocusMode, 25 * 60, false)
  }

  /** The effect that re-runs whenever isActive or timeLeft changes: with the
      timer running and time left it only (re)arms the interval, otherwise a
      timer at zero is switched off. */
  function Settle(t: Timer): (r: Timer)
    ensures r.mode == t.mode && r.timeLeft == t.timeLeft
    ensures r.isActive == (t.isActive && t.timeLeft != 0)
  {
    if t.isActive && t.timeLeft > 0 then t
    else if t.timeLeft == 0 then t.(isActive := false)
    else t
  }

  /** The play/pause button, followed by the effect it triggers. */
  function ToggleTimer(t: Timer): (r: Timer)
    ensures r.mode == t.mode && r.timeLeft == t.timeLeft
    ensures t.timeLeft != 0 ==> r.isActive == !t.isActive
    ensures t.timeLeft == 0 ==> !r.isActive
    ensures Valid(t) ==> Valid(r)
  {
    Settle(t.(isActive := !t.isActive))
  }

  /** The reset button: stop, and refill the current mode's full duration. */
  function ResetTimer(t: Timer): (r: Timer)
    ensures r.mode == t.mode && !r.isActive
    ensures r.timeLeft == TotalTime(t.mode) && r.timeLeft > 0
    ensures Valid(r)
  {
    Settle(Timer(t.mode, if t.mode == FocusMode then 25 * 60 else 5 * 60, false))
  }

  /** The mode buttons: select `m`, stop, and load `m`'s full duration. */
  function SwitchMode(t: Timer, m: Mode): (r: Timer)
    ensures r.mode == m && !r.isActive
    ensures m == FocusMode ==> r.timeLeft == 1500
    ensures m == BreakMode ==> r.timeLeft == 300
    ensures Valid(r)
  {
    Settle(Timer(m, if m == FocusMode then 25 * 60 else 5 * 60, false))
  }

  /** One firing of the interval. It is armed only while the timer runs with
      time left; then it takes one second off, and the effect switches the
      timer off when that reaches zero. Otherwise nothing happens. */
  function Tick(t: Timer): (r: Timer)
    ensures r.mode == t.mode
    ensures t.isActive && t.timeLeft > 0 ==>
      r.timeLeft == t.timeLeft - 1 && (r.isActive <==> r.timeLeft > 0)
    ensures !(t.isActive && t.timeLeft > 0) ==> r == t
    ensures Valid(t) ==> Valid(r)
  {
    if t.isActive && t.timeLeft > 0 then Settle(t.(timeLeft := t.timeLeft - 1)) else t
  }

  /** What a user or the clock can do to the widget. */
  datatype Action = Toggle | Reset | Switch(mode: Mode) | TickAction

  function Step(t: Timer, a: Action): Timer {
    match a
    case Toggle => ToggleTimer(t)
    case Reset => ResetTimer(t)
    case Switch(m) => SwitchMode(t, m)
    case TickAction => Tick(t)
  }

  function Run(t: Timer, actions: seq<Action>): Timer
    decreases |actions|
  {
    if actions == [] then t else Run(Step(t, actions[0]), actions[1..])
  }

  /** Every state reachable from a valid one, by any sequence of button
      presses and interval firings, is valid. */
  lemma {:induction false} RunPreservesValid(t: Timer, actions: seq<Action>)
    requires Valid(t)
    ensures Valid(Run(t, actions))
    decreases |actions|
  {
    if actions != [] {
      RunPreservesValid(Step(t, actions[0]), actions[1..]);
    }
  }

  lemma ReachableValid(actions: seq<Action>)
    ensures Valid(Run(Initial(), actions))
  {
    RunPreservesValid(Initial(), actions);
  }

  function Ticks(t: Timer, k: nat): Timer
    decreases k
  {
    if k == 0 then t else Ticks(Tick(t), k - 1)
  }

  /** A running timer counts down one second per tick and stops exactly when
      it reaches zero; further ticks change nothing. */
  lemma {:induction false} CountDown(t: Timer, k: nat)
    requires t.isActive && 0 < t.timeLeft
    ensures k <= t.timeLeft ==> Ticks(t, k).timeLeft == t.timeLeft - k
    ensures k < t.timeLeft ==> Ticks(t, k).isActive
    ensures k >= t.timeLeft ==> Ticks(t, k).timeLeft == 0 && !Ticks(t, k).isActive
    ensures Ticks(t, k).mode == t.mode
    decreases k
  {
    if k > 0 {
      var t' := Tick(t);
      if t'.timeLeft > 0 {
        CountDown(t', k - 1);
      } else {
        StoppedStaysStopped(t', k - 1);
      }
    }
  }

  lemma {:induction false} StoppedStaysStopped(t: Timer, k: nat)
    requires !t.isActive
    ensures Ticks(t, k) == t
  {
    if k > 0 {
      StoppedStaysStopped(Tick(t), k - 1);
    }
  }

  /** `formatTime`: whole minutes and leftover seconds, each as decimal
      digits zero-padded to at least two, joined by ':'. */
  function FormatTime(seconds: nat): (r: string)
    ensures seconds < 6000 <==> |r| == 5
  {
    var mins := NatToString(seconds / 60);
    var secs := NatToString(seconds % 60);
    NatToStringShort(seconds / 60);
    NatToStringShort(seconds % 60);
    PadStart(mins, 2, '0') + ":" + PadStart(secs, 2, '0')
  }

  /** Reads "M…M:SS" back: minutes are any non-empty digit string, seconds two
      digits below 60. */
  function DecodeTime(s: string): Option<nat> {
    match IndexOf(s, ":")
    case None => None
    case Some(i) =>
      var mm, ss := s[..i], s[i + 1..];
      if mm != [] && AllDigits(mm) && |ss| == 2 && AllDigits(ss) && Value(ss) < 60
      then Some(60 * Value(mm) + Value(ss))
      else None
  }

  lemma PaddedDigits(n: nat) returns (p: string)
    ensures p == PadStart(NatToString(n), 2, '0')
    ensures p != [] && AllDigits(p) && Value(p) == n
  {
    p := PadStart(NatToString(n), 2, '0');
    PadKeepsValue(NatToString(n), 2);
    ValueOfNatToString(n);
  }

  /** Minutes and seconds written around one ':' decode to their total. */
  lemma DecodeJoined(mm: string, ss: string, m: nat, sec: nat)
    requires mm != [] && AllDigits(mm) && Value(mm) == m
    requires |ss| == 2 && AllDigits(ss) && Value(ss) == sec && sec < 60
    ensures DecodeTime(mm + ":" + ss) == Some(60 * m + sec)
  {
    var r := mm + ":" + ss;
    forall j: nat | j < |mm| ensures !OccursAt(r, ":", j) {
      assert r[j..j + 1] == [mm[j]];
    }
    assert r[|mm|..|mm| + 1] == ":";
    IndexOfFirst(r, ":", |mm|);
    assert r[..|mm|] == mm && r[|mm| + 1..] == ss;
  }

  /** The display is the padded minutes, ':' and the two-digit seconds. */
  lemma FormatTimeParts(seconds: nat, m: nat, sec: nat) returns (mm: string, ss: string)
    requires m == seconds / 60 && sec == seconds % 60 && sec < 60
    ensures FormatTime(seconds) == mm + ":" + ss
    ensures mm != [] && AllDigits(mm) && Value(mm) == m
    ensures |ss| == 2 && AllDigits(ss) && Value(ss) == sec
  {
    mm := PaddedDigits(m);
    ss := PaddedDigits(sec);
    NatToStringShort(sec);
  }

  /** The display decodes back to the number of seconds it shows. */
  lemma FormatTimeRoundTrip(seconds: nat)
    ensures DecodeTime(FormatTime(seconds)) == Some(seconds)
  {
    var m, sec := MinutesSeconds(seconds);
    var mm, ss := FormatTimeParts(seconds, m, sec);
    DecodeJoined(mm, ss, m, sec);
  }

  /** Whole minutes and leftover seconds. */
  lemma MinutesSeconds(n: nat) returns (m: nat, sec: nat)
    ensures m == n / 60 && sec == n % 60
    ensures 60 * m + sec == n && sec < 60
  {
    m, sec := n / 60, n % 60;
  }
}
