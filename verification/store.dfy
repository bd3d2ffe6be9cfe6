/** The application store, `src/store/useAppStore.ts`: to-dos, calendar
    events, sticky notes and two settings, with every action a pure
    `AppState -> AppState` update. `Date.now()` is passed in as a `nat` stamp
    (one per call site), and dates are millisecond timestamps. */
module Store {
  import opened Wrappers
  import opened Seqs
  import opened Decimal

  datatype Todo = Todo(id: string, text: string, done: bool, dueDate: Option<int>)

  /** The provenance tag `type`: 'todo' for events created from a to-do,
      'event' for events created directly. */
  datatype EventType = TodoEvent | PlainEvent

  datatype CalendarEvent = CalendarEvent(id: string, title: string, date: int, eventType: EventType)

  datatype Note = Note(id: string, content: string, color: string, createdAt: int)

  /** The persisted part of the store. `opacity` is the panel opacity. */
  datatype AppState = AppState(
    todos: seq<Todo>, events: seq<CalendarEvent>, notes: seq<Note>,
    opacity: real, weatherCity: string)

  /** The colour `addNote` uses when none is given. */
  const DefaultNoteColor := "bg-yellow-200/80"

  /** `Date.now().toString()`. */
  function StampId(stamp: nat): (r: string)
    ensures r != [] && AllDigits(r) && Value(r) == stamp
  {
    ValueOfNatToString(stamp);
    NatToString(stamp)
  }

  /** Different stamps give different ids: the id reads back as its stamp. */
  lemma StampIdInjective(a: nat, b: nat)
    ensures StampId(a) == StampId(b) <==> a == b
  {
  }

  /** The state the store starts with before anything is persisted. */
  function Initial(now: int): (s: AppState)
    ensures |s.todos| == 3 && s.events == [] && |s.notes| == 1
    ensures forall i, j :: 0 <= i < j < |s.todos| ==> s.todos[i].id != s.todos[j].id
    ensures s.opacity == 0.6 && s.weatherCity == "厦门市"
  {
    AppState(
      [ Todo("1", "Review project requirements", true, None),
        Todo("2", "Design system architecture", false, None),
        Todo("3", "Implement glassmorphism UI", false, None) ],
      [],
      [ Note("1", "Meeting notes: Discuss API integration", DefaultNoteColor, now) ],
      0.6, "厦门市")
  }

  function SetOpacity(s: AppState, opacity: real): (r: AppState)
    ensures r.opacity == opacity
    ensures r.todos == s.todos && r.events == s.events && r.notes == s.notes
    ensures r.weatherCity == s.weatherCity
  {
    s.(opacity := opacity)
  }

  function SetWeatherCity(s: AppState, city: string): (r: AppState)
    ensures r.weatherCity == city
    ensures r.todos == s.todos && r.events == s.events && r.notes == s.notes
    ensures r.opacity == s.opacity
  {
    s.(weatherCity := city)
  }

  /** A to-do and the event created with it at the same moment. */
  predicate Paired(t: Todo, e: CalendarEvent) {
    t.dueDate == Some(e.date) && e.title == t.text && e.eventType == TodoEvent
  }

  /** `addTodo(text, dueDate)`. The new to-do is appended, not done, with the
      given due date. Only a supplied date adds a paired 'todo' event;
      `todoStamp` and `eventStamp` are the two `Date.now()` readings. */
  function AddTodo(s: AppState, text: string, dueDate: Option<int>, todoStamp: nat, eventStamp: nat): (r: AppState)
    ensures |r.todos| == |s.todos| + 1 && r.todos[..|s.todos|] == s.todos
    ensures var t := r.todos[|s.todos|];
      t.id == StampId(todoStamp) && t.text == text && !t.done && t.dueDate == dueDate
    ensures dueDate.None? ==> r.events == s.events
    ensures dueDate.Some? ==>
      |r.events| == |s.events| + 1 && r.events[..|s.events|] == s.events
      && r.events[|s.events|].id == "evt-" + StampId(eventStamp)
      && Paired(r.todos[|s.todos|], r.events[|s.events|])
    ensures r.notes == s.notes && r.opacity == s.opacity && r.weatherCity == s.weatherCity
  {
    var newTodo := Todo(StampId(todoStamp), text, false, dueDate);
    var newEvents :=
      if dueDate.Some? then s.events + [CalendarEvent("evt-" + StampId(eventStamp), text, dueDate.value, TodoEvent)]
      else s.events;
    s.(todos := s.todos + [newTodo], events := newEvents)
  }

  function TodoIdIs(id: string): Todo -> bool {
    (t: Todo) => t.id == id
  }

  function TodoIdIsNot(id: string): Todo -> bool {
    (t: Todo) => t.id != id
  }

  function NoteIdIsNot(id: string): Note -> bool {
    (n: Note) => n.id != id
  }

  function NoteIdIs(id: string): Note -> bool {
    (n: Note) => n.id == id
  }

  predicate HasTodoId(s: AppState, id: string) {
    exists i :: 0 <= i < |s.todos| && s.todos[i].id == id
  }

  /** `toggleTodo(id)`: flip `done` on every to-do with this id. */
  function ToggleTodo(s: AppState, id: string): (r: AppState)
    ensures |r.todos| == |s.todos|
    ensures forall i :: 0 <= i < |s.todos| ==>
      r.todos[i].id == s.todos[i].id && r.todos[i].text == s.todos[i].text
      && r.todos[i].dueDate == s.todos[i].dueDate
      && (r.todos[i].done <==> (s.todos[i].done != (s.todos[i].id == id)))
    ensures r.events == s.events && r.notes == s.notes
    ensures r.opacity == s.opacity && r.weatherCity == s.weatherCity
  {
    s.(todos := seq(|s.todos|, i requires 0 <= i < |s.todos| =>
      var t := s.todos[i]; if t.id == id then t.(done := !t.done) else t))
  }

  /** `removeTodo(id)`: drop every to-do with this id and keep the rest in
      order. Events are untouched, so a paired event outlives its to-do. */
  function RemoveTodo(s: AppState, id: string): (r: AppState)
    ensures forall i :: 0 <= i < |r.todos| ==> r.todos[i].id != id && r.todos[i] in s.todos
    ensures forall i :: 0 <= i < |s.todos| && s.todos[i].id != id ==> s.todos[i] in r.todos
    ensures r.events == s.events && r.notes == s.notes
    ensures r.opacity == s.opacity && r.weatherCity == s.weatherCity
  {
    FilterMembers(s.todos, TodoIdIsNot(id));
    s.(todos := Filter(s.todos, TodoIdIsNot(id)))
  }

  /** What `addEvent` receives: an event without its id. */
  datatype EventInput = EventInput(title: string, date: int, eventType: EventType)

  /** `addEvent(event)`: append it with id `Date.now().toString()`. */
  function AddEvent(s: AppState, event: EventInput, stamp: nat): (r: AppState)
    ensures |r.events| == |s.events| + 1 && r.events[..|s.events|] == s.events
    ensures r.events[|s.events|] == CalendarEvent(StampId(stamp), event.title, event.date, event.eventType)
    ensures r.todos == s.todos && r.notes == s.notes
    ensures r.opacity == s.opacity && r.weatherCity == s.weatherCity
  {
    s.(events := s.events + [CalendarEvent(StampId(stamp), event.title, event.date, event.eventType)])
  }

  /** `convertTodoToEvent(todoId, date)`, the drop of a to-do on a calendar
      day. An unknown id leaves the state as it is. Otherwise one 'todo' event
      titled with the first matching to-do's text is appended, and every
      matching to-do gets `date` as its due date and nothing else. */
  function ConvertTodoToEvent(s: AppState, todoId: string, date: int, stamp: nat): (r: AppState)
    ensures !HasTodoId(s, todoId) ==> r == s
    ensures |r.todos| == |s.todos|
    ensures HasTodoId(s, todoId) ==>
      var k := FirstIndex(s.todos, TodoIdIs(todoId)).value;
      && |r.events| == |s.events| + 1 && r.events[..|s.events|] == s.events
      && r.events[|s.events|] == CalendarEvent(StampId(stamp), s.todos[k].text, date, TodoEvent)
      && Paired(r.todos[k], r.events[|s.events|])
    ensures forall i :: 0 <= i < |s.todos| ==>
      r.todos[i] == if s.todos[i].id == todoId then s.todos[i].(dueDate := Some(date)) else s.todos[i]
    ensures r.notes == s.notes && r.opacity == s.opacity && r.weatherCity == s.weatherCity
  {
    match FirstIndex(s.todos, TodoIdIs(todoId))
    case None => s
    case Some(k) =>
      var todo := s.todos[k];
      s.(events := s.events + [CalendarEvent(StampId(stamp), todo.text, date, TodoEvent)],
         todos := seq(|s.todos|, i requires 0 <= i < |s.todos| =>
           var t := s.todos[i]; if t.id == todoId then t.(dueDate := Some(date)) else t))
  }

  /** `addNote(content, color = 'bg-yellow-200/80')`: the default applies only
      when no colour is passed at all. */
  function AddNote(s: AppState, content: string, color: Option<string>, idStamp: nat, createdAt: nat): (r: AppState)
    ensures |r.notes| == |s.notes| + 1 && r.notes[..|s.notes|] == s.notes
    ensures var n := r.notes[|s.notes|];
      n.id == StampId(idStamp) && n.content == content && n.createdAt == createdAt
      && n.color == (if color.Some? then color.value else DefaultNoteColor)
    ensures r.todos == s.todos && r.events == s.events
    ensures r.opacity == s.opacity && r.weatherCity == s.weatherCity
  {
    s.(notes := s.notes + [Note(StampId(idStamp), content, color.GetOr(DefaultNoteColor), createdAt)])
  }

  /** `updateNote(id, content)`: replace the content of every note with this
      id, nothing else. */
  function UpdateNote(s: AppState, id: string, content: string): (r: AppState)
    ensures |r.notes| == |s.notes|
    ensures forall i :: 0 <= i < |s.notes| ==>
      r.notes[i] == if s.notes[i].id == id then s.notes[i].(content := content) else s.notes[i]
    ensures r.todos == s.todos && r.events == s.events
    ensures r.opacity == s.opacity && r.weatherCity == s.weatherCity
  {
    s.(notes := seq(|s.notes|, i requires 0 <= i < |s.notes| =>
      var n := s.notes[i]; if n.id == id then n.(content := content) else n))
  }

  /** `removeNote(id)`: drop every note with this id. */
  function RemoveNote(s: AppState, id: string): (r: AppState)
    ensures forall i :: 0 <= i < |r.notes| ==> r.notes[i].id != id && r.notes[i] in s.notes
    ensures forall i :: 0 <= i < |s.notes| && s.notes[i].id != id ==> s.notes[i] in r.notes
    ensures r.todos == s.todos && r.events == s.events
    ensures r.opacity == s.opacity && r.weatherCity == s.weatherCity
  {
    FilterMembers(s.notes, NoteIdIsNot(id));
    s.(notes := Filter(s.notes, NoteIdIsNot(id)))
  }

  /** The fields of an imported document. None stands for a field that is
      absent or JSON `null`. An array is always truthy, even when empty. */
  datatype ImportDoc = ImportDoc(
    todos: Option<seq<Todo>>, events: Option<seq<CalendarEvent>>, notes: Option<seq<Note>>,
    opacity: Option<real>, weatherCity: Option<string>)

  /** JavaScript truthiness of the two settings: 0 and "" are falsy. */
  predicate OpacityTruthy(o: Option<real>) {
    o.Some? && o.value != 0.0
  }

  predicate CityTruthy(c: Option<string>) {
    c.Some? && c.value != ""
  }

  /** `importData(data)`: each field is replaced wholesale by the document's
      value when that value is truthy, and kept otherwise. */
  function ImportData(s: AppState, data: ImportDoc): (r: AppState)
    ensures r.todos == if data.todos.Some? then data.todos.value else s.todos
    ensures r.events == if data.events.Some? then data.events.value else s.events
    ensures r.notes == if data.notes.Some? then data.notes.value else s.notes
    ensures r.opacity == if OpacityTruthy(data.opacity) then data.opacity.value else s.opacity
    ensures r.weatherCity == if CityTruthy(data.weatherCity) then data.weatherCity.value else s.weatherCity
  {
    AppState(
      data.todos.GetOr(s.todos),
      data.events.GetOr(s.events),
      data.notes.GetOr(s.notes),
      if data.opacity.Some? && data.opacity.value != 0.0 then data.opacity.value else s.opacity,
      if data.weatherCity.Some? && data.weatherCity.value != "" then data.weatherCity.value else s.weatherCity)
  }

  /** The document `exportData` writes. */
  datatype ExportDoc = ExportDoc(
    todos: seq<Todo>, events: seq<CalendarEvent>, notes: seq<Note>,
    opacity: real, weatherCity: string, version: string, timestamp: int)

  function ExportData(s: AppState, now: int): (d: ExportDoc)
    ensures d.todos == s.todos && d.events == s.events && d.notes == s.notes
    ensures d.opacity == s.opacity && d.weatherCity == s.weatherCity
    ensures d.version == "1.0.0" && d.timestamp == now
  {
    ExportDoc(s.todos, s.events, s.notes, s.opacity, s.weatherCity, "1.0.0", now)
  }

  /** An exported document read back as an import: every field present. */
  function AsImport(d: ExportDoc): ImportDoc {
    ImportDoc(Some(d.todos), Some(d.events), Some(d.notes), Some(d.opacity), Some(d.weatherCity))
  }

  /** Toggling the same id twice restores the to-do list. */
  lemma ToggleTwice(s: AppState, id: string)
    ensures ToggleTodo(ToggleTodo(s, id), id) == s
  {
    var r := ToggleTodo(ToggleTodo(s, id), id);
    assert r.todos == s.todos by {
      forall i | 0 <= i < |s.todos| ensures r.todos[i] == s.todos[i] {
        var t := s.todos[i];
        assert r.todos[i] == Todo(t.id, t.text, t.done, t.dueDate);
      }
    }
  }

  /** Toggling an id no to-do has changes nothing. */
  lemma ToggleUnknownId(s: AppState, id: string)
    requires !HasTodoId(s, id)
    ensures ToggleTodo(s, id) == s
  {
    assert ToggleTodo(s, id).todos == s.todos;
  }

  /** `removeTodo` keeps the other to-dos in their order and drops exactly as
      many as carry the id, so exactly one when ids are unique. */
  lemma RemoveTodoCount(s: AppState, id: string)
    ensures IsSubsequence(RemoveTodo(s, id).todos, s.todos)
    ensures |RemoveTodo(s, id).todos| == |s.todos| - Count(s.todos, TodoIdIs(id))
  {
    FilterIsSubsequence(s.todos, TodoIdIsNot(id));
    FilterPartition(s.todos, TodoIdIs(id), TodoIdIsNot(id));
    FilterCount(s.todos, TodoIdIs(id));
  }

  /** `removeNote` keeps the other notes in their order and drops exactly as
      many as carry the id. */
  lemma RemoveNoteCount(s: AppState, id: string)
    ensures IsSubsequence(RemoveNote(s, id).notes, s.notes)
    ensures |RemoveNote(s, id).notes| == |s.notes| - Count(s.notes, NoteIdIs(id))
  {
    FilterIsSubsequence(s.notes, NoteIdIsNot(id));
    FilterPartition(s.notes, NoteIdIs(id), NoteIdIsNot(id));
    FilterCount(s.notes, NoteIdIs(id));
  }

  /** Removing an id no to-do has changes nothing. */
  lemma RemoveUnknownTodo(s: AppState, id: string)
    requires !HasTodoId(s, id)
    ensures RemoveTodo(s, id) == s
  {
    FilterKeepsAll(s.todos, TodoIdIsNot(id));
  }

  /** `convertTodoToEvent` touches only due dates, so the first to-do with an
      id is the same before and after, with the same text. */
  lemma ConvertKeepsFirstMatch(s: AppState, todoId: string, id: string, date: int, stamp: nat)
    ensures FirstIndex(ConvertTodoToEvent(s, todoId, date, stamp).todos, TodoIdIs(id))
         == FirstIndex(s.todos, TodoIdIs(id))
    ensures forall i :: 0 <= i < |s.todos| ==>
      ConvertTodoToEvent(s, todoId, date, stamp).todos[i].id == s.todos[i].id
      && ConvertTodoToEvent(s, todoId, date, stamp).todos[i].text == s.todos[i].text
  {
    var r := ConvertTodoToEvent(s, todoId, date, stamp);
    assert forall i :: 0 <= i < |s.todos| ==> TodoIdIs(id)(r.todos[i]) == TodoIdIs(id)(s.todos[i]);
    FirstIndexAgree(r.todos, s.todos, TodoIdIs(id));
  }

  /** Converting the same to-do twice accumulates two events rather than
      replacing the first; the to-do keeps the later date. */
  lemma ConvertTwiceAccumulates(s: AppState, id: string, d1: int, d2: int, st1: nat, st2: nat)
    requires HasTodoId(s, id)
    ensures var s2 := ConvertTodoToEvent(ConvertTodoToEvent(s, id, d1, st1), id, d2, st2);
      var k := FirstIndex(s.todos, TodoIdIs(id)).value;
      && |s2.events| == |s.events| + 2 && s2.events[..|s.events|] == s.events
      && s2.events[|s.events|] == CalendarEvent(StampId(st1), s.todos[k].text, d1, TodoEvent)
      && s2.events[|s.events| + 1] == CalendarEvent(StampId(st2), s.todos[k].text, d2, TodoEvent)
      && s2.todos[k].dueDate == Some(d2)
  {
    var s1 := ConvertTodoToEvent(s, id, d1, st1);
    ConvertKeepsFirstMatch(s, id, id, d1, st1);
    var k := FirstIndex(s.todos, TodoIdIs(id)).value;
    assert s1.todos[k].id == id;
    assert HasTodoId(s1, id);
    var s2 := ConvertTodoToEvent(s1, id, d2, st2);
    AppendTwice(s.events, s1.events, s2.events);
  }

  /** Every store action, as the widgets dispatch it. */
  datatype Action =
    | AddTodoAction(text: string, dueDate: Option<int>, todoStamp: nat, eventStamp: nat)
    | ToggleTodoAction(id: string)
    | RemoveTodoAction(id: string)
    | AddEventAction(event: EventInput, stamp: nat)
    | ConvertAction(todoId: string, date: int, stamp: nat)
    | AddNoteAction(content: string, color: Option<string>, idStamp: nat, createdAt: nat)
    | UpdateNoteAction(noteId: string, content: string)
    | RemoveNoteAction(noteId: string)
    | ImportAction(data: ImportDoc)
    | SetOpacityAction(opacity: real)
    | SetWeatherCityAction(city: string)

  function Apply(s: AppState, a: Action): AppState {
    match a
    case AddTodoAction(text, d, t1, t2) => AddTodo(s, text, d, t1, t2)
    case ToggleTodoAction(id) => ToggleTodo(s, id)
    case RemoveTodoAction(id) => RemoveTodo(s, id)
    case AddEventAction(e, st) => AddEvent(s, e, st)
    case ConvertAction(id, d, st) => ConvertTodoToEvent(s, id, d, st)
    case AddNoteAction(c, col, st, at) => AddNote(s, c, col, st, at)
    case UpdateNoteAction(id, c) => UpdateNote(s, id, c)
    case RemoveNoteAction(id) => RemoveNote(s, id)
    case ImportAction(data) => ImportData(s, data)
    case SetOpacityAction(o) => SetOpacity(s, o)
    case SetWeatherCityAction(c) => SetWeatherCity(s, c)
  }

  function ApplyAll(s: AppState, actions: seq<Action>): AppState
    decreases |actions|
  {
    if actions == [] then s else ApplyAll(Apply(s, actions[0]), actions[1..])
  }

  /** `b` starts with `a`. */
  predicate IsPrefix<T(==)>(a: seq<T>, b: seq<T>) {
    |a| <= |b| && b[..|a|] == a
  }

  /** No action but an import ever removes or rewrites a calendar event: the
      events are an append-only log, since removing or converting a to-do
      never touches them. */
  lemma ApplyKeepsEvents(s: AppState, a: Action)
    requires !a.ImportAction?
    ensures IsPrefix(s.events, Apply(s, a).events)
  {
  }

  lemma {:induction false} ApplyAllKeepsEvents(s: AppState, actions: seq<Action>)
    requires forall i :: 0 <= i < |actions| ==> !actions[i].ImportAction?
    ensures IsPrefix(s.events, ApplyAll(s, actions).events)
    decreases |actions|
  {
    if actions != [] {
      var s1 := Apply(s, actions[0]);
      ApplyKeepsEvents(s, actions[0]);
      ApplyAllKeepsEvents(s1, actions[1..]);
      var r := ApplyAll(s1, actions[1..]);
      assert r.events[..|s.events|] == r.events[..|s1.events|][..|s.events|];
    }
  }

  /** Actions on a to-do id that no to-do has leave the state unchanged. */
  lemma UnknownTodoIdIsNoop(s: AppState, a: Action)
    requires a.ToggleTodoAction? || a.RemoveTodoAction? || a.ConvertAction?
    requires !HasTodoId(s, if a.ConvertAction? then a.todoId else a.id)
    ensures Apply(s, a) == s
  {
    match a
    case ToggleTodoAction(id) => ToggleUnknownId(s, id);
    case RemoveTodoAction(id) => RemoveUnknownTodo(s, id);
    case ConvertAction(id, d, st) =>
  }

  /** Note actions on an id that no note has leave the state unchanged. */
  lemma UnknownNoteIdIsNoop(s: AppState, a: Action)
    requires a.UpdateNoteAction? || a.RemoveNoteAction?
    requires forall i :: 0 <= i < |s.notes| ==> s.notes[i].id != a.noteId
    ensures Apply(s, a) == s
  {
    if a.RemoveNoteAction? {
      FilterKeepsAll(s.notes, NoteIdIsNot(a.noteId));
    } else {
      assert UpdateNote(s, a.noteId, a.content).notes == s.notes;
    }
  }

  /** Exporting and importing the export restores every field, provided the
      two settings are truthy. */
  lemma ExportImportRoundTrip(s: AppState, t: AppState, now: int)
    requires s.opacity != 0.0 && s.weatherCity != ""
    ensures ImportData(t, AsImport(ExportData(s, now))) == s
  {
  }

  /** An empty city (typed into the settings box) does not survive the round
      trip: the import keeps whatever city the importing store has. */
  lemma EmptyCityNotRestored(s: AppState, t: AppState, now: int)
    requires s.weatherCity == "" && t.weatherCity != ""
    ensures ImportData(t, AsImport(ExportData(s, now))).weatherCity == t.weatherCity
    ensures ImportData(t, AsImport(ExportData(s, now))) != s
  {
  }
}
