/** The decisions `App.tsx` takes on the store's behalf: where a finished
    drag goes, which window size a collapse asks for, and when a loaded
    backup file reaches `importData`. */
module App {
  import opened Wrappers
  import opened Seqs
  import opened Text
  import opened Store

  /** `active.data.current` of a dragged item: its `type` and `id`. */
  datatype DragData = DragData(kind: string, id: string)

  /** A drop target: its droppable id and the `date` its data carries, if any.
      A calendar day's date is a `Date` object, so it is truthy whenever present. */
  datatype DropTarget = DropTarget(id: string, date: Option<int>)

  datatype DragEnd = DragEnd(active: Option<DragData>, over: Option<DropTarget>)

  /** The arguments of a `convertTodoToEvent` call. */
  datatype ConvertCall = ConvertCall(todoId: string, date: int)

  /** `handleDragEnd`: a to-do dropped on a dated `day-` target converts that
      to-do on that date; every other drag makes no call. */
  function DragEndCall(e: DragEnd): (r: Option<ConvertCall>)
    ensures r.Some? <==>
      && e.over.Some? && e.active.Some? && e.active.value.kind == "todo"
      && StartsWith(e.over.value.id, "day-") && e.over.value.date.Some?
    ensures r.Some? ==> r.value == ConvertCall(e.active.value.id, e.over.value.date.value)
  {
    match (e.over, e.active)
    case (Some(over), Some(data)) =>
      if data.kind == "todo" && |over.id| >= 4 && over.id[..4] == "day-" && over.date.Some?
      then Some(ConvertCall(data.id, over.date.value))
      else None
    case _ => None
  }

  /** The store after a drag. */
  function HandleDragEnd(s: AppState, e: DragEnd, stamp: nat): (r: AppState)
    ensures DragEndCall(e).None? ==> r == s
    ensures r.notes == s.notes && r.opacity == s.opacity && r.weatherCity == s.weatherCity
    ensures |r.todos| == |s.todos| && IsPrefix(s.events, r.events)
  {
    match DragEndCall(e)
    case None => s
    case Some(c) => ConvertTodoToEvent(s, c.todoId, c.date, stamp)
  }

  /** Dropping a to-do on a calendar day adds exactly one event on that day,
      titled like the first to-do with the dragged id. */
  lemma DropOnDayAddsEvent(s: AppState, id: string, dayId: string, date: int, stamp: nat)
    requires HasTodoId(s, id)
    requires StartsWith(dayId, "day-")
    ensures var r := HandleDragEnd(s, DragEnd(Some(DragData("todo", id)), Some(DropTarget(dayId, Some(date)))), stamp);
      && |r.events| == |s.events| + 1
      && r.events[|s.events|].date == date
      && r.events[|s.events|].title == s.todos[FirstIndex(s.todos, TodoIdIs(id)).value].text
  {
  }

  /** A drag that makes no call, or whose to-do is no longer in the store,
      changes nothing. */
  lemma DragOfUnknownTodoIsNoop(s: AppState, e: DragEnd, stamp: nat)
    requires DragEndCall(e).Some? ==> !HasTodoId(s, DragEndCall(e).value.todoId)
    ensures HandleDragEnd(s, e, stamp) == s
  {
  }

  /** Window sizes the collapse button requests over IPC. */
  datatype WindowSize = WindowSize(width: nat, height: nat)

  const ExpandedSize := WindowSize(900, 700)
  const CollapsedSize := WindowSize(60, 60)

  /** `toggleCollapse`: the new collapsed flag and, when the IPC bridge is
      there, the size requested for it. */
  function ToggleCollapse(collapsed: bool, hasIpc: bool): (r: (bool, Option<WindowSize>))
    ensures r.0 == !collapsed
    ensures r.1.Some? <==> hasIpc
    ensures r.1.Some? ==> r.1.value == (if r.0 then CollapsedSize else ExpandedSize)
  {
    var newState := !collapsed;
    if !hasIpc then (newState, None)
    else if newState then (newState, Some(CollapsedSize))
    else (newState, Some(ExpandedSize))
  }

  /** Two toggles restore the flag, and the second request is the size the
      window had before the first. */
  lemma ToggleCollapseTwice(collapsed: bool)
    ensures var first := ToggleCollapse(collapsed, true);
      var second := ToggleCollapse(first.0, true);
      second.0 == collapsed
      && second.1.value == (if collapsed then CollapsedSize else ExpandedSize)
      && first.1.value != second.1.value
  {
  }

  /** What `JSON.parse` can yield for a backup file: `null`, an object with
      the fields `importData` reads, or any other value (a number, a string,
      an array), on which every field read gives `undefined`. */
  datatype JsonValue = JsonNull | JsonObject(doc: ImportDoc) | JsonOther

  /** The import document a parsed value presents; `null` has none, since
      reading a field of it throws. */
  function FieldsOf(v: JsonValue): Option<ImportDoc> {
    match v
    case JsonNull => None
    case JsonObject(doc) => Some(doc)
    case JsonOther => Some(ImportDoc(None, None, None, None, None))
  }

  /** The reader's `onload`: `parsed` is `JSON.parse`'s value, None when it
      throws. The flag is the success alert. A file that does not parse, or
      parses to `null`, leaves the store untouched and reports failure. */
  function HandleFileLoad(s: AppState, parsed: Option<JsonValue>): (r: (AppState, bool))
    ensures !r.1 <==> parsed.None? || parsed.value.JsonNull?
    ensures !r.1 ==> r.0 == s
    ensures r.1 ==> r.0 == ImportData(s, FieldsOf(parsed.value).value)
  {
    match parsed
    case None => (s, false)
    case Some(v) =>
      match FieldsOf(v)
      case None => (s, false)
      case Some(doc) => (ImportData(s, doc), true)
  }

  /** A value that is not an object imports successfully and changes nothing. */
  lemma NonObjectImportIsNoop(s: AppState)
    ensures HandleFileLoad(s, Some(JsonOther)) == (s, true)
  {
  }

  /** Loading a file this store exported brings back the exported state,
      whatever state the loading store was in, provided both settings were
      truthy when exported. */
  lemma ExportedFileRestores(s: AppState, t: AppState, now: int)
    requires s.opacity != 0.0 && s.weatherCity != ""
    ensures HandleFileLoad(t, Some(JsonObject(AsImport(ExportData(s, now))))) == (s, true)
  {
    ExportImportRoundTrip(s, t, now);
  }
}
