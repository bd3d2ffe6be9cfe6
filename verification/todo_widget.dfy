/** The decision logic of the to-do panel, `TodoWidget.tsx`: the date
    detected while the user types, what a submit hands to the store, and the
    split of the list into active and completed to-dos. */
module TodoWidget {
  import opened Wrappers
  import opened Seqs
  import opened Text
  import opened Nlp
  import opened Store

  /** `input.trim()` is empty. */
  predicate Blank(s: string) {
    forall i :: 0 <= i < |s| ==> IsJsSpace(s[i])
  }

  /** The effect that runs on every change of the input: an empty input
      clears the detected date without asking the grammars. */
  function DetectDate(input: string, zh: Parser, en: Parser): (r: Option<ParsedDate>)
    ensures input == [] ==> r.None?
    ensures input != [] ==> r == ParseDateFromText(input, zh, en)
  {
    if input == [] then None else ParseDateFromText(input, zh, en)
  }

  /** The form's state: the text box and the date detected in it. */
  datatype Form = Form(input: string, detected: Option<ParsedDate>)

  /** The arguments of the `addTodo` call a submit makes. */
  datatype AddCall = AddCall(text: string, dueDate: Option<int>)

  datatype Submitted = Submitted(call: Option<AddCall>, form: Form)

  /** `handleSubmit`. A blank input makes no call and leaves the form as it
      is. Otherwise the detected date's clean text (the raw input when that
      is empty) and date are added, or the raw untrimmed input with no date
      when nothing was detected, and the form is cleared. */
  function Submit(f: Form): (r: Submitted)
    ensures r.call.None? <==> Blank(f.input)
    ensures r.call.None? ==> r.form == f
    ensures r.call.Some? ==> r.form == Form("", None)
    ensures r.call.Some? && f.detected.None? ==> r.call.value == AddCall(f.input, None)
    ensures r.call.Some? && f.detected.Some? ==>
      r.call.value.dueDate == Some(f.detected.value.date)
      && r.call.value.text == (if f.detected.value.cleanText != [] then f.detected.value.cleanText else f.input)
  {
    if Trim(f.input, IsJsSpace) == [] then Submitted(None, f)
    else
      var call := match f.detected
        case Some(d) => AddCall(if d.cleanText != [] then d.cleanText else f.input, Some(d.date))
        case None => AddCall(f.input, None);
      Submitted(Some(call), Form("", None))
  }

  /** A submit carried through to the store. */
  function SubmitToStore(s: AppState, f: Form, todoStamp: nat, eventStamp: nat): (r: (AppState, Form))
    ensures r.1 == Submit(f).form
    ensures Blank(f.input) ==> r.0 == s
    ensures !Blank(f.input) ==> |r.0.todos| == |s.todos| + 1 && r.0.todos[..|s.todos|] == s.todos
  {
    var out := Submit(f);
    match out.call
    case None => (s, out.form)
    case Some(c) => (AddTodo(s, c.text, c.dueDate, todoStamp, eventStamp), out.form)
  }

  /** Whenever the detected date is the effect's answer for the current
      input, a submitted title always has a visible character: either the
      clean text, which is trimmed and non-empty, or the non-blank input. */
  lemma SubmittedTitleNotBlank(input: string, zh: Parser, en: Parser)
    requires !Blank(input)
    ensures var r := Submit(Form(input, DetectDate(input, zh, en)));
      r.call.Some? && !Blank(r.call.value.text)
  {
    var d := DetectDate(input, zh, en);
    if d.Some? && d.value.cleanText != [] {
      assert Normalized(d.value.cleanText);
      assert !IsJsSpace(d.value.cleanText[0]);
    }
  }

  /** A detected date always reaches the store as the new to-do's due date
      together with a paired 'todo' event. */
  lemma DetectedDateReachesStore(s: AppState, input: string, zh: Parser, en: Parser, t1: nat, t2: nat)
    requires !Blank(input)
    requires DetectDate(input, zh, en).Some?
    ensures var r := SubmitToStore(s, Form(input, DetectDate(input, zh, en)), t1, t2).0;
      && |r.events| == |s.events| + 1
      && r.todos[|s.todos|].dueDate == Some(DetectDate(input, zh, en).value.date)
      && Paired(r.todos[|s.todos|], r.events[|s.events|])
  {
  }

  function IsActive(t: Todo): bool { !t.done }

  function IsDone(t: Todo): bool { t.done }

  function ActiveTodos(todos: seq<Todo>): seq<Todo> {
    Filter(todos, IsActive)
  }

  function CompletedTodos(todos: seq<Todo>): seq<Todo> {
    Filter(todos, IsDone)
  }

  /** The active and the completed lists partition the to-dos: each keeps
      store order, each holds exactly the to-dos of its kind, and together
      they hold every to-do once. */
  lemma {:induction false} ActiveCompletedPartition(todos: seq<Todo>)
    ensures IsSubsequence(ActiveTodos(todos), todos) && IsSubsequence(CompletedTodos(todos), todos)
    ensures forall i :: 0 <= i < |ActiveTodos(todos)| ==> !ActiveTodos(todos)[i].done
    ensures forall i :: 0 <= i < |CompletedTodos(todos)| ==> CompletedTodos(todos)[i].done
    ensures forall i :: 0 <= i < |todos| ==>
      if todos[i].done then todos[i] in CompletedTodos(todos) else todos[i] in ActiveTodos(todos)
    ensures |ActiveTodos(todos)| + |CompletedTodos(todos)| == |todos|
    ensures multiset(ActiveTodos(todos)) + multiset(CompletedTodos(todos)) == multiset(todos)
  {
    FilterMembers(todos, IsActive);
    FilterMembers(todos, IsDone);
    FilterIsSubsequence(todos, IsActive);
    FilterIsSubsequence(todos, IsDone);
    FilterPartition(todos, IsActive, IsDone);
  }
}
