/**
 The in-memory state of the ToDoList component and its event handlers:
 the task list, the edit mode (`Idle` or `Editing(task)`, the component's
 `editingTodo` being null or a task) and the text of the input field.
 One submit action either appends a task or retitles the one being edited.
 */
module Screen {
  import opened TaskList

  /** Which task, if any, the submit button currently retitles. */
  datatype Mode = Idle | Editing(task: Task)

  /** The three pieces of component state: list, edit mode and input text. */
  datatype State = State(todos: seq<Task>, mode: Mode, input: string)

  /** The state the component mounts with: no tasks, not editing, empty input. */
  const Initial: State := State([], Idle, "")

  /** Caption of the submit button. */
  function ButtonLabel(mode: Mode): (caption: string)
    ensures caption == "Update" <==> mode.Editing?
    ensures caption == "Add" <==> mode.Idle?
  {
    match mode
    case Editing(_) => "Update"
    case Idle => "Add"
  }

  /** Typing into the input field replaces its text and nothing else. */
  function ChangeText(s: State, text: string): (r: State)
    ensures r.input == text
    ensures r.todos == s.todos && r.mode == s.mode
  {
    s.(input := text)
  }

  /** Pressing a row's edit icon: remember the task and show its title in the input. */
  function BeginEdit(s: State, t: Task): (r: State)
    ensures r.mode == Editing(t) && r.input == t.title
    ensures r.todos == s.todos
  {
    State(s.todos, Editing(t), t.title)
  }

  /** The submit button. While editing, retitle the remembered task's id with the
      input text; otherwise append a new task with id `freshId` (the component
      draws it at random). Either way, leave edit mode and clear the input. */
  function Submit(s: State, freshId: Id): (r: State)
    ensures r.mode == Idle && r.input == ""
    ensures s.mode.Idle? ==> r.todos == Add(s.todos, freshId, s.input)
    ensures s.mode.Editing? ==> r.todos == UpdateTitle(s.todos, s.mode.task.id, s.input)
  {
    var todos :=
      match s.mode
      case Editing(t) => UpdateTitle(s.todos, t.id, s.input)
      case Idle => Add(s.todos, freshId, s.input);
    State(todos, Idle, "")
  }

  /** A row's delete icon: the edit mode and input are left as they are. */
  function DeleteTodo(s: State, id: Id): (r: State)
    ensures r.todos == Delete(s.todos, id)
    ensures r.mode == s.mode && r.input == s.input
  {
    s.(todos := Delete(s.todos, id))
  }

  /** A row's check icon: the edit mode and input are left as they are. */
  function ToggleTodo(s: State, id: Id): (r: State)
    ensures r.todos == ToggleCompleted(s.todos, id)
    ensures r.mode == s.mode && r.input == s.input
  {
    s.(todos := ToggleCompleted(s.todos, id))
  }

  /** Submitting keeps ids unique, provided an appended id is fresh. */
  lemma SubmitUniqueIds(s: State, freshId: Id)
    requires UniqueIds(s.todos)
    requires s.mode.Idle? ==> freshId !in Ids(s.todos)
    ensures UniqueIds(Submit(s, freshId).todos)
  {
    match s.mode
    case Idle => AddUniqueIds(s.todos, freshId, s.input);
    case Editing(t) => UpdateTitleKeepsIds(s.todos, t.id, s.input);
  }

  /** Submitting in Idle mode appends one task titled with the input, even an
      empty one; earlier tasks are untouched. */
  lemma SubmitIdleAppends(s: State, freshId: Id)
    requires s.mode.Idle?
    ensures var r := Submit(s, freshId).todos;
      && |r| == |s.todos| + 1
      && r[..|s.todos|] == s.todos
      && r[|s.todos|] == Task(freshId, s.input, false)
  {
  }

  /** Opening a listed task for editing and submitting without typing leaves
      the list as it was (ids being unique), back in Idle mode. */
  lemma {:induction false} EditUnchangedIsNoOp(s: State, t: Task, freshId: Id)
    requires UniqueIds(s.todos)
    requires t in s.todos
    ensures Submit(BeginEdit(s, t), freshId) == State(s.todos, Idle, "")
  {
    var l := s.todos;
    var r := UpdateTitle(l, t.id, t.title);
    var k :| 0 <= k < |l| && l[k] == t;
    forall i | 0 <= i < |l|
      ensures r[i] == l[i]
    {
      if l[i].id == t.id {
        assert i == k;
      }
    }
  }

  /** Editing a task that is deleted before the submit: the submit retitles
      nothing and just leaves edit mode. */
  lemma StaleEditIsNoOp(s: State, t: Task, text: string, freshId: Id)
    ensures Submit(ChangeText(DeleteTodo(BeginEdit(s, t), t.id), text), freshId)
            == State(Delete(s.todos, t.id), Idle, "")
  {
    DeleteRemovesId(s.todos, t.id);
    UpdateTitleMissing(Delete(s.todos, t.id), t.id, text);
  }
}
