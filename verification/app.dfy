/**
 The ToDoList component as a whole: its in-memory state together with the
 stored value, started by the load effect and driven by user events, each
 list change being followed by the save effect.
 */
module App {
  import opened TaskList
  import opened Screen
  import opened Persistence

  /** The component's state and the value the device store holds. */
  datatype Component = Component(screen: State, stored: Stored)

  /** The user actions the component handles. */
  datatype Event =
    | Type(text: string)      // onChangeText of the input field
    | Edit(task: Task)        // a row's edit icon
    | Press(freshId: Id)      // the Add/Update button; `freshId` stands for the random id
    | Remove(id: Id)          // a row's delete icon
    | Check(id: Id)           // a row's completion icon

  /** The stored value mirrors a non-empty in-memory list. */
  predicate Mirrors(a: Component)
  {
    |a.screen.todos| > 0 ==> a.stored == Some(a.screen.todos)
  }

  /** Mounting: the load effect replaces the empty initial list with what it
      read (a failed read keeps it), then the save effect sees the new list.
      The save effect's first run, on the initial empty list, writes nothing. */
  function Startup(stored: Stored, readOk: bool): (a: Component)
    ensures a.screen.mode == Idle && a.screen.input == ""
    ensures readOk && stored.Some? ==> a.screen.todos == stored.value
    ensures !(readOk && stored.Some?) ==> a.screen.todos == []
    ensures a.stored == stored
  {
    var result := if readOk then Read(stored) else ReadFailed;
    var loaded := Load(result, Initial.todos);
    Component(Initial.(todos := loaded), Save(loaded, stored))
  }

  /** A handler's new state, followed by the save effect (which every
      setTodoList call triggers, since each one passes a new array). A failed
      write is only logged, so the stored value stays as it was. */
  function Commit(a: Component, s: State, writeOk: bool): (r: Component)
    ensures r.screen == s
    ensures writeOk && |s.todos| > 0 ==> r.stored == Some(s.todos)
    ensures !(writeOk && |s.todos| > 0) ==> r.stored == a.stored
  {
    Component(s, if writeOk then Save(s.todos, a.stored) else a.stored)
  }

  /** One user event. Typing and opening a task for editing leave the list
      alone and so trigger no save. */
  function Step(a: Component, e: Event, writeOk: bool): (r: Component)
    ensures e.Type? ==> r.screen == ChangeText(a.screen, e.text)
    ensures e.Edit? ==> r.screen == BeginEdit(a.screen, e.task)
    ensures e.Press? ==> r.screen == Submit(a.screen, e.freshId)
    ensures e.Remove? ==> r.screen == DeleteTodo(a.screen, e.id)
    ensures e.Check? ==> r.screen == ToggleTodo(a.screen, e.id)
    ensures e.Type? || e.Edit? ==> r.stored == a.stored
    ensures !(e.Type? || e.Edit?) ==>
              r.stored == (if writeOk then Save(r.screen.todos, a.stored) else a.stored)
  {
    match e
    case Type(text) => a.(screen := ChangeText(a.screen, text))
    case Edit(t) => a.(screen := BeginEdit(a.screen, t))
    case Press(id) => Commit(a, Submit(a.screen, id), writeOk)
    case Remove(id) => Commit(a, DeleteTodo(a.screen, id), writeOk)
    case Check(id) => Commit(a, ToggleTodo(a.screen, id), writeOk)
  }

  /** A sequence of events; `writes[i]` says whether the save after event `i` succeeds. */
  function Run(a: Component, events: seq<Event>, writes: seq<bool>): (r: Component)
    requires |writes| == |events|
    decreases |events|
  {
    if events == [] then a else Run(Step(a, events[0], writes[0]), events[1..], writes[1..])
  }

  /** Every Add in the run draws an id not already in the list at that moment. */
  predicate FreshIds(a: Component, events: seq<Event>, writes: seq<bool>)
    requires |writes| == |events|
    decreases |events|
  {
    events == [] ||
    (&& (events[0].Press? && a.screen.mode.Idle? ==> events[0].freshId !in Ids(a.screen.todos))
     && FreshIds(Step(a, events[0], writes[0]), events[1..], writes[1..]))
  }

  /** After mounting, the store mirrors the in-memory list. */
  lemma StartupMirrors(stored: Stored, readOk: bool)
    ensures Mirrors(Startup(stored, readOk))
  {
  }

  /** Each event with a successful write keeps the store mirroring the list. */
  lemma StepMirrors(a: Component, e: Event)
    requires Mirrors(a)
    ensures Mirrors(Step(a, e, true))
  {
  }

  /** A successful save after a list change restores the mirror, whatever the
      store held before (for instance after an earlier failed write). */
  lemma SaveRestoresMirror(a: Component, e: Event)
    requires !(e.Type? || e.Edit?)
    ensures Mirrors(Step(a, e, true))
  {
  }

  /** Any run of events whose writes all succeed keeps the store mirroring the list. */
  lemma {:induction false} RunMirrors(a: Component, events: seq<Event>, writes: seq<bool>)
    requires |writes| == |events|
    requires forall i :: 0 <= i < |writes| ==> writes[i]
    requires Mirrors(a)
    ensures Mirrors(Run(a, events, writes))
    decreases |events|
  {
    if events != [] {
      assert writes[0];
      StepMirrors(a, events[0]);
      RunMirrors(Step(a, events[0], true), events[1..], writes[1..]);
    }
  }

  /** Each event keeps ids unique, provided an appended id is fresh. */
  lemma StepUniqueIds(a: Component, e: Event, writeOk: bool)
    requires UniqueIds(a.screen.todos)
    requires e.Press? && a.screen.mode.Idle? ==> e.freshId !in Ids(a.screen.todos)
    ensures UniqueIds(Step(a, e, writeOk).screen.todos)
  {
    match e
    case Type(_) =>
    case Edit(_) =>
    case Press(id) => SubmitUniqueIds(a.screen, id);
    case Remove(id) => DeleteUniqueIds(a.screen.todos, id);
    case Check(id) => ToggleKeepsIds(a.screen.todos, id);
  }

  /** Any run whose added ids are fresh keeps ids unique, whether or not its
      writes succeed. */
  lemma {:induction false} RunUniqueIds(a: Component, events: seq<Event>, writes: seq<bool>)
    requires |writes| == |events|
    requires UniqueIds(a.screen.todos)
    requires FreshIds(a, events, writes)
    ensures UniqueIds(Run(a, events, writes).screen.todos)
    decreases |events|
  {
    if events != [] {
      StepUniqueIds(a, events[0], writes[0]);
      RunUniqueIds(Step(a, events[0], writes[0]), events[1..], writes[1..]);
    }
  }

  /** Restarting while the store mirrors a non-empty list restores that list. */
  lemma ReloadRestores(a: Component)
    requires Mirrors(a)
    requires |a.screen.todos| > 0
    ensures Startup(a.stored, true).screen.todos == a.screen.todos
  {
  }

  /** Deleting the last task is never written, so a restart brings it back. */
  lemma DeleteLastComesBack(a: Component, t: Task)
    requires Mirrors(a)
    requires a.screen.todos == [t]
    ensures Step(a, Remove(t.id), true).screen.todos == []
    ensures Startup(Step(a, Remove(t.id), true).stored, true).screen.todos == [t]
  {
    assert [t][1..] == [];
  }

  /** After a failed read at mount the list starts empty, so the first add
      that is saved replaces the whole stored list with that one task. */
  lemma FailedReadThenAddOverwrites(l: seq<Task>, id: Id)
    ensures Step(Startup(Some(l), false), Press(id), true).stored == Some([Task(id, "", false)])
  {
  }

  /** A failed write leaves the store behind the in-memory list. */
  lemma FailedWriteKeepsStore(a: Component, e: Event)
    ensures Step(a, e, false).stored == a.stored
  {
  }
}
