# To-do list state of the `ToDoList` component

This project is a functional Dafny model of the logic in the `ToDoList` React Native
component (`components/Home.js`) of a single-screen to-do app. The component keeps three
pieces of state: the task list `todoList`, the task being edited `editingTodo`, and the input
text `todo`. It persists the list to the device key-value store under the key `"todoList"`.

- `TaskList` (`task_list.dfy`) defines the `Task` record `{id, title, completed}` and the four
  pure list transformations the handlers apply. `Add` appends. `UpdateTitle` and
  `ToggleCompleted` are `map`s keyed by id. `Delete` is a `filter` on id.
- `Screen` (`screen.dfy`) defines the edit mode `Idle | Editing(task)`, the input text and
  the handlers. There is one submit action: in `Idle` it adds a task, in `Editing` it updates
  one. The button caption reads "Update" while editing and "Add" otherwise.
- `Persistence` (`persistence.dfy`) defines the stored value (`None` or `Some(list)`), the
  save effect and the load effect. The save effect skips empty lists. The load effect gives
  the stored list, or the empty list when nothing is stored, or keeps the in-memory list when
  the read fails.
- `App` (`app.dfy`) puts them together. Mounting runs the load effect. Every handler that sets
  the list is followed by the save effect. Over runs of events, two invariants hold: while every
  write succeeds, the store mirrors every non-empty in-memory list; and ids stay unique as
  long as every added id is fresh, whatever the write outcomes.

Deleting the last task is never written to the store, because the save guard skips empty
lists. So a restart brings that task back (`App.DeleteLastComesBack`). This is how the code
is written, and the model keeps this behaviour.

Behaviour worth noting:
- an id that no task carries leaves the list unchanged, and nothing is reported;
- delete removes every task with that id; with unique ids that is at most one task, and
  exactly one when the id is present (`TaskList.DeleteRemovesOne`);
- an empty title is accepted;
- a failed read keeps the in-memory list, which is empty at mount;
- so after a failed read at mount, the first saved add overwrites the whole stored list with
  just the new task (`App.FailedReadThenAddOverwrites`);
- one successful save of a non-empty list makes the store mirror the list again, whatever it
  held before (`App.SaveRestoresMirror`).

## Model

| member | source | states |
|---|---|---|
| TaskList.Add | components/Home.js:56-61 | adding grows the list by one and keeps every earlier task in place; the new last task has the given id, the input as its title (an empty title is accepted) and is not completed |
| TaskList.AddUniqueIds | components/Home.js:58-61 | after an add, ids are unique if and only if they were unique before and the new id was not already in the list |
| TaskList.UpdateTitle | components/Home.js:51-53 | retitling keeps length, order, every id and every completed flag; a task's title becomes the new title exactly when its id matches, otherwise it is kept |
| TaskList.UpdateTitleKeepsIds | components/Home.js:51-53 | retitling leaves the sequence of ids identical, so ids are unique afterwards if and only if they were before |
| TaskList.UpdateTitleMissing | components/Home.js:51-53 | retitling an id that no task carries returns the list unchanged |
| TaskList.UpdateTitleLastWins | components/Home.js:51-53 | retitling the same id twice equals retitling it once with the second title |
| TaskList.ToggleCompleted | components/Home.js:73-77 | toggling keeps length, order, ids and titles; a task's completed flag is flipped exactly when its id matches |
| TaskList.ToggleKeepsIds | components/Home.js:74-76 | toggling leaves the sequence of ids identical, so ids are unique afterwards if and only if they were before |
| TaskList.ToggleMissing | components/Home.js:74-76 | toggling an id that no task carries returns the list unchanged |
| TaskList.ToggleTwice | components/Home.js:74-76 | toggling the same id twice gives back the original list |
| TaskList.Delete | components/Home.js:67-69 | a task is in the result if and only if it was in the list and has a different id; the list never grows |
| TaskList.DeleteRemovesId | components/Home.js:68 | no task with the deleted id remains |
| TaskList.DeleteAppend | components/Home.js:68 | deleting from a concatenation equals concatenating the deletions, so the survivors keep their relative order |
| TaskList.DeleteMissing | components/Home.js:68 | deleting an id that no task carries returns the list unchanged |
| TaskList.DeleteIdempotent | components/Home.js:68 | deleting the same id twice equals deleting it once |
| TaskList.DeleteUniqueIds | components/Home.js:68 | deleting keeps ids unique |
| TaskList.DeleteRemovesOne | components/Home.js:68 | in a list with unique ids, deleting an id that is present shortens the list by exactly one |
| Screen.ButtonLabel | components/Home.js:126-128 | the caption word is "Update" if and only if a task is being edited, and "Add" if and only if the component is idle |
| Screen.ChangeText | components/Home.js:118-122 | typing sets the input text and leaves the list and the edit mode alone |
| Screen.BeginEdit | components/Home.js:108-111 | choosing a task to edit enters `Editing(task)` and puts that task's title in the input; the list is not touched |
| Screen.Submit | components/Home.js:48-64 | every submit ends in `Idle` with an empty input; in `Idle` the list gets the input appended as a new task, in `Editing(t)` the tasks with `t`'s id are retitled with the input |
| Screen.DeleteTodo | components/Home.js:67-70 | deleting from the screen changes only the list, not the edit mode or the input |
| Screen.ToggleTodo | components/Home.js:73-78 | toggling from the screen changes only the list, not the edit mode or the input |
| Screen.SubmitUniqueIds | components/Home.js:48-64 | a submit keeps ids unique, provided that in `Idle` mode the supplied id is fresh |
| Screen.SubmitIdleAppends | components/Home.js:56-63 | an idle submit appends exactly the task `(freshId, input, false)` after the unchanged earlier tasks |
| Screen.EditUnchangedIsNoOp | components/Home.js:49-55 | opening a listed task for editing and submitting without typing leaves a list with unique ids exactly as it was, back in `Idle` with an empty input |
| Screen.StaleEditIsNoOp | components/Home.js:49-55 | if the task being edited is deleted before the submit, the submit changes nothing but the mode and the input, whatever was typed |
| Persistence.Save | components/Home.js:17-29 | a non-empty list overwrites the stored value whole; an empty list leaves the stored value untouched |
| Persistence.Read | components/Home.js:35-39 | a successful read never fails: it finds a list exactly when one is stored, and finds that list, and reports the value missing exactly when the key is absent |
| Persistence.Load | components/Home.js:32-46 | a found list replaces the in-memory list, a missing value gives the empty list, and a failed read keeps the in-memory list |
| Persistence.SaveThenLoad | components/Home.js:17-46 | saving a non-empty list and then loading gives back the same list (same ids, titles, flags and order) |
| Persistence.SaveEmptyThenLoad | components/Home.js:20-39 | saving the empty list is invisible to the next load, which sees what was stored before |
| Persistence.LoadThenSave | components/Home.js:17-46 | the save triggered by a load writes back exactly what is already stored |
| Persistence.LoadMissingIsEmpty | components/Home.js:36-39 | an absent stored value loads as the empty list, not as an error |
| App.Startup | components/Home.js:10-46 | mounting leaves the component idle with an empty input; it holds the stored list when the read succeeds and a list is stored, and the empty list otherwise; the store is not changed |
| App.Commit | components/Home.js:17-29 | after a list change, a successful write stores a non-empty new list; an empty list or a failed write leaves the store as it was |
| App.Step | components/Home.js:48-122 | each event acts on the component state as its handler does (typing sets the input, edit sets the mode and input, submit/delete/toggle as in `Screen`); typing and beginning an edit leave the store alone, while submit, delete and toggle are followed by the save effect, which writes a non-empty new list on success and keeps the old stored value for an empty list or a failed write |
| App.StartupMirrors | components/Home.js:17-46 | after mounting, a non-empty in-memory list equals the stored value |
| App.StepMirrors | components/Home.js:17-78 | every event followed by a successful save keeps a non-empty in-memory list equal to the stored value |
| App.SaveRestoresMirror | components/Home.js:17-29 | after submit, delete or toggle with a successful write, a non-empty in-memory list equals the stored value, whatever the store held before |
| App.RunMirrors | components/Home.js:17-78 | any run of events whose writes all succeed keeps a non-empty in-memory list equal to the stored value |
| App.StepUniqueIds | components/Home.js:48-78 | every event keeps ids unique, provided that an added id is fresh, whether or not its write succeeds |
| App.RunUniqueIds | components/Home.js:48-78 | any run of events whose added ids are fresh keeps ids pairwise unique, whatever the outcome of its writes |
| App.ReloadRestores | components/Home.js:20-37 | while the store mirrors a non-empty list, a restart restores exactly that list |
| App.DeleteLastComesBack | components/Home.js:17-69 | deleting the only task empties the list in memory, but a restart brings the task back |
| App.FailedReadThenAddOverwrites | components/Home.js:41-61 | after a failed read at mount, adding a task (with the empty input) and saving leaves only that task in the store, losing the previously stored list |
| App.FailedWriteKeepsStore | components/Home.js:23-25 | a failed write leaves the stored value as it was, even though the in-memory list changed |

## Left out

- Rendering, the `FlatList`, `IconButton` and `TextInput` widgets, and the style sheet: they are presentation and have no behaviour to verify.
- The asynchrony of the store and React's effect scheduling, including the race between the first save and the initial load. Mounting is modelled as the load effect followed by the save effect. The save effect's run on the initial empty list writes nothing either way.
- `JSON.stringify` and `JSON.parse`: the stored value is the list itself. A parse failure is one of the causes of `ReadFailed`.
- The falsy-string case of `if (storedData)`: an empty stored string would load as the empty list. The component never stores one, and the stored value here is a list, not text.
- `Math.random().toString()` id generation: the new id is a parameter. Its freshness is a precondition of the uniqueness lemmas only, because the component does not guarantee it.
- `console.error` logging: a failed read keeps the in-memory list, and a failed write keeps the stored value.
- App.RunMirrors: the mirror invariant is stated only for runs whose writes all succeed, because a failed write leaves the store behind the list (`App.FailedWriteKeepsStore`).
- Screen.ButtonLabel: gives the caption word only. The space the markup puts after it ("Update ", "Add ") is presentation.
