/**
 The two storage effects of the ToDoList component. The device's key-value
 store holds, under one fixed key, the whole list or nothing; the JSON text
 it really holds is treated as an identity encoding of the list.
 */
module Persistence {
  import opened TaskList

  datatype Option<T> = None | Some(value: T)

  /** The value stored under the key "todoList": absent, or a list. */
  type Stored = Option<seq<Task>>

  /** What reading the key gives back: a stored list, no value, or a failure
      (the read throws, or the stored text does not parse). */
  datatype ReadResult = Found(todos: seq<Task>) | Missing | ReadFailed

  /** The save effect run after the list changes: a non-empty list overwrites
      the stored value whole; an empty list is never written, so the stored
      value stays as it was. A write failure is only logged and is modelled
      by the caller keeping the old stored value. */
  function Save(todos: seq<Task>, stored: Stored): (r: Stored)
    ensures |todos| > 0 ==> r == Some(todos)
    ensures |todos| == 0 ==> r == stored
  {
    if |todos| > 0 then Some(todos) else stored
  }

  /** A read of the store that succeeds. */
  function Read(stored: Stored): (r: ReadResult)
    ensures r.Found? <==> stored.Some?
    ensures r.Missing? <==> stored.None?
    ensures r.Found? ==> r.todos == stored.value
  {
    match stored
    case Some(l) => Found(l)
    case None => Missing
  }

  /** The load effect run once on mount: a stored list replaces the in-memory
      list, a missing value empties it, and a failed read leaves it alone. */
  function Load(result: ReadResult, current: seq<Task>): (r: seq<Task>)
    ensures result.Found? ==> r == result.todos
    ensures result.Missing? ==> r == []
    ensures result.ReadFailed? ==> r == current
  {
    match result
    case Found(l) => l
    case Missing => []
    case ReadFailed => current
  }

  /** Saving a non-empty list and then loading gives back that list. */
  lemma SaveThenLoad(todos: seq<Task>, stored: Stored, current: seq<Task>)
    requires |todos| > 0
    ensures Load(Read(Save(todos, stored)), current) == todos
  {
  }

  /** Saving an empty list is invisible to the next load: it sees whatever the
      store held before, so a deleted last task comes back. */
  lemma SaveEmptyThenLoad(stored: Stored, current: seq<Task>)
    ensures Load(Read(Save([], stored)), current) == Load(Read(stored), current)
  {
  }

  /** Saving what was just loaded does not change the store. */
  lemma LoadThenSave(stored: Stored, current: seq<Task>)
    ensures Save(Load(Read(stored), current), stored) == stored
  {
  }

  /** An absent value loads as the empty list, whatever was in memory. */
  lemma LoadMissingIsEmpty(current: seq<Task>)
    ensures Load(Read(None), current) == []
  {
  }
}
