/**
 The to-do list held by the ToDoList component: an ordered sequence of
 tasks, and the four pure transformations its handlers apply to it
 (append, retitle by id, toggle by id, delete by id).
 */
module TaskList {

  /** Task ids are strings; the component derives them from a random number. */
  type Id = string

  /** One row of the list: `{id, title, completed}`. */
  datatype Task = Task(id: Id, title: string, completed: bool)

  /** The ids of a list, in list order. */
  function Ids(l: seq<Task>): (r: seq<Id>)
    ensures |r| == |l|
    ensures forall i :: 0 <= i < |l| ==> r[i] == l[i].id
  {
    seq(|l|, i requires 0 <= i < |l| => l[i].id)
  }

  /** No two positions of the list carry the same id. */
  predicate UniqueIds(l: seq<Task>)
  {
    forall i, j :: 0 <= i < j < |l| ==> l[i].id != l[j].id
  }

  /** Uniqueness of a list with a head element, split into head and tail. */
  lemma UniqueIdsCons(x: Task, s: seq<Task>)
    ensures UniqueIds([x] + s) <==> x.id !in Ids(s) && UniqueIds(s)
  {
    var l := [x] + s;
    if UniqueIds(l) {
      forall i, j | 0 <= i < j < |s|
        ensures s[i].id != s[j].id
      {
        assert l[i + 1] == s[i] && l[j + 1] == s[j];
      }
      forall k | 0 <= k < |s|
        ensures Ids(s)[k] != x.id
      {
        assert l[0] == x && l[k + 1] == s[k];
        assert l[0].id != l[k + 1].id;
      }
    }
  }

  // ---------------------------------------------------------------------
  // Add: the Idle branch of the submit handler
  // ---------------------------------------------------------------------

  /** Appends a new, not yet completed task with the given id and title.
      The title is taken as it is: an empty title is not rejected. */
  function Add(l: seq<Task>, id: Id, title: string): (r: seq<Task>)
    ensures |r| == |l| + 1
    ensures r[..|l|] == l
    ensures r[|l|].id == id && r[|l|].title == title && !r[|l|].completed
  {
    l + [Task(id, title, false)]
  }

  /** Adding keeps ids unique exactly when they were unique and the new id is fresh. */
  lemma AddUniqueIds(l: seq<Task>, id: Id, title: string)
    ensures UniqueIds(Add(l, id, title)) <==> UniqueIds(l) && id !in Ids(l)
  {
    var r := Add(l, id, title);
    assert forall i :: 0 <= i < |l| ==> r[i] == l[i];
  }

  // ---------------------------------------------------------------------
  // UpdateTitle: the Editing branch of the submit handler
  // ---------------------------------------------------------------------

  /** Replaces the title of every task whose id is `id`; everything else is kept. */
  function UpdateTitle(l: seq<Task>, id: Id, title: string): (r: seq<Task>)
    ensures |r| == |l|
    ensures forall i :: 0 <= i < |l| ==>
              r[i].id == l[i].id && r[i].completed == l[i].completed
    ensures forall i :: 0 <= i < |l| ==>
              r[i].title == (if l[i].id == id then title else l[i].title)
  {
    if l == [] then []
    else
      var head := if l[0].id == id then l[0].(title := title) else l[0];
      [head] + UpdateTitle(l[1..], id, title)
  }

  /** Retitling keeps the id sequence, hence also id uniqueness. */
  lemma UpdateTitleKeepsIds(l: seq<Task>, id: Id, title: string)
    ensures Ids(UpdateTitle(l, id, title)) == Ids(l)
    ensures UniqueIds(UpdateTitle(l, id, title)) <==> UniqueIds(l)
  {
  }

  /** Retitling an id that no task carries leaves the list unchanged. */
  lemma UpdateTitleMissing(l: seq<Task>, id: Id, title: string)
    requires id !in Ids(l)
    ensures UpdateTitle(l, id, title) == l
  {
    var r := UpdateTitle(l, id, title);
    forall i | 0 <= i < |l|
      ensures r[i] == l[i]
    {
      assert Ids(l)[i] == l[i].id;
    }
  }

  /** Retitling the same id twice: the second title wins. */
  lemma UpdateTitleLastWins(l: seq<Task>, id: Id, first: string, second: string)
    ensures UpdateTitle(UpdateTitle(l, id, first), id, second) == UpdateTitle(l, id, second)
  {
  }

  // ---------------------------------------------------------------------
  // ToggleCompleted: handleToggleComplete
  // ---------------------------------------------------------------------

  /** Flips the completed flag of every task whose id is `id`; everything else is kept. */
  function ToggleCompleted(l: seq<Task>, id: Id): (r: seq<Task>)
    ensures |r| == |l|
    ensures forall i :: 0 <= i < |l| ==>
              r[i].id == l[i].id && r[i].title == l[i].title
    ensures forall i :: 0 <= i < |l| ==>
              r[i].completed == (if l[i].id == id then !l[i].completed else l[i].completed)
  {
    if l == [] then []
    else
      var head := if l[0].id == id then l[0].(completed := !l[0].completed) else l[0];
      [head] + ToggleCompleted(l[1..], id)
  }

  /** Toggling keeps the id sequence, hence also id uniqueness. */
  lemma ToggleKeepsIds(l: seq<Task>, id: Id)
    ensures Ids(ToggleCompleted(l, id)) == Ids(l)
    ensures UniqueIds(ToggleCompleted(l, id)) <==> UniqueIds(l)
  {
  }

  /** Toggling an id that no task carries leaves the list unchanged. */
  lemma ToggleMissing(l: seq<Task>, id: Id)
    requires id !in Ids(l)
    ensures ToggleCompleted(l, id) == l
  {
    var r := ToggleCompleted(l, id);
    forall i | 0 <= i < |l|
      ensures r[i] == l[i]
    {
      assert Ids(l)[i] == l[i].id;
    }
  }

  /** Toggling the same id twice gives back the original list. */
  lemma ToggleTwice(l: seq<Task>, id: Id)
    ensures ToggleCompleted(ToggleCompleted(l, id), id) == l
  {
  }

  // ---------------------------------------------------------------------
  // Delete: handleDeleteTodo
  // ---------------------------------------------------------------------

  /** Keeps exactly the tasks whose id differs from `id`, in their original order. */
  function Delete(l: seq<Task>, id: Id): (r: seq<Task>)
    ensures |r| <= |l|
    ensures forall t :: t in r <==> t in l && t.id != id
  {
    if l == [] then []
    else if l[0].id == id then Delete(l[1..], id)
    else [l[0]] + Delete(l[1..], id)
  }

  /** No task with the deleted id remains. */
  lemma DeleteRemovesId(l: seq<Task>, id: Id)
    ensures id !in Ids(Delete(l, id))
  {
    var r := Delete(l, id);
    assert forall k :: 0 <= k < |r| ==> r[k] in r;
  }

  /** Delete works piecewise, so it keeps the relative order of what remains. */
  lemma {:induction false} DeleteAppend(a: seq<Task>, b: seq<Task>, id: Id)
    ensures Delete(a + b, id) == Delete(a, id) + Delete(b, id)
  {
    if a == [] {
      assert a + b == b;
    } else {
      assert (a + b)[0] == a[0];
      assert (a + b)[1..] == a[1..] + b;
      DeleteAppend(a[1..], b, id);
    }
  }

  /** Deleting an id that no task carries leaves the list unchanged. */
  lemma {:induction false} DeleteMissing(l: seq<Task>, id: Id)
    requires id !in Ids(l)
    ensures Delete(l, id) == l
  {
    if l != [] {
      assert Ids(l)[0] == l[0].id;
      assert Ids(l[1..]) == Ids(l)[1..];
      DeleteMissing(l[1..], id);
      assert [l[0]] + l[1..] == l;
    }
  }

  /** Deleting the same id twice equals deleting it once. */
  lemma DeleteIdempotent(l: seq<Task>, id: Id)
    ensures Delete(Delete(l, id), id) == Delete(l, id)
  {
    DeleteRemovesId(l, id);
    DeleteMissing(Delete(l, id), id);
  }

  /** Deleting keeps ids unique. */
  lemma {:induction false} DeleteUniqueIds(l: seq<Task>, id: Id)
    requires UniqueIds(l)
    ensures UniqueIds(Delete(l, id))
  {
    if l != [] {
      assert l == [l[0]] + l[1..];
      UniqueIdsCons(l[0], l[1..]);
      DeleteUniqueIds(l[1..], id);
      if l[0].id != id {
        var rest := Delete(l[1..], id);
        assert forall k :: 0 <= k < |rest| ==> rest[k] in l[1..];
        UniqueIdsCons(l[0], rest);
      }
    }
  }

  /** In a list with unique ids, deleting a present id removes exactly one task. */
  lemma {:induction false} DeleteRemovesOne(l: seq<Task>, id: Id)
    requires UniqueIds(l)
    requires id in Ids(l)
    ensures |Delete(l, id)| == |l| - 1
  {
    var tail := l[1..];
    assert l == [l[0]] + tail;
    UniqueIdsCons(l[0], tail);
    if l[0].id == id {
      DeleteMissing(tail, id);
    } else {
      var k :| 0 <= k < |l| && Ids(l)[k] == id;
      assert Ids(tail)[k - 1] == id;
      DeleteRemovesOne(tail, id);
    }
  }
}
