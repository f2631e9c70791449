/** The local task list and the three list transforms the app applies to it:
    the delete filter, the edit map and the "first task with this id gets a
    new id" rewrite used once the server has assigned a permanent id. */
module TaskList {
  import opened Prelude

  /** A to-do item. `id` is a server record id or a temporary local one. */
  datatype Task = Task(id: int, text: string)

  /** `k` is the position of the first task with `id`. */
  ghost predicate FirstWithId(tasks: seq<Task>, id: int, k: int)
  {
    0 <= k < |tasks| && tasks[k].id == id && forall j :: 0 <= j < k ==> tasks[j].id != id
  }

  ghost predicate HasId(tasks: seq<Task>, id: int)
  {
    exists k :: 0 <= k < |tasks| && tasks[k].id == id
  }

  /** The uniqueness of ids the design asks of the local list. */
  ghost predicate UniqueIds(tasks: seq<Task>)
  {
    forall i, j :: 0 <= i < j < |tasks| ==> tasks[i].id != tasks[j].id
  }

  /** The lookup of a task by id: the position of the first task with it. */
  function IndexOfId(tasks: seq<Task>, id: int): (r: Option<nat>)
    ensures r.Some? ==> FirstWithId(tasks, id, r.value)
    ensures r.None? <==> !HasId(tasks, id)
  {
    FindIndex(tasks, (t: Task) => t.id == id)
  }

  /** A task appended under an id the list did not hold is the one
      `findIndex` finds for that id. */
  lemma IndexOfAppended(tasks: seq<Task>, t: Task)
    requires !HasId(tasks, t.id)
    ensures IndexOfId(tasks + [t], t.id) == Some(|tasks|)
  {
    var list := tasks + [t];
    assert FirstWithId(list, t.id, |tasks|) by {
      forall j | 0 <= j < |tasks| ensures list[j].id != t.id {
        assert list[j] == tasks[j];
      }
    }
  }

  /** A list holding `id` at `i` has a first task with it at or before `i`. */
  lemma {:induction false} FirstTaskOf(tasks: seq<Task>, id: int, i: nat) returns (k: nat)
    requires i < |tasks| && tasks[i].id == id
    ensures k <= i && FirstWithId(tasks, id, k)
    decreases i
  {
    if exists j :: 0 <= j < i && tasks[j].id == id {
      var j :| 0 <= j < i && tasks[j].id == id;
      k := FirstTaskOf(tasks, id, j);
    } else {
      k := i;
    }
  }

  /** The delete filter: every task with that id is gone and every other
      task stays. */
  function Without(tasks: seq<Task>, id: int): (r: seq<Task>)
    ensures forall t :: t in r <==> t in tasks && t.id != id
    ensures |r| <= |tasks|
    ensures !HasId(tasks, id) ==> r == tasks
    ensures HasId(tasks, id) ==> |r| < |tasks|
  {
    if tasks == [] then []
    else if tasks[0].id == id then Without(tasks[1..], id)
    else [tasks[0]] + Without(tasks[1..], id)
  }

  /** The filter works element by element, so it keeps the surviving tasks
      in their original order. */
  lemma {:induction false} WithoutConcat(a: seq<Task>, b: seq<Task>, id: int)
    ensures Without(a + b, id) == Without(a, id) + Without(b, id)
  {
    if a == [] {
      assert a + b == b;
    } else {
      assert (a + b)[1..] == a[1..] + b;
      WithoutConcat(a[1..], b, id);
    }
  }

  /** With unique ids, deleting an id present in the list removes exactly
      that one task and leaves the rest in order. */
  lemma {:induction false} WithoutUniqueRemovesOne(tasks: seq<Task>, k: nat)
    requires UniqueIds(tasks) && k < |tasks|
    ensures Without(tasks, tasks[k].id) == tasks[..k] + tasks[k + 1..]
  {
    var id, before, after := tasks[k].id, tasks[..k], tasks[k + 1..];
    assert !HasId(before, id) by {
      forall j | 0 <= j < |before| ensures before[j].id != id {
        assert before[j] == tasks[j];
      }
    }
    assert !HasId(after, id) by {
      forall j | 0 <= j < |after| ensures after[j].id != id {
        assert after[j] == tasks[k + 1 + j];
      }
    }
    assert tasks == before + ([tasks[k]] + after);
    WithoutConcat(before, [tasks[k]] + after, id);
    assert ([tasks[k]] + after)[1..] == after;
  }

  lemma WithoutKeepsUnique(tasks: seq<Task>, id: int)
    requires UniqueIds(tasks)
    ensures UniqueIds(Without(tasks, id))
  {
    if tasks != [] {
      WithoutKeepsUnique(tasks[1..], id);
      var rest := Without(tasks[1..], id);
      if tasks[0].id != id {
        forall j | 0 <= j < |rest| ensures rest[j].id != tasks[0].id {
          assert rest[j] in tasks[1..];
        }
      }
    }
  }

  /** The save-edit map: every task with the edited task's id is replaced by it. */
  function Edited(tasks: seq<Task>, updated: Task): (r: seq<Task>)
    ensures |r| == |tasks|
    ensures forall k :: 0 <= k < |r| ==> r[k].id == tasks[k].id
    ensures forall k :: 0 <= k < |r| && tasks[k].id != updated.id ==> r[k] == tasks[k]
    ensures forall k :: 0 <= k < |r| && tasks[k].id == updated.id ==> r[k].text == updated.text
  {
    seq(|tasks|, k requires 0 <= k < |tasks| => if tasks[k].id == updated.id then updated else tasks[k])
  }

  /** The later of two edits to the same task wins. */
  lemma EditedTwice(tasks: seq<Task>, first: Task, second: Task)
    requires first.id == second.id
    ensures Edited(Edited(tasks, first), second) == Edited(tasks, second)
  {
  }

  /** Editing a task and then deleting it is the same as deleting it. */
  lemma {:induction false} EditedThenWithout(tasks: seq<Task>, updated: Task)
    ensures Without(Edited(tasks, updated), updated.id) == Without(tasks, updated.id)
  {
    if tasks != [] {
      var e := Edited(tasks, updated);
      assert e[1..] == Edited(tasks[1..], updated);
      EditedThenWithout(tasks[1..], updated);
    }
  }

  lemma EditedKeepsUnique(tasks: seq<Task>, updated: Task)
    requires UniqueIds(tasks)
    ensures UniqueIds(Edited(tasks, updated))
  {
  }

  /** The id step of a confirmed create: when some task carries `from`, the
      first such task is given `to`; no other task is renamed. */
  function RenameFirst(tasks: seq<Task>, from: int, to: int): (r: seq<Task>)
    ensures |r| == |tasks|
    ensures forall j :: 0 <= j < |r| ==> r[j].text == tasks[j].text && (r[j].id == tasks[j].id || r[j].id == to)
    ensures !HasId(tasks, from) ==> r == tasks
    ensures forall k :: FirstWithId(tasks, from, k) ==> r == tasks[k := Task(to, tasks[k].text)]
  {
    match IndexOfId(tasks, from)
    case None => tasks
    case Some(k) => tasks[k := tasks[k].(id := to)]
  }

  /** Renaming a temporary id to an id not yet in the list keeps ids unique
      and leaves no task with the temporary id. */
  lemma RenameFirstToFresh(tasks: seq<Task>, from: int, to: int)
    requires UniqueIds(tasks) && !HasId(tasks, to)
    ensures UniqueIds(RenameFirst(tasks, from, to))
    ensures from != to ==> !HasId(RenameFirst(tasks, from, to), from)
  {
    var r := RenameFirst(tasks, from, to);
    match IndexOfId(tasks, from)
    case None =>
    case Some(k) =>
      assert r == tasks[k := Task(to, tasks[k].text)];
      if from != to {
        forall j | 0 <= j < |r| ensures r[j].id != from {
          if j != k { assert tasks[j].id != tasks[k].id; }
        }
      }
  }

  /** A rename to another id brings no task with `x` into a list that had none. */
  lemma RenameFirstKeepsAbsent(tasks: seq<Task>, from: int, to: int, x: int)
    requires !HasId(tasks, x) && to != x
    ensures !HasId(RenameFirst(tasks, from, to), x)
  {
    var r := RenameFirst(tasks, from, to);
    forall j | 0 <= j < |r| ensures r[j].id != x {
      assert r[j].id == tasks[j].id || r[j].id == to;
    }
  }

  /** Appending a task under a fresh id keeps ids unique. */
  lemma AppendFreshKeepsUnique(tasks: seq<Task>, t: Task)
    requires UniqueIds(tasks) && !HasId(tasks, t.id)
    ensures UniqueIds(tasks + [t])
  {
  }
}
