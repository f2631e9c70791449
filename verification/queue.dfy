/** The pending-operation queue (`pendingSync`): the mutations whose remote
    call has not been confirmed, the consolidation rule `markTaskForSync`
    applies when one is queued, and the id rewrite that replay applies to
    the queue once a create is confirmed. */
module SyncQueue {
  import opened Prelude
  import opened TaskList

  datatype Op = Create | Update | Delete

  /** The task a queue entry carries: a create or an update carries the whole
      task, a delete only its id (`{ id }`), so its text is absent. */
  datatype QueuedTask = QueuedTask(id: int, text: Option<string>)

  /** `{ task, operation }`, one entry of the queue. */
  datatype PendingOp = PendingOp(task: QueuedTask, operation: Op)

  /** The queued form of a whole task. */
  function Carried(t: Task): QueuedTask
  {
    QueuedTask(t.id, Some(t.text))
  }

  predicate IsUpdateFor(e: PendingOp, id: int)
  {
    e.operation == Update && e.task.id == id
  }

  ghost predicate HasUpdate(q: seq<PendingOp>, id: int)
  {
    exists k :: 0 <= k < |q| && IsUpdateFor(q[k], id)
  }

  /** `k` is the index of the first queued update for `id`. */
  ghost predicate FirstUpdateAt(q: seq<PendingOp>, id: int, k: int)
  {
    0 <= k < |q| && IsUpdateFor(q[k], id) && forall j :: 0 <= j < k ==> !IsUpdateFor(q[j], id)
  }

  /** The queue invariant: at most one update per task id. */
  ghost predicate Consolidated(q: seq<PendingOp>)
  {
    forall i, j :: 0 <= i < j < |q| && q[i].operation == Update && q[j].operation == Update ==>
      q[i].task.id != q[j].task.id
  }

  /** The queue after `markTaskForSync(task, operation)`: an update for a
      task that already has a queued update takes that entry's place;
      anything else goes to the back. Either way the queue keeps at most one
      update per task id. */
  function Enqueue(q: seq<PendingOp>, task: QueuedTask, operation: Op): (r: seq<PendingOp>)
    ensures operation != Update || !HasUpdate(q, task.id) ==> r == q + [PendingOp(task, operation)]
    ensures operation == Update && HasUpdate(q, task.id) ==> |r| == |q|
    ensures operation == Update ==>
      forall k :: FirstUpdateAt(q, task.id, k) ==> r == q[k := PendingOp(task, Update)]
    ensures Consolidated(q) ==> Consolidated(r)
  {
    var entry := PendingOp(task, operation);
    if operation == Update then
      match FindIndex(q, (e: PendingOp) => IsUpdateFor(e, task.id))
      case Some(k) =>
        assert FirstUpdateAt(q, task.id, k);
        q[k := entry]
      case None => q + [entry]
    else
      q + [entry]
  }

  /** Two updates for one task queued back to back leave exactly one update
      for it in a consolidated queue, and it carries the later task. */
  lemma TwoUpdatesConsolidate(q: seq<PendingOp>, first: QueuedTask, second: QueuedTask)
    requires Consolidated(q) && first.id == second.id
    ensures var r := Enqueue(Enqueue(q, first, Update), second, Update);
      && |r| == (if HasUpdate(q, first.id) then |q| else |q| + 1)
      && exists k :: OnlyUpdateAt(r, second, k)
  {
    var id := first.id;
    var m := Enqueue(q, first, Update);
    var r := Enqueue(m, second, Update);
    // After the first call there is an update for the id; find where.
    var k: nat;
    if HasUpdate(q, id) {
      var i :| 0 <= i < |q| && IsUpdateFor(q[i], id);
      k := FirstOf(q, id, i);
    } else {
      k := |q|;
    }
    assert m[k] == PendingOp(first, Update);
    assert FirstUpdateAt(m, id, k);
    assert r == m[k := PendingOp(second, Update)];
    forall j | 0 <= j < |r| && j != k ensures !IsUpdateFor(r[j], id) {
      assert r[j] == m[j];
      assert m[k].operation == Update;
    }
    assert OnlyUpdateAt(r, second, k);
  }

  /** The entry at `k` is the update carrying `task`, and no other entry is
      an update for that task's id. */
  ghost predicate OnlyUpdateAt(q: seq<PendingOp>, task: QueuedTask, k: int)
  {
    && 0 <= k < |q| && q[k] == PendingOp(task, Update)
    && forall j :: 0 <= j < |q| && j != k ==> !IsUpdateFor(q[j], task.id)
  }

  /** A queue holding an update for `id` at `i` has a first one at or before `i`. */
  lemma {:induction false} FirstOf(q: seq<PendingOp>, id: int, i: nat) returns (k: nat)
    requires i < |q| && IsUpdateFor(q[i], id)
    ensures k <= i && FirstUpdateAt(q, id, k)
    decreases i
  {
    if exists j :: 0 <= j < i && IsUpdateFor(q[j], id) {
      var j :| 0 <= j < i && IsUpdateFor(q[j], id);
      k := FirstOf(q, id, j);
    } else {
      k := i;
    }
  }

  /** `a` and `b` are the same entry up to the id of the task they carry. */
  predicate SameButId(a: PendingOp, b: PendingOp)
  {
    a.operation == b.operation && a.task.text == b.task.text
  }

  /** The rewrite replay applies to the whole queue when a create for `from`
      is confirmed under `to`: every entry carrying `from` now carries `to`,
      and nothing else about any entry changes. */
  function RenameAll(q: seq<PendingOp>, from: int, to: int): (r: seq<PendingOp>)
    ensures |r| == |q|
    ensures forall k :: 0 <= k < |q| ==> SameButId(r[k], q[k])
    ensures forall k :: 0 <= k < |q| && q[k].task.id != from ==> r[k] == q[k]
    ensures forall k :: 0 <= k < |q| && q[k].task.id == from ==> r[k].task.id == to
    ensures from != to ==> forall k :: 0 <= k < |r| ==> r[k].task.id != from
  {
    seq(|q|, k requires 0 <= k < |q| => Renamed(q[k], from, to))
  }

  /** Some entry of `q` carries `id`. */
  ghost predicate QueueHasId(q: seq<PendingOp>, id: int)
  {
    exists k :: 0 <= k < |q| && q[k].task.id == id
  }

  /** Renaming to an id no entry carries keeps at most one update per id:
      two updates that end up sharing an id both carried `from` before. */
  lemma RenameAllToFreshKeepsConsolidated(q: seq<PendingOp>, from: int, to: int)
    requires Consolidated(q) && !QueueHasId(q, to)
    ensures Consolidated(RenameAll(q, from, to))
  {
    var r := RenameAll(q, from, to);
    forall i, j | 0 <= i < j < |r| && r[i].operation == Update && r[j].operation == Update
      ensures r[i].task.id != r[j].task.id
    {
      assert q[i].task.id != to && q[j].task.id != to;
      assert q[i].task.id != q[j].task.id;
    }
  }

  /** One entry under that rewrite. */
  function Renamed(e: PendingOp, from: int, to: int): (r: PendingOp)
    ensures SameButId(r, e)
    ensures r.task.id == if e.task.id == from then to else e.task.id
  {
    if e.task.id == from then e.(task := e.task.(id := to)) else e
  }
}
