/** What one pass of `syncPendingOperations` computes, as functions: the
    queue is walked in order, each entry costs one remote call, a confirmed
    create renames its temporary id in the task list and across the queue,
    and the entries whose call failed become the new queue. */
module Replay {
  import opened Prelude
  import opened TaskList
  import opened SyncQueue

  /** How one remote call ends: the request throws (`Unreachable`), the
      server answers with a non-ok status (`Rejected`), or it answers ok
      (`Accepted`). `assignedId` is the id in the body of the answer to a
      create; the answers to updates and deletes are not read. */
  datatype Response = Unreachable | Rejected | Accepted(assignedId: int)

  /** What a pass leaves behind: the task list, the new queue and the
      requests it sent, in order. */
  datatype Outcome = Outcome(tasks: seq<Task>, pending: seq<PendingOp>, calls: seq<PendingOp>)

  /** The call for `e` confirmed a create, so ids are rewritten. */
  predicate Confirms(e: PendingOp, reply: Response)
  {
    e.operation == Create && reply.Accepted?
  }

  /** The queue after the first `n` iterations of the loop. Iteration `k`
      reads the entry at `k` as earlier rewrites left it; when its create is
      confirmed, every entry carrying its id -- earlier ones, itself and
      later ones -- is given the permanent id. Entries never change in
      anything but that id. */
  function QueueAfter(queue: seq<PendingOp>, replies: seq<Response>, n: nat): (q: seq<PendingOp>)
    requires n <= |queue| && n <= |replies|
    ensures |q| == |queue|
    ensures forall k :: 0 <= k < |queue| ==> SameButId(q[k], queue[k])
    decreases n
  {
    if n == 0 then queue
    else
      var q := QueueAfter(queue, replies, n - 1);
      var e := q[n - 1];
      if Confirms(e, replies[n - 1]) then RenameAll(q, e.task.id, replies[n - 1].assignedId) else q
  }

  /** The request sent by iteration `k`: the entry at `k` as it stands then. */
  function Sent(queue: seq<PendingOp>, replies: seq<Response>, k: nat): (e: PendingOp)
    requires k < |queue| && k <= |replies|
    ensures SameButId(e, queue[k])
  {
    QueueAfter(queue, replies, k)[k]
  }

  /** The requests sent by the first `n` iterations, in order. */
  function Calls(queue: seq<PendingOp>, replies: seq<Response>, n: nat): (c: seq<PendingOp>)
    requires n <= |queue| && n <= |replies|
    ensures |c| == n
    ensures forall k :: 0 <= k < n ==> SameButId(c[k], queue[k])
    decreases n
  {
    if n == 0 then [] else Calls(queue, replies, n - 1) + [Sent(queue, replies, n - 1)]
  }

  /** Iteration `k` sends `Sent(k)`. */
  lemma {:induction false} CallsAt(queue: seq<PendingOp>, replies: seq<Response>, n: nat, k: nat)
    requires k < n <= |queue| && n <= |replies|
    ensures Calls(queue, replies, n)[k] == Sent(queue, replies, k)
    decreases n
  {
    if k < n - 1 {
      CallsAt(queue, replies, n - 1, k);
    }
  }

  /** The task list after the first `n` iterations: a confirmed create gives
      the first task carrying its temporary id the permanent one. Tasks
      keep their number and their texts. */
  function TasksAfter(tasks: seq<Task>, queue: seq<PendingOp>, replies: seq<Response>, n: nat): (ts: seq<Task>)
    requires n <= |queue| && n <= |replies|
    ensures |ts| == |tasks|
    ensures forall k :: 0 <= k < |tasks| ==> ts[k].text == tasks[k].text
    decreases n
  {
    if n == 0 then tasks
    else
      var ts := TasksAfter(tasks, queue, replies, n - 1);
      var e := Sent(queue, replies, n - 1);
      if Confirms(e, replies[n - 1]) then RenameFirst(ts, e.task.id, replies[n - 1].assignedId) else ts
  }

  /** The positions, in increasing order, of the calls that did not succeed. */
  function Failures(replies: seq<Response>): (r: seq<nat>)
    ensures forall j :: 0 <= j < |r| ==> r[j] < |replies| && !replies[r[j]].Accepted?
    ensures forall k :: 0 <= k < |replies| && !replies[k].Accepted? ==> k in r
    ensures forall i, j :: 0 <= i < j < |r| ==> r[i] < r[j]
  {
    if replies == [] then []
    else
      var n := |replies| - 1;
      Failures(replies[..n]) + (if replies[n].Accepted? then [] else [n])
  }

  /** One more answer adds its own position when it is a failure. */
  lemma FailuresSnoc(replies: seq<Response>, last: Response)
    ensures Failures(replies + [last]) == Failures(replies) + (if last.Accepted? then [] else [|replies|])
  {
    assert (replies + [last])[..|replies|] == replies;
  }

  /** The failures among the first `i + 1` answers, from those among the first `i`. */
  lemma FailuresPrefix(replies: seq<Response>, i: nat)
    requires i < |replies|
    ensures Failures(replies[..i + 1]) == Failures(replies[..i]) + (if replies[i].Accepted? then [] else [i])
  {
    assert replies[..i + 1] == replies[..i] + [replies[i]];
    FailuresSnoc(replies[..i], replies[i]);
  }

  /** The entries of `q` at the positions `at`, in that order. */
  function Select(q: seq<PendingOp>, at: seq<nat>): seq<PendingOp>
    requires forall j :: 0 <= j < |at| ==> at[j] < |q|
  {
    seq(|at|, j requires 0 <= j < |at| => q[at[j]])
  }

  /** `syncPendingOperations` against a server that answers the k-th call
      with `replies[k]`. An empty queue makes no call and changes nothing.
      Otherwise every entry is sent once, in order; the new queue is the
      entries whose call failed, in their original order and differing from
      them at most in the id they carry; and the task list keeps its length
      and its texts. */
  function Replay(tasks: seq<Task>, queue: seq<PendingOp>, replies: seq<Response>): (r: Outcome)
    requires |replies| == |queue|
    ensures queue == [] ==> r == Outcome(tasks, [], [])
    ensures |r.calls| == |queue|
    ensures forall k :: 0 <= k < |queue| ==> SameButId(r.calls[k], queue[k])
    ensures |r.pending| == |Failures(replies)|
    ensures forall j :: 0 <= j < |r.pending| ==> SameButId(r.pending[j], queue[Failures(replies)[j]])
    ensures |r.tasks| == |tasks| && forall k :: 0 <= k < |tasks| ==> r.tasks[k].text == tasks[k].text
  {
    if queue == [] then Outcome(tasks, [], [])
    else
      var n := |queue|;
      Outcome(TasksAfter(tasks, queue, replies, n),
              Select(QueueAfter(queue, replies, n), Failures(replies)),
              Calls(queue, replies, n))
  }

  /** With no create confirmed, nothing is rewritten. */
  lemma {:induction false} NothingConfirmed(tasks: seq<Task>, queue: seq<PendingOp>, replies: seq<Response>, n: nat)
    requires n <= |queue| && n <= |replies|
    requires forall k :: 0 <= k < n && queue[k].operation == Create ==> !replies[k].Accepted?
    ensures QueueAfter(queue, replies, n) == queue
    ensures TasksAfter(tasks, queue, replies, n) == tasks
    ensures Calls(queue, replies, n) == queue[..n]
    decreases n
  {
    if n > 0 {
      NothingConfirmed(tasks, queue, replies, n - 1);
      assert queue[..n] == queue[..n - 1] + [queue[n - 1]];
    }
  }

  /** Replay when no create is confirmed: the task list is untouched, every
      entry is sent as queued, and the new queue is exactly the failed
      entries in their original order. */
  lemma ReplayWithoutConfirmedCreate(tasks: seq<Task>, queue: seq<PendingOp>, replies: seq<Response>)
    requires |replies| == |queue|
    requires forall k :: 0 <= k < |queue| && queue[k].operation == Create ==> !replies[k].Accepted?
    ensures var r := Replay(tasks, queue, replies);
      r.tasks == tasks && r.calls == queue && r.pending == Select(queue, Failures(replies))
  {
    if queue != [] {
      var n := |queue|;
      NothingConfirmed(tasks, queue, replies, n);
      assert queue[..n] == queue;
      assert Replay(tasks, queue, replies)
          == Outcome(TasksAfter(tasks, queue, replies, n),
                     Select(QueueAfter(queue, replies, n), Failures(replies)),
                     Calls(queue, replies, n));
    }
  }

  /** Once the create at position `i` is confirmed under an id other than
      its temporary id `temp`, and no later create is assigned `temp`, no
      entry of the queue carries `temp` after any later iteration. */
  lemma {:induction false} TemporaryIdGone(queue: seq<PendingOp>, replies: seq<Response>, i: nat, n: nat)
    requires i < n <= |queue| && n <= |replies|
    requires var e := Sent(queue, replies, i);
      Confirms(e, replies[i]) && replies[i].assignedId != e.task.id
    requires var temp := Sent(queue, replies, i).task.id;
      forall k :: i < k < |queue| && k < |replies| && queue[k].operation == Create && replies[k].Accepted? ==>
        replies[k].assignedId != temp
    ensures forall k :: 0 <= k < |queue| ==> QueueAfter(queue, replies, n)[k].task.id != Sent(queue, replies, i).task.id
    decreases n
  {
    if n > i + 1 {
      TemporaryIdGone(queue, replies, i, n - 1);
      var q := QueueAfter(queue, replies, n - 1);
      if Confirms(q[n - 1], replies[n - 1]) {
        // A later confirmed create renames to an id other than the temporary one.
        assert queue[n - 1].operation == Create;
      }
    }
  }

  /** The identifier rewrite: once the create sent at position `i` is
      confirmed under a permanent id different from its temporary one, no
      later request of the pass carries the temporary id, and neither does
      any entry left in the queue, so long as the server assigns that id to
      no later create. */
  lemma NoStaleTemporaryId(tasks: seq<Task>, queue: seq<PendingOp>, replies: seq<Response>, i: nat)
    requires |replies| == |queue| && i < |queue|
    requires queue[i].operation == Create && replies[i].Accepted?
    requires replies[i].assignedId != Sent(queue, replies, i).task.id
    requires forall k :: i < k < |queue| && queue[k].operation == Create && replies[k].Accepted? ==>
      replies[k].assignedId != Sent(queue, replies, i).task.id
    ensures Replay(tasks, queue, replies).calls[i] == Sent(queue, replies, i)
    ensures forall k :: i < k < |queue| ==>
      Replay(tasks, queue, replies).calls[k].task.id != Sent(queue, replies, i).task.id
    ensures forall j :: 0 <= j < |Failures(replies)| ==>
      Replay(tasks, queue, replies).pending[j].task.id != Sent(queue, replies, i).task.id
  {
    var n := |queue|;
    TemporaryIdGone(queue, replies, i, n);
    CallsAt(queue, replies, n, i);
    forall k | i < k < n ensures Calls(queue, replies, n)[k].task.id != Sent(queue, replies, i).task.id {
      CallsAt(queue, replies, n, k);
      TemporaryIdGone(queue, replies, i, k);
    }
  }

  /** A call's entry stays queued exactly when the call did not succeed. */
  lemma KeptIffFailed(replies: seq<Response>, i: nat)
    ensures i in Failures(replies) <==> i < |replies| && !replies[i].Accepted?
  {
    if i in Failures(replies) {
      var j :| 0 <= j < |Failures(replies)| && Failures(replies)[j] == i;
    }
  }

  /** A call that did not succeed rewrites nothing, and the entry it sent is
      kept in the queue, at the place given by its position among the
      failures, as the later iterations leave it. */
  lemma {:induction false} FailedCallKept(tasks: seq<Task>, queue: seq<PendingOp>, replies: seq<Response>, i: nat)
    requires |replies| == |queue| && i < |queue| && !replies[i].Accepted?
    ensures QueueAfter(queue, replies, i + 1) == QueueAfter(queue, replies, i)
    ensures TasksAfter(tasks, queue, replies, i + 1) == TasksAfter(tasks, queue, replies, i)
    ensures exists j ::
      && 0 <= j < |Failures(replies)| && Failures(replies)[j] == i
      && Replay(tasks, queue, replies).pending[j] == QueueAfter(queue, replies, |queue|)[i]
  {
    KeptIffFailed(replies, i);
    var j :| 0 <= j < |Failures(replies)| && Failures(replies)[j] == i;
    assert Replay(tasks, queue, replies).pending[j] == QueueAfter(queue, replies, |queue|)[i];
  }

  /** The new queue is the failed subsequence of the pass: its j-th entry
      is the entry at the j-th failed position, as the whole pass's rewrites
      leave it; the positions increase; and every failed position, and no
      other, is among them. */
  lemma PendingIsFailedSubsequence(tasks: seq<Task>, queue: seq<PendingOp>, replies: seq<Response>)
    requires |replies| == |queue|
    ensures var r, at := Replay(tasks, queue, replies), Failures(replies);
      && |r.pending| == |at|
      && (forall j :: 0 <= j < |at| ==> at[j] < |queue| && r.pending[j] == QueueAfter(queue, replies, |queue|)[at[j]])
      && (forall j1, j2 :: 0 <= j1 < j2 < |at| ==> at[j1] < at[j2])
      && (forall i :: 0 <= i < |queue| ==> (i in at <==> !replies[i].Accepted?))
  {
    forall i | 0 <= i < |queue| ensures i in Failures(replies) <==> !replies[i].Accepted? {
      KeptIffFailed(replies, i);
    }
  }

  /** The create at `k` is confirmed. */
  ghost predicate ConfirmedAt(queue: seq<PendingOp>, replies: seq<Response>, k: int)
  {
    0 <= k < |queue| && k < |replies| && queue[k].operation == Create && replies[k].Accepted?
  }

  /** A create confirmed before iteration `n` was assigned `id`. */
  ghost predicate AssignedBefore(queue: seq<PendingOp>, replies: seq<Response>, n: int, id: int)
  {
    exists k :: 0 <= k < n && ConfirmedAt(queue, replies, k) && replies[k].assignedId == id
  }

  /** No two confirmed creates of the pass are assigned the same id. */
  ghost predicate DistinctAssignments(queue: seq<PendingOp>, replies: seq<Response>)
  {
    forall k1, k2 :: k1 < k2 && ConfirmedAt(queue, replies, k1) && ConfirmedAt(queue, replies, k2) ==>
      replies[k1].assignedId != replies[k2].assignedId
  }

  /** The server assigns every confirmed create an id that no task held
      before the pass and that no other confirmed create of the pass gets. */
  ghost predicate FreshAssignments(tasks: seq<Task>, queue: seq<PendingOp>, replies: seq<Response>)
  {
    && (forall k :: ConfirmedAt(queue, replies, k) ==> !HasId(tasks, replies[k].assignedId))
    && DistinctAssignments(queue, replies)
  }

  /** The server assigns every confirmed create an id that no entry of the
      queue carried before the pass and that no other confirmed create of
      the pass gets. */
  ghost predicate NewToQueue(queue: seq<PendingOp>, replies: seq<Response>)
  {
    && (forall k :: ConfirmedAt(queue, replies, k) ==> !QueueHasId(queue, replies[k].assignedId))
    && DistinctAssignments(queue, replies)
  }

  /** Every id in the list after `n` iterations was there before the pass or
      was assigned by a create confirmed in those iterations. */
  lemma {:induction false} TasksAfterIds(tasks: seq<Task>, queue: seq<PendingOp>, replies: seq<Response>, n: nat)
    requires n <= |queue| && n <= |replies|
    ensures forall j :: 0 <= j < |tasks| ==>
      var id := TasksAfter(tasks, queue, replies, n)[j].id;
      HasId(tasks, id) || AssignedBefore(queue, replies, n, id)
    decreases n
  {
    if n > 0 {
      TasksAfterIds(tasks, queue, replies, n - 1);
      var ts, e := TasksAfter(tasks, queue, replies, n - 1), Sent(queue, replies, n - 1);
      var r := TasksAfter(tasks, queue, replies, n);
      forall j | 0 <= j < |tasks| ensures HasId(tasks, r[j].id) || AssignedBefore(queue, replies, n, r[j].id) {
        if Confirms(e, replies[n - 1]) && r[j].id == replies[n - 1].assignedId {
          assert ConfirmedAt(queue, replies, n - 1);
        } else {
          assert r[j].id == ts[j].id;
          if !HasId(tasks, ts[j].id) {
            var k :| 0 <= k < n - 1 && ConfirmedAt(queue, replies, k) && replies[k].assignedId == ts[j].id;
          }
        }
      }
    }
  }

  /** Under fresh assignments, the id a confirmed create is given is not in
      the list when its iteration renames. */
  lemma AssignedIdFresh(tasks: seq<Task>, queue: seq<PendingOp>, replies: seq<Response>, m: nat)
    requires ConfirmedAt(queue, replies, m) && FreshAssignments(tasks, queue, replies)
    ensures !HasId(TasksAfter(tasks, queue, replies, m), replies[m].assignedId)
  {
    TasksAfterIds(tasks, queue, replies, m);
    var ts, to := TasksAfter(tasks, queue, replies, m), replies[m].assignedId;
    forall j | 0 <= j < |ts| ensures ts[j].id != to {
      if !HasId(tasks, ts[j].id) {
        var k :| 0 <= k < m && ConfirmedAt(queue, replies, k) && replies[k].assignedId == ts[j].id;
      }
    }
  }

  /** Under fresh assignments every iteration keeps task ids unique. */
  lemma {:induction false} TasksAfterKeepsUnique(tasks: seq<Task>, queue: seq<PendingOp>, replies: seq<Response>, n: nat)
    requires n <= |queue| && n <= |replies|
    requires UniqueIds(tasks) && FreshAssignments(tasks, queue, replies)
    ensures UniqueIds(TasksAfter(tasks, queue, replies, n))
    decreases n
  {
    if n > 0 {
      TasksAfterKeepsUnique(tasks, queue, replies, n - 1);
      var e := Sent(queue, replies, n - 1);
      if Confirms(e, replies[n - 1]) {
        AssignedIdFresh(tasks, queue, replies, n - 1);
        RenameFirstToFresh(TasksAfter(tasks, queue, replies, n - 1), e.task.id, replies[n - 1].assignedId);
      }
    }
  }

  /** The list side of the identifier rewrite: once the create sent at `i`
      is confirmed, no task carries its temporary id after any later
      iteration. */
  lemma {:induction false} TemporaryIdLeavesList(tasks: seq<Task>, queue: seq<PendingOp>, replies: seq<Response>, i: nat, n: nat)
    requires i < n <= |queue| && n <= |replies|
    requires var e := Sent(queue, replies, i);
      Confirms(e, replies[i]) && replies[i].assignedId != e.task.id
    requires var temp := Sent(queue, replies, i).task.id;
      forall k :: i < k < |queue| && k < |replies| && queue[k].operation == Create && replies[k].Accepted? ==>
        replies[k].assignedId != temp
    requires UniqueIds(tasks) && FreshAssignments(tasks, queue, replies)
    ensures !HasId(TasksAfter(tasks, queue, replies, n), Sent(queue, replies, i).task.id)
    decreases n
  {
    var temp := Sent(queue, replies, i).task.id;
    if n == i + 1 {
      TasksAfterKeepsUnique(tasks, queue, replies, i);
      AssignedIdFresh(tasks, queue, replies, i);
      RenameFirstToFresh(TasksAfter(tasks, queue, replies, i), temp, replies[i].assignedId);
    } else {
      TemporaryIdLeavesList(tasks, queue, replies, i, n - 1);
      var e := Sent(queue, replies, n - 1);
      if Confirms(e, replies[n - 1]) {
        assert queue[n - 1].operation == Create;
        RenameFirstKeepsAbsent(TasksAfter(tasks, queue, replies, n - 1), e.task.id, replies[n - 1].assignedId, temp);
      }
    }
  }

  /** The whole identifier rewrite for the create sent at `i`, confirmed
      under a permanent id: its iteration moves the task and every queue
      entry carrying the temporary id to the permanent id; after the pass no
      task carries the temporary id; and, with unique ids to start with and
      fresh ids from the server, ids stay unique. */
  lemma NoTaskKeepsTemporaryId(tasks: seq<Task>, queue: seq<PendingOp>, replies: seq<Response>, i: nat)
    requires |replies| == |queue| && i < |queue|
    requires queue[i].operation == Create && replies[i].Accepted?
    requires replies[i].assignedId != Sent(queue, replies, i).task.id
    requires forall k :: i < k < |queue| && queue[k].operation == Create && replies[k].Accepted? ==>
      replies[k].assignedId != Sent(queue, replies, i).task.id
    requires UniqueIds(tasks) && FreshAssignments(tasks, queue, replies)
    ensures HasId(TasksAfter(tasks, queue, replies, i), Sent(queue, replies, i).task.id) ==>
      HasId(TasksAfter(tasks, queue, replies, i + 1), replies[i].assignedId)
    ensures forall k :: 0 <= k < |queue| && QueueAfter(queue, replies, i)[k].task.id == Sent(queue, replies, i).task.id ==>
      QueueAfter(queue, replies, i + 1)[k].task.id == replies[i].assignedId
    ensures !HasId(Replay(tasks, queue, replies).tasks, Sent(queue, replies, i).task.id)
    ensures UniqueIds(Replay(tasks, queue, replies).tasks)
  {
    var temp, n := Sent(queue, replies, i).task.id, |queue|;
    var ts := TasksAfter(tasks, queue, replies, i);
    if HasId(ts, temp) {
      var k :| 0 <= k < |ts| && ts[k].id == temp;
      var f := FirstTaskOf(ts, temp, k);
      assert TasksAfter(tasks, queue, replies, i + 1)[f].id == replies[i].assignedId;
    }
    TemporaryIdLeavesList(tasks, queue, replies, i, n);
    TasksAfterKeepsUnique(tasks, queue, replies, n);
  }

  /** Every id the queue carries after `n` iterations was carried by some
      entry before the pass or was assigned by a create confirmed in those
      iterations. */
  lemma {:induction false} QueueAfterIds(queue: seq<PendingOp>, replies: seq<Response>, n: nat)
    requires n <= |queue| && n <= |replies|
    ensures forall j :: 0 <= j < |queue| ==>
      var id := QueueAfter(queue, replies, n)[j].task.id;
      QueueHasId(queue, id) || AssignedBefore(queue, replies, n, id)
    decreases n
  {
    if n > 0 {
      QueueAfterIds(queue, replies, n - 1);
      var q := QueueAfter(queue, replies, n - 1);
      var r := QueueAfter(queue, replies, n);
      forall j | 0 <= j < |queue| ensures QueueHasId(queue, r[j].task.id) || AssignedBefore(queue, replies, n, r[j].task.id) {
        if Confirms(q[n - 1], replies[n - 1]) && r[j].task.id == replies[n - 1].assignedId {
          assert ConfirmedAt(queue, replies, n - 1);
        } else {
          assert r[j].task.id == q[j].task.id;
          if !QueueHasId(queue, q[j].task.id) {
            var k :| 0 <= k < n - 1 && ConfirmedAt(queue, replies, k) && replies[k].assignedId == q[j].task.id;
          }
        }
      }
    }
  }

  /** When the server's ids are new to the queue, every iteration keeps at
      most one update per task id. */
  lemma {:induction false} QueueAfterKeepsConsolidated(queue: seq<PendingOp>, replies: seq<Response>, n: nat)
    requires n <= |queue| && n <= |replies|
    requires Consolidated(queue) && NewToQueue(queue, replies)
    ensures Consolidated(QueueAfter(queue, replies, n))
    decreases n
  {
    if n > 0 {
      QueueAfterKeepsConsolidated(queue, replies, n - 1);
      var q := QueueAfter(queue, replies, n - 1);
      if Confirms(q[n - 1], replies[n - 1]) {
        var to := replies[n - 1].assignedId;
        assert ConfirmedAt(queue, replies, n - 1);
        QueueAfterIds(queue, replies, n - 1);
        forall j | 0 <= j < |q| ensures q[j].task.id != to {
          if !QueueHasId(queue, q[j].task.id) {
            var k :| 0 <= k < n - 1 && ConfirmedAt(queue, replies, k) && replies[k].assignedId == q[j].task.id;
          }
        }
        RenameAllToFreshKeepsConsolidated(q, q[n - 1].task.id, to);
      }
    }
  }

  /** Picking entries at increasing positions keeps at most one update per id. */
  lemma SelectKeepsConsolidated(q: seq<PendingOp>, at: seq<nat>)
    requires forall j :: 0 <= j < |at| ==> at[j] < |q|
    requires forall i, j :: 0 <= i < j < |at| ==> at[i] < at[j]
    requires Consolidated(q)
    ensures Consolidated(Select(q, at))
  {
  }

  /** The queue invariant survives a pass: when the queue holds at most one
      update per id and the server's ids are new to it, so does the new
      queue. */
  lemma ReplayKeepsConsolidated(tasks: seq<Task>, queue: seq<PendingOp>, replies: seq<Response>)
    requires |replies| == |queue|
    requires Consolidated(queue) && NewToQueue(queue, replies)
    ensures Consolidated(Replay(tasks, queue, replies).pending)
  {
    if queue != [] {
      QueueAfterKeepsConsolidated(queue, replies, |queue|);
      SelectKeepsConsolidated(QueueAfter(queue, replies, |queue|), Failures(replies));
    }
  }

  /** Without that condition the invariant can break: a failed update for
      `temp`, a failed update for `permanent`, and a create for `temp` the
      server confirms under `permanent` leave two updates for `permanent`. */
  lemma ReplayMayMergeUpdates(temp: int, permanent: int)
    requires temp != permanent
    ensures var queue := [PendingOp(QueuedTask(temp, Some("a")), Update),
                          PendingOp(QueuedTask(permanent, Some("b")), Update),
                          PendingOp(QueuedTask(temp, Some("x")), Create)];
      var r := Replay([Task(temp, "x")], queue, [Rejected, Rejected, Accepted(permanent)]);
      && Consolidated(queue)
      && r.pending == [PendingOp(QueuedTask(permanent, Some("a")), Update), PendingOp(QueuedTask(permanent, Some("b")), Update)]
      && !Consolidated(r.pending)
  {
    var queue := [PendingOp(QueuedTask(temp, Some("a")), Update),
                  PendingOp(QueuedTask(permanent, Some("b")), Update),
                  PendingOp(QueuedTask(temp, Some("x")), Create)];
    var replies := [Rejected, Rejected, Accepted(permanent)];
    // The two updates fail and rewrite nothing.
    assert QueueAfter(queue, replies, 1) == queue;
    assert QueueAfter(queue, replies, 2) == queue;
    // The confirmed create renames the first update as well.
    var q3 := QueueAfter(queue, replies, 3);
    assert q3 == RenameAll(queue, temp, permanent);
    assert q3[0] == PendingOp(QueuedTask(permanent, Some("a")), Update);
    assert q3[1] == queue[1];
    OnlyLastSucceeds(Rejected, Rejected, Accepted(permanent));
    var pending := Select(q3, [0, 1]);
    assert pending == [q3[0], q3[1]];
  }

  lemma OnlyLastSucceeds(ra: Response, rb: Response, rc: Response)
    requires !ra.Accepted? && !rb.Accepted? && rc.Accepted?
    ensures Failures([ra, rb, rc]) == [0, 1]
  {
    assert [ra, rb, rc][..2] == [ra, rb];
    assert [ra, rb][..1] == [ra];
    assert [ra][..0] == [];
    assert Failures([ra]) == [0];
    assert Failures([ra, rb]) == [0, 1];
  }

  /** Once the create sent at `i` is confirmed, an entry that carried its
      temporary id just before keeps the permanent id through iteration
      `m`, so long as no create confirmed in between was sent under the
      permanent id. */
  lemma {:induction false} StaysPermanent(queue: seq<PendingOp>, replies: seq<Response>, i: nat, k: nat, m: nat)
    requires i < m <= k < |queue| && m <= |replies|
    requires Confirms(Sent(queue, replies, i), replies[i])
    requires QueueAfter(queue, replies, i)[k].task.id == Sent(queue, replies, i).task.id
    requires forall j :: i < j < m && Confirms(Sent(queue, replies, j), replies[j]) ==>
      Sent(queue, replies, j).task.id != replies[i].assignedId
    ensures QueueAfter(queue, replies, m)[k].task.id == replies[i].assignedId
    decreases m
  {
    var to := replies[i].assignedId;
    if m == i + 1 {
      var q := QueueAfter(queue, replies, i);
      assert QueueAfter(queue, replies, m) == RenameAll(q, q[i].task.id, to);
    } else {
      StaysPermanent(queue, replies, i, k, m - 1);
      var q := QueueAfter(queue, replies, m - 1);
      var e := q[m - 1];
      assert q[k].task.id == to;
      if Confirms(e, replies[m - 1]) {
        assert e == Sent(queue, replies, m - 1);
        assert e.task.id != to;
        assert QueueAfter(queue, replies, m) == RenameAll(q, e.task.id, replies[m - 1].assignedId);
      } else {
        assert QueueAfter(queue, replies, m) == q;
      }
    }
  }

  /** The identifier rewrite as the server sees it: an entry queued behind
      a confirmed create and carrying its temporary id is sent under the
      permanent id, unless a create confirmed in between was itself sent
      under the permanent id. */
  lemma LaterRequestsUsePermanentId(tasks: seq<Task>, queue: seq<PendingOp>, replies: seq<Response>, i: nat, k: nat)
    requires |replies| == |queue| && i < k < |queue|
    requires queue[i].operation == Create && replies[i].Accepted?
    requires QueueAfter(queue, replies, i)[k].task.id == Sent(queue, replies, i).task.id
    requires forall j :: i < j < k && Confirms(Sent(queue, replies, j), replies[j]) ==>
      Sent(queue, replies, j).task.id != replies[i].assignedId
    ensures Replay(tasks, queue, replies).calls[k].task.id == replies[i].assignedId
  {
    StaysPermanent(queue, replies, i, k, k);
    CallsAt(queue, replies, |queue|, k);
  }

  /** A create for `temp` and an update queued after it, both confirmed:
      the update is sent under the permanent id, the local task ends up
      under the permanent id with its edited text, and the queue empties. */
  lemma CreateThenUpdate(temp: int, permanent: int, created: string, edited: string, answer: Response)
    requires answer.Accepted?
    ensures Replay([Task(temp, edited)],
                   [PendingOp(QueuedTask(temp, Some(created)), Create), PendingOp(QueuedTask(temp, Some(edited)), Update)],
                   [Accepted(permanent), answer])
         == Outcome([Task(permanent, edited)], [],
                    [PendingOp(QueuedTask(temp, Some(created)), Create), PendingOp(QueuedTask(permanent, Some(edited)), Update)])
  {
    var tasks := [Task(temp, edited)];
    var queue := [PendingOp(QueuedTask(temp, Some(created)), Create), PendingOp(QueuedTask(temp, Some(edited)), Update)];
    var replies := [Accepted(permanent), answer];
    // The create is confirmed first: the task and both entries move to the permanent id.
    assert Sent(queue, replies, 0) == queue[0];
    assert IndexOfId(tasks, temp) == Some(0);
    assert TasksAfter(tasks, queue, replies, 1) == [Task(permanent, edited)];
    var q1 := QueueAfter(queue, replies, 1);
    assert q1 == RenameAll(queue, temp, permanent);
    assert q1[1] == PendingOp(QueuedTask(permanent, Some(edited)), Update);
    // The update is then sent under the permanent id and rewrites nothing.
    assert Sent(queue, replies, 1) == q1[1];
    assert TasksAfter(tasks, queue, replies, 2) == [Task(permanent, edited)];
    FailuresSnoc([], Accepted(permanent));
    assert [] + [Accepted(permanent)] == [Accepted(permanent)];
    FailuresSnoc([Accepted(permanent)], answer);
    assert [Accepted(permanent)] + [answer] == replies;
    assert Failures(replies) == [];
    var r := Replay(tasks, queue, replies);
    assert r.calls == [queue[0], q1[1]];
  }

  /** An update queued while the create for the same task was still in
      flight sits before that create. Its call fails (the server knows no
      task with the temporary id), the create is then confirmed, and the
      rewrite reaches the update already set aside as failed: the queue
      keeps it under the permanent id. */
  lemma UpdateQueuedBeforeCreate(temp: int, permanent: int, created: string, edited: string)
    ensures Replay([Task(temp, edited)],
                   [PendingOp(QueuedTask(temp, Some(edited)), Update), PendingOp(QueuedTask(temp, Some(created)), Create)],
                   [Rejected, Accepted(permanent)])
         == Outcome([Task(permanent, edited)],
                    [PendingOp(QueuedTask(permanent, Some(edited)), Update)],
                    [PendingOp(QueuedTask(temp, Some(edited)), Update), PendingOp(QueuedTask(temp, Some(created)), Create)])
  {
    var tasks := [Task(temp, edited)];
    var queue := [PendingOp(QueuedTask(temp, Some(edited)), Update), PendingOp(QueuedTask(temp, Some(created)), Create)];
    var replies := [Rejected, Accepted(permanent)];
    // The failed update rewrites nothing.
    assert QueueAfter(queue, replies, 1) == queue;
    assert Sent(queue, replies, 0) == queue[0];
    assert TasksAfter(tasks, queue, replies, 1) == tasks;
    // The confirmed create renames the task and both entries.
    assert Sent(queue, replies, 1) == queue[1];
    assert IndexOfId(tasks, temp) == Some(0);
    assert TasksAfter(tasks, queue, replies, 2) == [Task(permanent, edited)];
    var q2 := QueueAfter(queue, replies, 2);
    assert q2 == RenameAll(queue, temp, permanent);
    assert q2[0] == PendingOp(QueuedTask(permanent, Some(edited)), Update);
    assert Calls(queue, replies, 2) == queue;
    assert [Rejected, Accepted(permanent)][..1] == [Rejected];
    assert [Rejected][..0] == [];
    assert Failures(replies) == [0];
  }

  /** Three queued operations where only the middle call fails: the queue
      keeps exactly the middle entry, under the id the pass's rewrites give
      it, and the task list is as the confirmed creates among the other two
      leave it. When neither of the other two is a create, the middle entry
      is kept as queued and the task list is untouched. */
  lemma PartialFailure(tasks: seq<Task>, a: PendingOp, b: PendingOp, c: PendingOp, ra: Response, rb: Response, rc: Response)
    requires ra.Accepted? && !rb.Accepted? && rc.Accepted?
    ensures var r := Replay(tasks, [a, b, c], [ra, rb, rc]);
      && |r.pending| == 1
      && r.pending[0] == QueueAfter([a, b, c], [ra, rb, rc], 3)[1]
      && SameButId(r.pending[0], b)
      && r.tasks == TasksAfter(tasks, [a, b, c], [ra, rb, rc], 3)
    ensures a.operation != Create && c.operation != Create ==>
      var r := Replay(tasks, [a, b, c], [ra, rb, rc]);
      r.pending == [b] && r.tasks == tasks
  {
    var replies := [ra, rb, rc];
    OnlyMiddleFails(ra, rb, rc);
    if a.operation != Create && c.operation != Create {
      ReplayWithoutConfirmedCreate(tasks, [a, b, c], replies);
      var kept := Select([a, b, c], [1]);
      assert |kept| == 1 && kept[0] == b;
      assert kept == [b];
    }
  }

  lemma OnlyMiddleFails(ra: Response, rb: Response, rc: Response)
    requires ra.Accepted? && !rb.Accepted? && rc.Accepted?
    ensures Failures([ra, rb, rc]) == [1]
  {
    assert [ra, rb, rc][..2] == [ra, rb];
    assert [ra, rb][..1] == [ra];
    assert [ra][..0] == [];
    assert Failures([ra]) == [];
    assert Failures([ra, rb]) == [1];
  }

  /** A task added while offline and replayed once the server assigns it 42. */
  lemma BuyMilkReplayed(temp: int)
    ensures Replay([Task(temp, "buy milk")], [PendingOp(QueuedTask(temp, Some("buy milk")), Create)], [Accepted(42)])
         == Outcome([Task(42, "buy milk")], [], [PendingOp(QueuedTask(temp, Some("buy milk")), Create)])
  {
    var queue := [PendingOp(QueuedTask(temp, Some("buy milk")), Create)];
    assert Sent(queue, [Accepted(42)], 0) == queue[0];
    assert Calls(queue, [Accepted(42)], 1) == queue;
    assert IndexOfId([Task(temp, "buy milk")], temp) == Some(0);
  }
}
