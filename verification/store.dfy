/** The app's two persisted records, `tasks` and `pendingSync`, and the
    handlers that change them: the add (form submit), save-edit and delete
    handlers, `loadTasks`, `markTaskForSync` and `syncPendingOperations`.
    Each handler is one atomic step here; the remote side is a parameter
    saying how the handler's call(s) end. */
module Reconciler {
  import opened Prelude
  import opened TaskList
  import opened SyncQueue
  import opened Replay

  class Store {
    /** The `tasks` record. */
    var tasks: seq<Task>
    /** The `pendingSync` record. */
    var pendingSync: seq<PendingOp>

    /** A store with neither record set reads both as `[]`. */
    constructor ()
      ensures tasks == [] && pendingSync == []
    {
      tasks := [];
      pendingSync := [];
    }

    /** `loadTasks`: a listing fetched from the server replaces the local
        list; when the fetch fails (`None`) the local copy stays. */
    method LoadTasks(listing: Option<seq<Task>>)
      modifies this
      ensures tasks == (if listing.Some? then listing.value else old(tasks))
      ensures pendingSync == old(pendingSync)
    {
      match listing
      case Some(fetched) => tasks := fetched;
      case None =>
    }

    /** `markTaskForSync`: queues an operation under the consolidation rule. */
    method MarkTaskForSync(task: QueuedTask, operation: Op)
      modifies this
      ensures pendingSync == Enqueue(old(pendingSync), task, operation)
      ensures tasks == old(tasks)
    {
      var queue := pendingSync;
      var entry := PendingOp(task, operation);
      if operation == Update {
        var existing := FindIndex(queue, (e: PendingOp) => IsUpdateFor(e, task.id));
        if existing.Some? {
          queue := queue[existing.value := entry];
        } else {
          queue := queue + [entry];
        }
      } else {
        queue := queue + [entry];
      }
      pendingSync := queue;
    }

    /** The submit handler: blank input is ignored; otherwise the trimmed
        text is appended under the temporary id and saved before the create
        is sent. A confirmed create gives that task the server's id; a
        failed one queues the create. */
    method AddTask(input: string, tempId: int, reply: Response)
      requires !HasId(tasks, tempId)
      modifies this
      ensures var text := Trim(input);
        if text == [] then
          tasks == old(tasks) && pendingSync == old(pendingSync)
        else if reply.Accepted? then
          tasks == old(tasks) + [Task(reply.assignedId, text)] && pendingSync == old(pendingSync)
        else
          && tasks == old(tasks) + [Task(tempId, text)]
          && pendingSync == old(pendingSync) + [PendingOp(QueuedTask(tempId, Some(text)), Create)]
      ensures UniqueIds(old(tasks)) && (reply.Accepted? ==> !HasId(old(tasks), reply.assignedId)) ==> UniqueIds(tasks)
    {
      var text := Trim(input);
      if text == [] {
        return;
      }
      var newTask := Task(tempId, text);
      var list := tasks;
      list := list + [newTask];
      tasks := list;
      match reply
      case Accepted(createdId) =>
        list := tasks;
        var index := IndexOfId(list, tempId);
        IndexOfAppended(old(tasks), newTask);
        if index.Some? {
          list := list[index.value := list[index.value].(id := createdId)];
          assert list == old(tasks) + [Task(createdId, text)];
          if UniqueIds(old(tasks)) && !HasId(old(tasks), createdId) {
            AppendFreshKeepsUnique(old(tasks), Task(createdId, text));
          }
          tasks := list;
        }
      case _ =>
        if UniqueIds(old(tasks)) {
          AppendFreshKeepsUnique(old(tasks), newTask);
        }
        MarkTaskForSync(Carried(newTask), Create);
    }

    /** The delete handler: every task with the id is dropped and the list
        saved. Only a request that throws queues the delete; an answer with
        a non-ok status is taken as done. */
    method DeleteTask(id: int, reply: Response)
      modifies this
      ensures tasks == Without(old(tasks), id)
      ensures pendingSync ==
        if reply.Unreachable? then old(pendingSync) + [PendingOp(QueuedTask(id, None), Delete)]
        else old(pendingSync)
      ensures UniqueIds(old(tasks)) ==> UniqueIds(tasks)
    {
      if UniqueIds(tasks) {
        WithoutKeepsUnique(tasks, id);
      }
      tasks := Without(tasks, id);
      if reply.Unreachable? {
        MarkTaskForSync(QueuedTask(id, None), Delete);
      }
    }

    /** The save-edit handler for the task the edit dialog was opened on
        (`editing`; None when no dialog is open). Blank input, no id (or the
        id 0, which JavaScript treats as false) and an id not in the list
        are ignored. Otherwise every task with the id gets the trimmed text
        and the list is saved; a failed update is queued, taking the place
        of an update already queued for the task. */
    method SaveEdit(input: string, editing: Option<int>, reply: Response)
      modifies this
      ensures var text := Trim(input);
        if text == [] || editing.None? || editing.value == 0 || !HasId(old(tasks), editing.value) then
          tasks == old(tasks) && pendingSync == old(pendingSync)
        else
          && tasks == Edited(old(tasks), Task(editing.value, text))
          && pendingSync == (if reply.Accepted? then old(pendingSync)
                             else Enqueue(old(pendingSync), QueuedTask(editing.value, Some(text)), Update))
      ensures UniqueIds(old(tasks)) ==> UniqueIds(tasks)
    {
      var text := Trim(input);
      if text == [] || editing.None? || editing.value == 0 {
        return;
      }
      var id := editing.value;
      var list := tasks;
      var found := IndexOfId(list, id);
      if found.None? {
        return;
      }
      var updated := list[found.value].(text := text);
      if UniqueIds(list) {
        EditedKeepsUnique(list, updated);
      }
      list := Edited(list, updated);
      tasks := list;
      if !reply.Accepted? {
        MarkTaskForSync(Carried(updated), Update);
      }
    }

    /** `syncPendingOperations`, the server answering the k-th call with
        `replies[k]`: returns the requests sent, in order. */
    method SyncPendingOperations(replies: seq<Response>) returns (calls: seq<PendingOp>)
      requires |replies| == |pendingSync|
      modifies this
      ensures Outcome(tasks, pendingSync, calls) == Replay.Replay(old(tasks), old(pendingSync), replies)
    {
      var queue := pendingSync;
      if |queue| == 0 {
        return [];
      }
      ghost var queue0, tasks0 := queue, tasks;
      var n := |queue|;
      var failed: seq<nat> := [];
      var list := tasks;
      calls := [];
      for i := 0 to n
        invariant queue == QueueAfter(queue0, replies, i)
        invariant list == TasksAfter(tasks0, queue0, replies, i)
        invariant failed == Failures(replies[..i])
        invariant calls == Calls(queue0, replies, i)
      {
        FailuresPrefix(replies, i);
        var item, reply := queue[i], replies[i];
        assert item == Sent(queue0, replies, i);
        calls := calls + [item];
        if item.operation == Create && reply.Accepted? {
          list, queue := AdoptPermanentId(list, queue, item.task.id, reply.assignedId);
        } else if !reply.Accepted? {
          failed := failed + [i];
        }
      }
      assert replies[..n] == replies;
      tasks := list;
      pendingSync := Select(queue, failed);
    }
  }

  /** What a confirmed create does: the first task carrying the temporary
      id, and every queue entry carrying it, now carry the permanent id. */
  method AdoptPermanentId(tasks: seq<Task>, queue: seq<PendingOp>, tempId: int, permanentId: int)
    returns (tasks': seq<Task>, queue': seq<PendingOp>)
    ensures tasks' == RenameFirst(tasks, tempId, permanentId)
    ensures queue' == RenameAll(queue, tempId, permanentId)
  {
    tasks' := tasks;
    var index := IndexOfId(tasks', tempId);
    if index.Some? {
      tasks' := tasks'[index.value := tasks'[index.value].(id := permanentId)];
    }
    queue' := RewriteIds(queue, tempId, permanentId);
  }

  /** The queue walk of a confirmed create: every entry carrying the
      temporary id, wherever it sits in the queue, is given the permanent one. */
  method RewriteIds(queue: seq<PendingOp>, tempId: int, permanentId: int) returns (rewritten: seq<PendingOp>)
    ensures rewritten == RenameAll(queue, tempId, permanentId)
  {
    rewritten := queue;
    for j := 0 to |queue|
      invariant |rewritten| == |queue|
      invariant forall k :: 0 <= k < j ==> rewritten[k] == Renamed(queue[k], tempId, permanentId)
      invariant forall k :: j <= k < |queue| ==> rewritten[k] == queue[k]
    {
      if rewritten[j].task.id == tempId {
        rewritten := rewritten[j := rewritten[j].(task := rewritten[j].task.(id := permanentId))];
      }
    }
  }

  /** The end-to-end scenario: "buy milk" added while the server is down,
      then replayed once it assigns the task id 42. */
  method AddOfflineThenReplay(tempId: int)
  {
    var store := new Store();
    store.AddTask("  buy milk ", tempId, Unreachable);
    PaddedInputTrimmed();
    assert store.tasks == [Task(tempId, "buy milk")];
    assert store.pendingSync == [PendingOp(QueuedTask(tempId, Some("buy milk")), Create)];
    var sent := store.SyncPendingOperations([Accepted(42)]);
    BuyMilkReplayed(tempId);
    assert store.tasks == [Task(42, "buy milk")];
    assert store.pendingSync == [];
    assert sent == [PendingOp(QueuedTask(tempId, Some("buy milk")), Create)];
  }

  /** The padding around the scenario's input is stripped. */
  lemma PaddedInputTrimmed()
    ensures Trim("  buy milk ") == "buy milk"
  {
    var padded, inner := "  buy milk ", "buy milk ";
    assert !IsWhiteSpace('b') && !IsWhiteSpace('k');
    assert padded[1..][1..] == inner;
    assert TrimStart(inner) == inner;
    assert TrimStart(padded[1..]) == inner;
    assert TrimStart(padded) == inner;
    assert inner[..|inner| - 1] == "buy milk";
    assert TrimEnd("buy milk") == "buy milk";
    assert TrimEnd(inner) == "buy milk";
  }
}
