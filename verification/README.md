# Offline task list: reconciliation model

A Dafny model of the offline reconciliation logic of a to-do list web app
(`app.js`). The app keeps two records in the browser's local store, the
task list `tasks` and the pending-operation queue `pendingSync`. It
changes the task list optimistically before each remote call. A mutation
whose call fails is queued, and the queue is replayed against the server
once the connection returns.

- `prelude.dfy` (module `Prelude`): `Option`, `Array.prototype.findIndex`
  (`FindIndex`) and `String.prototype.trim` (`Trim`, with the ECMAScript
  white-space and line-terminator sets written out).
- `tasks.dfy` (module `TaskList`): the `Task` record and the list
  transforms. These are the delete `filter` (`Without`), the save-edit
  `map` (`Edited`) and the find-first-and-set-id step (`RenameFirst`),
  with lemmas about order, uniqueness of ids and how they compose.
- `queue.dfy` (module `SyncQueue`): queue entries, the consolidation rule
  of `markTaskForSync` (`Enqueue`) and the rewrite that a confirmed create
  applies to the whole queue (`RenameAll`).
- `replay.dfy` (module `Replay`): what one pass of `syncPendingOperations`
  computes, as functions of the old state and the server's answers.
  `QueueAfter`, `TasksAfter` and `Calls` give the state after the first
  `n` iterations, and `Replay` gives the whole pass. Lemmas cover the id
  rewrite, retention of failures and worked reconnect scenarios.
- `store.dfy` (module `Reconciler`): class `Store`, with the two records
  as fields and the handlers as imperative methods. Each method is proved
  against the functions above: `MarkTaskForSync` against `Enqueue`, and
  the replay loop (with its inner `forEach`) against `Replay`. The method
  `AddOfflineThenReplay` is a worked scenario with no contract of its own:
  it adds "buy milk" while the server is down and replays it against a
  server that assigns 42, asserting the store's state after each step.

The remote side is a parameter. A `Response` is `Unreachable` (the
request throws), `Rejected` (a non-ok status) or `Accepted(assignedId)`.
The replay takes one answer per queued entry, in order. The temporary id
of an added task (`Date.now()` in the app) is a parameter, and it must not
already be used by a task in the list. The lemmas about unique ids after a
replay assume the server hands each confirmed create an id that no task
held before the pass and that no other create of the pass gets
(`FreshAssignments`). The lemmas saying that the new queue still holds at
most one update per task id assume instead that no entry of the queue
carried an assigned id before the pass (`NewToQueue`). Without that
assumption a pass can leave two updates for one id
(`ReplayMayMergeUpdates`).

Three behaviours of the code worth knowing:

- A confirmed create renames its temporary id in the whole queue array.
  The entries already set aside as failed are the same objects, so they
  are renamed too, and the new queue holds them under the permanent id
  (`UpdateQueuedBeforeCreate`).
- `deleteTask` queues a delete only when the request throws. An answer
  with a non-ok status counts as done.
- The save-edit handler treats an editing id of `0` like no id, because of
  the JavaScript truth test on `currentEditingTaskId`.

## Model

| member | source | states |
|---|---|---|
| Prelude.FindIndex | app.js:168-170 | The index found holds the first element satisfying the predicate; None exactly when no element does (the `-1` of `findIndex`). |
| Prelude.Trim | app.js:55 | The result is a slice of the input with only white space around it. It is empty exactly when the input is all white space, and otherwise starts and ends with a non-white-space character. |
| TaskList.IndexOfId | app.js:77 | `findIndex(t => t.id === id)`: Some(k) is the first task with the id; None exactly when no task has it. |
| TaskList.IndexOfAppended | app.js:58-62 | A task appended under an id the list did not hold is the one a later lookup of that id finds. |
| TaskList.Without | app.js:95 | The tasks kept are exactly those whose id differs. The list never grows, is unchanged when no task has the id, and shrinks when one does. |
| TaskList.WithoutConcat | app.js:95 | The filter works element by element, so the kept tasks stay in their original order. |
| TaskList.WithoutUniqueRemovesOne | app.js:94-96 | With unique ids, deleting the id of the task at k removes exactly that task and keeps the rest in order. |
| TaskList.WithoutKeepsUnique | app.js:95 | Deleting keeps ids unique. |
| TaskList.Edited | app.js:142 | The list keeps its length and its ids. Tasks with another id are unchanged, and tasks with the edited id get the new text. |
| TaskList.EditedTwice | app.js:140-142 | Of two edits to the same task, the later one wins. |
| TaskList.EditedThenWithout | app.js:94-142 | Editing a task and then deleting it is the same as deleting it. |
| TaskList.EditedKeepsUnique | app.js:142 | Editing keeps ids unique. |
| TaskList.RenameFirst | app.js:209-212 | Only the first task carrying the temporary id gets the permanent id, and nothing else changes. With no such task the list is unchanged. Either way the list keeps its length and texts, and every id is the old one or the permanent one. |
| TaskList.RenameFirstToFresh | app.js:209-212 | Renaming to an id not in the list keeps ids unique and leaves no task with the old id. |
| TaskList.RenameFirstKeepsAbsent | app.js:209-212 | A rename to some other id brings no task with a given id into a list that had none. |
| TaskList.AppendFreshKeepsUnique | app.js:60-62 | Appending a task under a fresh id keeps ids unique. |
| SyncQueue.Enqueue | app.js:164-182 | An update for an id that already has a queued update replaces the first such entry at its index, so the length and every other entry are unchanged. Anything else is appended. The queue keeps at most one update per id. |
| SyncQueue.TwoUpdatesConsolidate | app.js:167-176 | Two updates for one task queued back to back leave exactly one update for it, with the later task. The queue grows by one only if it held no update for the id before. |
| SyncQueue.RenameAllToFreshKeepsConsolidated | app.js:215-219 | Renaming every entry to an id no entry carried keeps at most one update per id. |
| SyncQueue.RenameAll | app.js:215-219 | Every entry carrying the temporary id gets the permanent id, and nothing else about any entry changes. Afterwards no entry carries the temporary id. |
| Replay.QueueAfter | app.js:192-219 | After any number of iterations the queue keeps its length, and each entry differs from the original at most in its id. |
| Replay.Calls | app.js:192-231 | The requests sent so far number one per iteration, each the queued entry up to its id. |
| Replay.CallsAt | app.js:192-231 | Iteration k sends entry k as the earlier rewrites left it. |
| Replay.TasksAfter | app.js:192-212 | Rewrites keep the task list's length and texts. |
| Replay.Failures | app.js:233-238 | The positions of the calls that threw or got a non-ok answer: every such position and no other, in increasing order. |
| Replay.FailuresPrefix | app.js:235-238 | A failed iteration adds its own position at the end; a successful one adds nothing. |
| Replay.PendingIsFailedSubsequence | app.js:233-242 | The new queue is the failed subsequence: its j-th entry is the entry at the j-th failed position as the pass left it, the positions increase, and a position is among them exactly when its call failed. |
| Replay.Replay | app.js:184-249 | An empty queue makes no call and changes nothing. Otherwise every entry is sent once, in order, and the new queue is the failed entries in order, changed at most in their id. The task list keeps its length and texts. |
| Replay.NothingConfirmed | app.js:194-219 | With no confirmed create, no iteration rewrites anything and every entry is sent as queued. |
| Replay.ReplayWithoutConfirmedCreate | app.js:184-249 | With no confirmed create, the task list is untouched, the calls are the queue and the new queue is exactly the failed entries in their original order. |
| Replay.TemporaryIdGone | app.js:202-219 | Once a create is confirmed under a different id, no later iteration leaves any queue entry with the temporary id, as long as no later create is assigned that id. |
| Replay.NoStaleTemporaryId | app.js:202-219 | After a confirmed create, no later request and no entry left in the queue carries the temporary id. |
| Replay.TasksAfterIds | app.js:209-212 | Every id in the list during the pass was there before it or was assigned by an earlier confirmed create. |
| Replay.AssignedIdFresh | app.js:205-212 | With fresh ids from the server, the permanent id is not in the list when its create's iteration renames. |
| Replay.TasksAfterKeepsUnique | app.js:192-212 | With unique ids before the pass and fresh ids from the server, every iteration keeps task ids unique. |
| Replay.TemporaryIdLeavesList | app.js:209-212 | Once a create is confirmed under another id, no task carries the temporary id after any later iteration, as long as no later create is assigned that id. |
| Replay.NoTaskKeepsTemporaryId | app.js:202-242 | For a confirmed create: its iteration moves the task and every queue entry carrying the temporary id to the permanent id; after the pass no task carries the temporary id; and ids stay unique. |
| Replay.QueueAfterIds | app.js:202-219 | Every id in the queue during the pass was carried by an entry before it or was assigned by an earlier confirmed create. |
| Replay.QueueAfterKeepsConsolidated | app.js:192-219 | With assigned ids new to the queue, every iteration keeps at most one update per id. |
| Replay.SelectKeepsConsolidated | app.js:233-242 | Keeping the entries at increasing positions keeps at most one update per id. |
| Replay.ReplayKeepsConsolidated | app.js:184-242 | With at most one update per id before the pass and assigned ids new to the queue, the new queue also holds at most one update per id. |
| Replay.ReplayMayMergeUpdates | app.js:192-242 | A failed update for T, a failed update for P and a create for T confirmed as P leave two updates for P in the queue, which held one update per id before. |
| Replay.OnlyLastSucceeds | app.js:233-238 | When only the last of three calls succeeds, the first two positions are the failures. |
| Replay.StaysPermanent | app.js:202-219 | An entry that carried the temporary id of a confirmed create keeps the permanent id through every later iteration, unless a create confirmed in between was sent under the permanent id. |
| Replay.LaterRequestsUsePermanentId | app.js:192-231 | An entry queued behind a confirmed create and carrying its temporary id is sent under the permanent id, unless a create confirmed in between was sent under that id. |
| Replay.KeptIffFailed | app.js:233-238 | An entry is kept exactly when its call did not succeed: both directions. |
| Replay.FailedCallKept | app.js:196-238 | A failed call (a failed create included) rewrites nothing, and its entry is kept in the queue. |
| Replay.CreateThenUpdate | app.js:194-242 | A queued create for T and an update for T, both confirmed: the update goes out under P, the task ends as P with the edited text, and the queue empties. |
| Replay.UpdateQueuedBeforeCreate | app.js:215-242 | An update for T set aside as failed is renamed by a later confirmed create for T, so it stays queued under the permanent id. |
| Replay.PartialFailure | app.js:192-242 | Of any three queued operations, only the middle one fails: the queue keeps exactly the middle entry, under the id the rewrites give it, and the list is as the other two leave it. With no create among those two, the entry is kept as queued and the list is untouched. |
| Replay.OnlyMiddleFails | app.js:233-238 | Only the middle of three answers is a failure. |
| Replay.BuyMilkReplayed | app.js:184-242 | A single queued create confirmed as 42 renames the task to 42 and empties the queue. |
| Reconciler.Store.constructor | app.js:61 | Missing records read as empty (`getItem(...) \|\| []`). |
| Reconciler.Store.LoadTasks | app.js:24-32 | A fetched listing replaces the local list. When the fetch fails, the local copy stays. The queue is untouched. |
| Reconciler.Store.MarkTaskForSync | app.js:164-182 | The queue becomes `Enqueue` of the old queue; the task list is untouched. |
| Reconciler.Store.AddTask | app.js:53-90 | Blank input changes nothing. Otherwise the trimmed text is appended under the temporary id. A confirmed create gives it the server's id; any failure queues the create. Ids stay unique. |
| Reconciler.Store.DeleteTask | app.js:92-106 | Every task with the id is removed. A delete is queued only when the request throws. Ids stay unique. |
| Reconciler.Store.SaveEdit | app.js:132-160 | Blank text, no id (or 0) and an unknown id change nothing. Otherwise tasks with the id get the trimmed text, and a failed call queues the update under the consolidation rule. Ids stay unique. |
| Reconciler.Store.SyncPendingOperations | app.js:184-249 | The new task list, the new queue and the requests sent are those `Replay` gives for the old state and the answers. |
| Reconciler.AdoptPermanentId | app.js:205-219 | A confirmed create's step: `RenameFirst` on the list and `RenameAll` on the queue. |
| Reconciler.RewriteIds | app.js:215-219 | The `forEach` loop computes `RenameAll`. |
| Reconciler.PaddedInputTrimmed | app.js:55 | The scenario input "  buy milk " trims to "buy milk". |

## Left out

- Rendering, the display sort, the edit dialog and the status text are user interface, so they are not modelled. `renderTasks` sorts only an array whose write has already completed, and no handler writes that array again, so the stored order is always the order the handlers build.
- `fetch` and `localforage` are I/O. They are the two fields of `Store` plus the `Response` parameters, and a read or write failure of the local store is not modelled.
- JSON parsing of responses is not modelled. `response.json()` throwing on a successful create is not distinguished from other failures.
- `Date.now()` is a clock, so it is not modelled. The temporary id is a parameter that must be fresh in the task list.
- The app's handlers interleave at every `await`, which is concurrency. Each handler is one atomic step here, so stale snapshots and last-write-wins are not captured.
- `Reconciler.Store.LoadTasks`: the source stores whatever the listing request returns without checking `res.ok`, and the model reduces that to "listing or failure".
- `Reconciler.Store.AddTask`: line 74 reads `response..ok`, which does not parse. The model reads it as `response.ok`.
- `Reconciler.Store.SyncPendingOperations`: the replay needs one answer per queued entry, given in advance. A server whose answers depend on earlier calls is represented only through those given answers.
- The `online`/`offline` event wiring that triggers a replay is event plumbing, so it is not modelled.
- The server function, the service worker and the third-party records client are transport and caching glue, so they are not modelled.
