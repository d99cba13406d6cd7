# trunner work queue, modelled in Dafny

trunner is a small C library that keeps a FIFO queue of work items for a
driver thread. Each item holds a data pointer, a step function and an
optional callback. The queue is a singly-linked list of `_thrd_proc` nodes
reached through the `first` and `last` pointers of a `_proc`. Every access is
bracketed by calls to the lock and unlock functions the caller supplied.

The library has four operations:

- `trunner_create` builds an empty queue bound to a mutex handle and to the
  lock, unlock and optional free functions.
- `run_on_thread` appends a node at the tail.
- `trunner_process` makes one pass over the list under one lock/unlock pair.
  It calls every node's step function. When a step returns 0, the node's
  callback runs (if it has one) and the node is unlinked and freed; any other
  result keeps the node where it is. The pass returns 0 when the list was
  empty on entry and 1 otherwise.
- `trunner_destroy` frees every node without calling anything, unlocks, and
  then calls the free function on the mutex if one was given.

The model has three modules.

- `TrunnerModel` (`trunner_model.dfy`) is the value-level specification.
  - `Keep`/`Finished` say which items a pass keeps and which it finishes,
    given the step results.
  - `ItemEvents`, `PassEvents`, `DrainEvents`, `SubmitEvents`,
    `ProcessEvents` and `DestroyEvents` list the external calls each
    operation makes, in order.
  - `Trail` projects those calls by kind.
  - `LockStep`/`Replay`/`Disciplined` define lock discipline: lock only when
    free, unlock only when held, step/callback/free only while held, free the
    mutex only when not held.
- `Trunner` (`trunner.dfy`) is the imperative model.
  - `Node` is `_thrd_proc` and `Queue` is `_proc`.
  - Each operation is a method that rewrites `first`, `last` and the `next`
    fields in place, over a ghost `spine` (the reachable nodes in order), a
    ghost `Repr` (the live objects; a freed node leaves it) and a ghost
    `trace` of every lock, unlock, step, callback, node-free and mutex-free
    call.
  - The pass of `trunner_process` is the loop `Sweep`, whose body is `Visit`
    and whose unlinking step is `Unlink`.
  - The step results are an oracle parameter `outcomes`: one `int` per node,
    in list order.
- `Scenarios` (`scenarios.dfy`) holds concrete runs that exhibit the stale
  `last` pointer described under Findings, and its repair.

The header comment of `trunner_process` (trunner.h:34) says it "processes all
queued data". The code makes exactly one pass and leaves every node whose
step returned nonzero in the queue. The model follows the code.

## Model

| member | source | states |
|---|---|---|
| Trunner.Node.constructor | trunner.c:50-54 | a new node carries the given data, step function and callback, and its `next` is null |
| Trunner.Items | trunner.c:19-24 | the item list of a node sequence has one entry per node, in order, each holding that node's data, step function and callback |
| Trunner.Queue.Unique | trunner.c:19-24 | in a null-terminated list reached through `next`, no node occurs twice |
| Trunner.Queue.TailIsNew | trunner.c:57-63 | the final node of the list occurs nowhere earlier in it |
| Trunner.Queue.constructor | trunner.c:104-113 | trunner_create: the queue is empty (`first` and `last` null), stores exactly the given mutex and lock, unlock and free functions, has made no calls, and satisfies the list invariant and the `last` invariant |
| Trunner.Queue.RunOnThread | trunner.c:48-65 | run_on_thread appends. The contents become the old contents plus the new item, and no existing node changes. On an empty list `first` and `last` both become the new node; otherwise the node is linked after the old `last` and becomes `last`. Its `next` is null. Exactly one lock then one unlock is recorded, and both invariants are kept |
| Trunner.Queue.Unlink | trunner.c:85-92 | bypassing node `p` through `first` (when `p` is first) or through its predecessor's `next` removes exactly `p` from the list and from the live objects. Every other node keeps its order, and `last` is not touched |
| Trunner.Queue.Visit | trunner.c:79-96 | one round of the loop. The step is called. On 0 the callback is called if set, then the node is unlinked and freed; otherwise it is kept and becomes the cursor `l`. Returns the successor of the node |
| Trunner.Queue.Sweep | trunner.c:77-97 | the loop of trunner_process. The list becomes the entry list filtered to the nodes whose step returned nonzero, in their order. The calls made are exactly `PassEvents` of the entry items. The cursor ends on the last kept node (or null), and `last` is not touched |
| Trunner.Queue.Process | trunner.c:67-102 | trunner_process as written. Returns 0 exactly when the list was empty on entry (and then calls no step and leaves the list as it was), 1 otherwise. The contents become `Keep` of the old contents. The trace grows by exactly one lock, the pass's calls, and one unlock. `last` is never updated, so a valid `last` stays valid if and only if the list ends empty or the old final node's step returned nonzero |
| Trunner.Queue.ProcessKeepingTail | trunner.c:67-102 | trunner_process with `last` set to the last kept node. It has the same result, contents and calls as `Process`, and the `last` invariant always holds afterwards |
| Trunner.Queue.RecordPass | trunner.c:99-100 | the close of a pass: the trace grows by the bracketed pass, the list is unchanged, and the history stays disciplined |
| Trunner.Queue.Destroy | trunner.c:115-135 | trunner_destroy. The trace grows by one lock, one free per node in list order, one unlock, then the free function on the mutex once if it is set. The history stays disciplined, and the queue ends owning nothing |
| Trunner.ItemsKeep | trunner.c:77-97 | filtering the nodes and then reading their items equals reading the items and then filtering them |
| TrunnerModel.KeepFinishedPartition | trunner.c:79-96 | every entry of a pass is either kept or finished, never both and never lost: the two multisets add up to the entry multiset |
| TrunnerModel.KeptIndicesExact | trunner.c:93-96 | the kept positions are strictly increasing and are exactly the positions whose step returned nonzero |
| TrunnerModel.KeepSelectsInOrder | trunner.c:77-97 | the kept list is, one for one and in order, the entries at the kept positions: the relative order is preserved |
| TrunnerModel.KeepAllPending | trunner.c:93-96 | when every step returns nonzero the pass keeps the list unchanged |
| TrunnerModel.KeepKeepsTail | trunner.c:85-96 | for a list whose final entry occurs once, the last kept entry is the old final entry if and only if that entry's step returned nonzero |
| TrunnerModel.DrainEvents | trunner.c:120-125 | teardown makes one free call per item, in list order, and nothing else |
| TrunnerModel.PassStepsInOrder | trunner.c:79-80 | in one pass every entry's step is called exactly once, in FIFO order |
| TrunnerModel.PassFreesFinished | trunner.c:85-92 | in one pass exactly the finished entries are freed, in order |
| TrunnerModel.PassCallbacksFinished | trunner.c:80-83 | in one pass the callback is called exactly for the finished entries that have one, in order, and never for a pending entry |
| TrunnerModel.CallbackBetweenStepAndFree | trunner.c:80-92 | every callback call directly follows the step call of the same item and directly precedes that item's free |
| TrunnerModel.DrainCalls | trunner.c:120-125 | the teardown loop calls no step and no callback, and frees every item in order |
| TrunnerModel.DestroyCalls | trunner.c:118-130 | trunner_destroy as a whole calls no step and no callback, and frees every item in order |
| TrunnerModel.SubmitKeepsDiscipline | trunner.c:56-64 | run_on_thread's lock/unlock pair keeps a disciplined history disciplined |
| TrunnerModel.ProcessKeepsDiscipline | trunner.c:70-100 | a pass, on the empty path or the full one, keeps the history disciplined: every step, callback and free happens while the lock is held, and the lock is released at the end |
| TrunnerModel.ProcessLocksOnce | trunner.c:70-100 | a pass's first call is the lock and its last call is the unlock, and every call in between is a step, callback or free |
| TrunnerModel.DestroyLocksOnce | trunner.c:118-130 | teardown is one lock, the frees in list order, one unlock, then the mutex free exactly once when the free function is set and never otherwise |
| TrunnerModel.DestroyKeepsDiscipline | trunner.c:118-130 | teardown keeps the history disciplined: the frees happen under the lock, and the mutex is freed only after the unlock |
| Scenarios.SubmitThree | trunner.c:48-65 | three submissions to a new queue give a three-node list whose `last` is the third node |
| Scenarios.StaleTailAfterMixedPass | trunner.c:85-92 | after a pass with step results 0, nonzero, 0 over three nodes, the list holds only the middle item, but `last` still names the freed third node |
| Scenarios.TailKeptAfterMixedPass | trunner.c:57-63 | with `last` kept right, the same pass followed by a submission leaves the middle item and then the new item |

## Left out

- Real mutex semantics and concurrency are not modelled. The lock, unlock and free functions are opaque addresses, and each call to them is an event in the ghost trace. Deadlock, and a step or callback that re-enters the queue, are not modelled.
- What step functions and callbacks compute is not modelled. A pass takes the step results as the parameter `outcomes`, one `int` per node in list order; only zero versus nonzero matters, so C's `int` width is not modelled. Callback results are ignored, as in the C code.
- Pointers are natural numbers (`Addr`, `FnAddr`). A null step, lock or unlock function (calling it is undefined) is not modelled; a null callback or free function is `None`.
- `malloc` failure is not modelled (the C code does not check for it).
- The `memset` and `free` of the `_proc` in trunner_destroy are modelled as clearing `first`, `last` and the ghost state; the stored handles stay, since they are constants. Use of a queue after trunner_destroy is not modelled.
- Trunner.Queue.RunOnThread: requires that `last` names the final node whenever the list is non-empty, the invariant the C code relies on. Appending through a stale, freed `last` (undefined behaviour in C) is not modelled; Findings shows how the invariant can be lost.
- Trunner.Queue.Process: requires one step result per node (`|outcomes| == |spine|`); this is the shape of the oracle, not a demand of the C code.
- The unused `stdio.h` and `string.h` includes are not modelled.

## Findings

| source | as written | input that shows it | evidently intended | confidence | as-written member | corrected member |
|---|---|---|---|---|---|---|
| trunner.c:85-92 | the removal branch of trunner_process updates `prc->first` or `l->next` but never `prc->last` | three submitted nodes A, B, C, then one pass whose steps return 0, 1, 0: the list becomes [B] while `last` still points at the freed C, so the next run_on_thread writes through `last->next` into freed memory and its node is unreachable | after the pass `last` is the last kept node `l` (null when none is kept), so that run_on_thread appends after B | high; not executed | Scenarios.StaleTailAfterMixedPass | Trunner.Queue.ProcessKeepingTail |
