/**
 * Value-level specification of the trunner work queue.
 *
 * A queue holds work items in FIFO order. One processing pass calls each
 * item's step function once; an item whose step returns 0 is finished (its
 * callback, if any, runs and its node is freed), any other result leaves the
 * item queued. The functions here say what a pass keeps, which external calls
 * each operation makes and in which order, and what lock discipline those
 * calls follow. The in-place linked list in module Trunner is proved against
 * them.
 */
module TrunnerModel {

  datatype Option<+T> = None | Some(value: T)

  /** An opaque C data or mutex pointer; the queue only carries it around. */
  type Addr = nat

  /** The address of a C function; what the function computes is not modelled. */
  type FnAddr = nat

  /** What one queued node holds: the data pointer, the step function and an optional callback. */
  datatype WorkItem = WorkItem(data: Addr, step: FnAddr, callback: Option<FnAddr>)

  /** The mutex handle and the three functions given when the queue is created. */
  datatype LockOps = LockOps(mutex: Addr, lockfn: FnAddr, unlockfn: FnAddr, freefn: Option<FnAddr>)

  /** The calls the queue makes on behalf of one work item. */
  datatype Call = Step | Callback | FreeNode

  /** One externally visible call made by a queue operation. */
  datatype Event =
    | Lock(fn: FnAddr, mutex: Addr)
    | Unlock(fn: FnAddr, mutex: Addr)
    | ItemCall(call: Call, item: WorkItem)
    | FreeLock(fn: FnAddr, mutex: Addr)

  // ---------------------------------------------------------------------
  // Which items one pass keeps

  /** The entries of `xs` whose step result is nonzero (still pending), in their order. */
  function Keep<T>(xs: seq<T>, outcomes: seq<int>): seq<T>
    requires |outcomes| == |xs|
  {
    if xs == [] then []
    else
      var n := |xs| - 1;
      Keep(xs[..n], outcomes[..n]) + (if outcomes[n] != 0 then [xs[n]] else [])
  }

  /** The entries of `xs` whose step result is 0 (finished), in their order. */
  function Finished<T>(xs: seq<T>, outcomes: seq<int>): seq<T>
    requires |outcomes| == |xs|
  {
    if xs == [] then []
    else
      var n := |xs| - 1;
      Finished(xs[..n], outcomes[..n]) + (if outcomes[n] == 0 then [xs[n]] else [])
  }

  /** The positions whose step result is nonzero, in increasing order. */
  function KeptIndices(outcomes: seq<int>): seq<nat>
  {
    if outcomes == [] then []
    else
      var n := |outcomes| - 1;
      KeptIndices(outcomes[..n]) + (if outcomes[n] != 0 then [n] else [])
  }

  /** The items that have a callback. */
  function WithCallback(items: seq<WorkItem>): seq<WorkItem>
  {
    if items == [] then []
    else
      var n := |items| - 1;
      WithCallback(items[..n]) + (if items[n].callback.Some? then [items[n]] else [])
  }

  /** A non-empty list is its front followed by its last entry. */
  lemma Snoc<T>(xs: seq<T>)
    requires xs != []
    ensures xs[..|xs| - 1] + [xs[|xs| - 1]] == xs
  {
  }

  /**
   * The entries of `xs` from position `i` on, built one position at a time,
   * so that a loop over the positions unfolds it one step per round.
   */
  function From<T>(xs: seq<T>, i: nat): (r: seq<T>)
    requires i <= |xs|
    ensures |r| == |xs| - i
    decreases |xs| - i
  {
    if i == |xs| then [] else [xs[i]] + From(xs, i + 1)
  }

  lemma {:induction false} FromIsSuffix<T>(xs: seq<T>, i: nat)
    requires i <= |xs|
    ensures From(xs, i) == xs[i..]
    decreases |xs| - i
  {
    if i < |xs| {
      FromIsSuffix(xs, i + 1);
      assert xs[i..] == [xs[i]] + xs[i + 1..];
    }
  }

  /** From position 0, `From` is the whole list. */
  lemma FromStart<T>(xs: seq<T>)
    ensures [] + From(xs, 0) == xs
  {
    FromIsSuffix(xs, 0);
    assert [] + xs == xs;
  }

  /**
   * `Keep` of the first `i` entries, built position by position as a loop
   * over the list builds it (`KeepPrefix` shows it is `Keep(xs[..i], outcomes[..i])`).
   */
  function KeepUpTo<T>(xs: seq<T>, outcomes: seq<int>, i: nat): seq<T>
    requires |outcomes| == |xs| && i <= |xs|
  {
    if i == 0 then []
    else if outcomes[i - 1] != 0 then KeepUpTo(xs, outcomes, i - 1) + [xs[i - 1]]
    else KeepUpTo(xs, outcomes, i - 1)
  }

  lemma {:induction false} KeepPrefix<T>(xs: seq<T>, outcomes: seq<int>, i: nat)
    requires |outcomes| == |xs| && i <= |xs|
    ensures KeepUpTo(xs, outcomes, i) == Keep(xs[..i], outcomes[..i])
  {
    if i > 0 {
      KeepPrefix(xs, outcomes, i - 1);
      assert xs[..i][..i - 1] == xs[..i - 1] && outcomes[..i][..i - 1] == outcomes[..i - 1];
      var k := KeepUpTo(xs, outcomes, i - 1);
      assert k + [] == k;
    }
  }

  /** The loop's running filter, once it has seen every entry, is the whole pass. */
  lemma KeepWhole<T>(xs: seq<T>, outcomes: seq<int>)
    requires |outcomes| == |xs|
    ensures KeepUpTo(xs, outcomes, |xs|) == Keep(xs, outcomes)
  {
    KeepPrefix(xs, outcomes, |xs|);
    assert xs[..|xs|] == xs && outcomes[..|xs|] == outcomes;
  }

  /** A pass neither loses nor duplicates an entry: every entry is kept or finished. */
  lemma {:induction false} KeepFinishedPartition<T>(xs: seq<T>, outcomes: seq<int>)
    requires |outcomes| == |xs|
    ensures multiset(Keep(xs, outcomes)) + multiset(Finished(xs, outcomes)) == multiset(xs)
  {
    if xs != [] {
      var n := |xs| - 1;
      KeepFinishedPartition(xs[..n], outcomes[..n]);
      Snoc(xs);
    }
  }

  /** The kept positions are increasing and are exactly the positions whose step result is nonzero. */
  lemma {:induction false} KeptIndicesExact(outcomes: seq<int>)
    ensures var ks := KeptIndices(outcomes);
            && (forall a, b :: 0 <= a < b < |ks| ==> ks[a] < ks[b])
            && (forall k :: 0 <= k < |ks| ==> ks[k] < |outcomes| && outcomes[ks[k]] != 0)
            && (forall i :: 0 <= i < |outcomes| && outcomes[i] != 0 ==> i in ks)
  {
    if outcomes != [] {
      var n := |outcomes| - 1;
      var pre := outcomes[..n];
      KeptIndicesExact(pre);
      var ks0 := KeptIndices(pre);
      var ks := KeptIndices(outcomes);
      assert forall k :: 0 <= k < |ks0| ==> ks0[k] < n && outcomes[ks0[k]] == pre[ks0[k]];
      forall i | 0 <= i < |outcomes| && outcomes[i] != 0
        ensures i in ks
      {
        if i < n {
          assert pre[i] == outcomes[i];
          assert i in ks0;
        }
      }
    }
  }

  /** The kept entries are, one for one and in order, the entries at the kept positions. */
  lemma {:induction false} KeepSelectsInOrder<T>(xs: seq<T>, outcomes: seq<int>)
    requires |outcomes| == |xs|
    ensures var r, ks := Keep(xs, outcomes), KeptIndices(outcomes);
            && |r| == |ks|
            && (forall k :: 0 <= k < |ks| ==> ks[k] < |xs| && r[k] == xs[ks[k]])
  {
    if xs != [] {
      var n := |xs| - 1;
      KeepSelectsInOrder(xs[..n], outcomes[..n]);
      KeptIndicesExact(outcomes[..n]);
      var r0, ks0 := Keep(xs[..n], outcomes[..n]), KeptIndices(outcomes[..n]);
      assert forall k :: 0 <= k < |ks0| ==> ks0[k] < n && r0[k] == xs[ks0[k]];
    }
  }

  /** An item whose step keeps returning nonzero is never dropped. */
  lemma {:induction false} KeepAllPending<T>(xs: seq<T>, outcomes: seq<int>)
    requires |outcomes| == |xs|
    requires forall i :: 0 <= i < |outcomes| ==> outcomes[i] != 0
    ensures Keep(xs, outcomes) == xs
  {
    if xs != [] {
      var n := |xs| - 1;
      KeepAllPending(xs[..n], outcomes[..n]);
      Snoc(xs);
    }
  }

  /**
   * When the last entry occurs nowhere earlier (as with list nodes), the last
   * kept entry is the old last entry exactly when the old last entry stays
   * pending.
   */
  lemma KeepKeepsTail<T>(xs: seq<T>, outcomes: seq<int>)
    requires |outcomes| == |xs| && xs != [] && xs[|xs| - 1] !in xs[..|xs| - 1]
    ensures var r := Keep(xs, outcomes);
            (r != [] && r[|r| - 1] == xs[|xs| - 1]) <==> outcomes[|xs| - 1] != 0
  {
    var n := |xs| - 1;
    var r0 := Keep(xs[..n], outcomes[..n]);
    if outcomes[n] == 0 && r0 != [] {
      KeepFinishedPartition(xs[..n], outcomes[..n]);
      assert r0[|r0| - 1] in multiset(xs[..n]);
      assert r0[|r0| - 1] in xs[..n];
    }
  }

  // ---------------------------------------------------------------------
  // The calls each operation makes

  /** The calls made for one item during a pass, given its step result. */
  function ItemEvents(it: WorkItem, r: int): seq<Event>
  {
    if r != 0 then [ItemCall(Step, it)]
    else [ItemCall(Step, it)] + (if it.callback.Some? then [ItemCall(Callback, it)] else []) + [ItemCall(FreeNode, it)]
  }

  /** The calls made by one pass over `items`, in list order. */
  function PassEvents(items: seq<WorkItem>, outcomes: seq<int>): seq<Event>
    requires |outcomes| == |items|
  {
    if items == [] then []
    else
      var n := |items| - 1;
      PassEvents(items[..n], outcomes[..n]) + ItemEvents(items[n], outcomes[n])
  }

  /** The node frees made when the queue is torn down. */
  function DrainEvents(items: seq<WorkItem>): (r: seq<Event>)
    ensures |r| == |items| && forall k :: 0 <= k < |items| ==> r[k] == ItemCall(FreeNode, items[k])
  {
    if items == [] then []
    else
      var n := |items| - 1;
      DrainEvents(items[..n]) + [ItemCall(FreeNode, items[n])]
  }

  function Bracket(ops: LockOps, body: seq<Event>): seq<Event>
  {
    [Lock(ops.lockfn, ops.mutex)] + body + [Unlock(ops.unlockfn, ops.mutex)]
  }

  function SubmitEvents(ops: LockOps): seq<Event>
  {
    Bracket(ops, [])
  }

  function ProcessEvents(ops: LockOps, items: seq<WorkItem>, outcomes: seq<int>): seq<Event>
    requires |outcomes| == |items|
  {
    Bracket(ops, PassEvents(items, outcomes))
  }

  function DestroyEvents(ops: LockOps, items: seq<WorkItem>): seq<Event>
  {
    Bracket(ops, DrainEvents(items))
    + match ops.freefn
      case Some(f) => [FreeLock(f, ops.mutex)]
      case None => []
  }

  /** The items of the calls of kind `c` in `evs`, in order. */
  function Trail(evs: seq<Event>, c: Call): seq<WorkItem>
  {
    if evs == [] then []
    else (if evs[0].ItemCall? && evs[0].call == c then [evs[0].item] else []) + Trail(evs[1..], c)
  }

  lemma {:induction false} TrailAppend(a: seq<Event>, b: seq<Event>, c: Call)
    ensures Trail(a + b, c) == Trail(a, c) + Trail(b, c)
  {
    if a == [] {
      assert a + b == b;
    } else {
      assert (a + b)[1..] == a[1..] + b;
      TrailAppend(a[1..], b, c);
    }
  }

  lemma TrailSingle(e: Event, c: Call)
    ensures Trail([e], c) == if e.ItemCall? && e.call == c then [e.item] else []
  {
    assert [e][1..] == [];
  }

  lemma ItemEventsTrail(it: WorkItem, r: int)
    ensures Trail(ItemEvents(it, r), Step) == [it]
    ensures Trail(ItemEvents(it, r), FreeNode) == if r == 0 then [it] else []
    ensures Trail(ItemEvents(it, r), Callback) == if r == 0 && it.callback.Some? then [it] else []
  {
    var step, cb, free := ItemCall(Step, it), ItemCall(Callback, it), ItemCall(FreeNode, it);
    forall c: Call
      ensures Trail(ItemEvents(it, r), c)
              == Trail([step], c)
                 + (if r == 0 && it.callback.Some? then Trail([cb], c) else [])
                 + (if r == 0 then Trail([free], c) else [])
    {
      if r != 0 {
        assert ItemEvents(it, r) == [step];
      } else if it.callback.Some? {
        assert ItemEvents(it, r) == [step] + [cb] + [free];
        TrailAppend([step], [cb], c);
        TrailAppend([step] + [cb], [free], c);
      } else {
        assert ItemEvents(it, r) == [step] + [free];
        TrailAppend([step], [free], c);
      }
    }
    TrailSingle(step, Step); TrailSingle(cb, Step); TrailSingle(free, Step);
    TrailSingle(step, Callback); TrailSingle(cb, Callback); TrailSingle(free, Callback);
    TrailSingle(step, FreeNode); TrailSingle(cb, FreeNode); TrailSingle(free, FreeNode);
  }

  /** In one pass every item's step is called exactly once, in FIFO order. */
  lemma {:induction false} PassStepsInOrder(items: seq<WorkItem>, outcomes: seq<int>)
    requires |outcomes| == |items|
    ensures Trail(PassEvents(items, outcomes), Step) == items
  {
    if items != [] {
      var n := |items| - 1;
      PassStepsInOrder(items[..n], outcomes[..n]);
      TrailAppend(PassEvents(items[..n], outcomes[..n]), ItemEvents(items[n], outcomes[n]), Step);
      ItemEventsTrail(items[n], outcomes[n]);
      Snoc(items);
    }
  }

  /** In one pass exactly the finished items are freed, in order. */
  lemma {:induction false} PassFreesFinished(items: seq<WorkItem>, outcomes: seq<int>)
    requires |outcomes| == |items|
    ensures Trail(PassEvents(items, outcomes), FreeNode) == Finished(items, outcomes)
  {
    if items != [] {
      var n := |items| - 1;
      PassFreesFinished(items[..n], outcomes[..n]);
      TrailAppend(PassEvents(items[..n], outcomes[..n]), ItemEvents(items[n], outcomes[n]), FreeNode);
      ItemEventsTrail(items[n], outcomes[n]);
    }
  }

  lemma WithCallbackSnoc(items: seq<WorkItem>, it: WorkItem)
    ensures WithCallback(items + [it]) == WithCallback(items) + (if it.callback.Some? then [it] else [])
  {
    assert (items + [it])[..|items|] == items;
  }

  /** `PassEvents` of the first `i` items, built position by position as the pass builds it. */
  function PassUpTo(items: seq<WorkItem>, outcomes: seq<int>, i: nat): seq<Event>
    requires |outcomes| == |items| && i <= |items|
  {
    if i == 0 then [] else PassUpTo(items, outcomes, i - 1) + ItemEvents(items[i - 1], outcomes[i - 1])
  }

  lemma {:induction false} PassPrefix(items: seq<WorkItem>, outcomes: seq<int>, i: nat)
    requires |outcomes| == |items| && i <= |items|
    ensures PassUpTo(items, outcomes, i) == PassEvents(items[..i], outcomes[..i])
  {
    if i > 0 {
      PassPrefix(items, outcomes, i - 1);
      assert items[..i][..i - 1] == items[..i - 1] && outcomes[..i][..i - 1] == outcomes[..i - 1];
    }
  }

  /** The loop's running record, once it has seen every entry, is the whole pass. */
  lemma PassWhole(items: seq<WorkItem>, outcomes: seq<int>)
    requires |outcomes| == |items|
    ensures PassUpTo(items, outcomes, |items|) == PassEvents(items, outcomes)
  {
    PassPrefix(items, outcomes, |items|);
    assert items[..|items|] == items && outcomes[..|items|] == outcomes;
  }

  /**
   * In one pass the callback is called exactly for the finished items that
   * have one, in order; it is never called for an item that stays pending.
   */
  lemma {:induction false} PassCallbacksFinished(items: seq<WorkItem>, outcomes: seq<int>)
    requires |outcomes| == |items|
    ensures Trail(PassEvents(items, outcomes), Callback) == WithCallback(Finished(items, outcomes))
  {
    if items != [] {
      var n := |items| - 1;
      PassCallbacksFinished(items[..n], outcomes[..n]);
      TrailAppend(PassEvents(items[..n], outcomes[..n]), ItemEvents(items[n], outcomes[n]), Callback);
      ItemEventsTrail(items[n], outcomes[n]);
      var fin := Finished(items[..n], outcomes[..n]);
      if outcomes[n] == 0 {
        WithCallbackSnoc(fin, items[n]);
      } else {
        assert Finished(items, outcomes) == fin;
      }
    }
  }

  /** Each callback call in `evs` directly follows its item's step call and directly precedes its free. */
  predicate CallbacksFramed(evs: seq<Event>)
  {
    forall k :: 0 <= k < |evs| && evs[k].ItemCall? && evs[k].call == Callback ==>
      && 0 < k < |evs| - 1
      && evs[k - 1] == ItemCall(Step, evs[k].item)
      && evs[k + 1] == ItemCall(FreeNode, evs[k].item)
  }

  /**
   * Every callback call of a pass comes right after the step call of the same
   * item and right before that item is freed.
   */
  lemma {:induction false} CallbackBetweenStepAndFree(items: seq<WorkItem>, outcomes: seq<int>)
    requires |outcomes| == |items|
    ensures CallbacksFramed(PassEvents(items, outcomes))
  {
    if items != [] {
      var n := |items| - 1;
      CallbackBetweenStepAndFree(items[..n], outcomes[..n]);
      var pre, cur := PassEvents(items[..n], outcomes[..n]), ItemEvents(items[n], outcomes[n]);
      var evs := pre + cur;
      assert evs == PassEvents(items, outcomes);
      forall k | 0 <= k < |evs| && evs[k].ItemCall? && evs[k].call == Callback
        ensures 0 < k < |evs| - 1
        ensures evs[k - 1] == ItemCall(Step, evs[k].item) && evs[k + 1] == ItemCall(FreeNode, evs[k].item)
      {
        if k < |pre| {
          assert evs[k] == pre[k];
          assert pre[k].ItemCall? && pre[k].call == Callback;
          assert 0 < k < |pre| - 1;
          assert evs[k - 1] == pre[k - 1] && evs[k + 1] == pre[k + 1];
        } else {
          assert evs[k] == cur[k - |pre|];
        }
      }
    }
  }

  /** Teardown frees every node, in order, and calls no step and no callback. */
  lemma {:induction false} DestroyCalls(ops: LockOps, items: seq<WorkItem>)
    ensures var evs := DestroyEvents(ops, items);
            && Trail(evs, Step) == []
            && Trail(evs, Callback) == []
            && Trail(evs, FreeNode) == items
  {
    DrainCalls(items);
    var lock, unlock := [Lock(ops.lockfn, ops.mutex)], [Unlock(ops.unlockfn, ops.mutex)];
    var tail := match ops.freefn case Some(f) => [FreeLock(f, ops.mutex)] case None => [];
    var drain := DrainEvents(items);
    assert DestroyEvents(ops, items) == lock + drain + unlock + tail;
    TrailAppend(lock, drain, Step);
    TrailAppend(lock + drain, unlock, Step);
    TrailAppend(lock + drain + unlock, tail, Step);
    TrailAppend(lock, drain, Callback);
    TrailAppend(lock + drain, unlock, Callback);
    TrailAppend(lock + drain + unlock, tail, Callback);
    TrailAppend(lock, drain, FreeNode);
    TrailAppend(lock + drain, unlock, FreeNode);
    TrailAppend(lock + drain + unlock, tail, FreeNode);
  }

  lemma {:induction false} DrainCalls(items: seq<WorkItem>)
    ensures Trail(DrainEvents(items), Step) == []
    ensures Trail(DrainEvents(items), Callback) == []
    ensures Trail(DrainEvents(items), FreeNode) == items
    ensures forall k :: 0 <= k < |DrainEvents(items)| ==> DrainEvents(items)[k].ItemCall?
  {
    if items != [] {
      var n := |items| - 1;
      DrainCalls(items[..n]);
      var front, last := DrainEvents(items[..n]), [ItemCall(FreeNode, items[n])];
      TrailAppend(front, last, Step);
      TrailAppend(front, last, Callback);
      TrailAppend(front, last, FreeNode);
      Snoc(items);
    }
  }

  // ---------------------------------------------------------------------
  // Lock discipline

  /**
   * The lock state after one event, starting from `held`, or None when the
   * event breaks the discipline: lock only when free and unlock only when
   * held (each through the queue's own function and mutex), touch items only
   * while held, and free the mutex only while it is not held.
   */
  function LockStep(ops: LockOps, held: bool, e: Event): Option<bool>
  {
    match e
    case Lock(f, m) => if !held && f == ops.lockfn && m == ops.mutex then Some(true) else None
    case Unlock(f, m) => if held && f == ops.unlockfn && m == ops.mutex then Some(false) else None
    case ItemCall(_, _) => if held then Some(true) else None
    case FreeLock(f, m) => if !held && ops.freefn == Some(f) && m == ops.mutex then Some(false) else None
  }

  function Replay(ops: LockOps, evs: seq<Event>, held: bool): Option<bool>
  {
    if evs == [] then Some(held)
    else
      match LockStep(ops, held, evs[0])
      case None => None
      case Some(h) => Replay(ops, evs[1..], h)
  }

  /** Every call in `evs` respects the lock, and the lock is free at the end. */
  predicate Disciplined(ops: LockOps, evs: seq<Event>)
  {
    Replay(ops, evs, false) == Some(false)
  }

  lemma {:induction false} ReplayAppend(ops: LockOps, a: seq<Event>, b: seq<Event>, held: bool)
    ensures Replay(ops, a + b, held)
            == match Replay(ops, a, held) case None => None case Some(h) => Replay(ops, b, h)
  {
    if a == [] {
      assert a + b == b;
    } else {
      assert (a + b)[1..] == a[1..] + b;
      match LockStep(ops, held, a[0])
      case None =>
      case Some(h) => ReplayAppend(ops, a[1..], b, h);
    }
  }

  lemma {:induction false} ItemCallsWhileHeld(ops: LockOps, evs: seq<Event>)
    requires forall k :: 0 <= k < |evs| ==> evs[k].ItemCall?
    ensures Replay(ops, evs, true) == Some(true)
  {
    if evs != [] {
      assert evs[0].ItemCall?;
      ItemCallsWhileHeld(ops, evs[1..]);
    }
  }

  lemma {:induction false} PassEventsAreItemCalls(items: seq<WorkItem>, outcomes: seq<int>)
    requires |outcomes| == |items|
    ensures forall k :: 0 <= k < |PassEvents(items, outcomes)| ==> PassEvents(items, outcomes)[k].ItemCall?
  {
    if items != [] {
      var n := |items| - 1;
      PassEventsAreItemCalls(items[..n], outcomes[..n]);
    }
  }

  /** A bracketed body of item calls leaves a disciplined history disciplined. */
  lemma BracketKeepsDiscipline(ops: LockOps, trace: seq<Event>, body: seq<Event>)
    requires Disciplined(ops, trace)
    requires forall k :: 0 <= k < |body| ==> body[k].ItemCall?
    ensures Disciplined(ops, trace + Bracket(ops, body))
  {
    var lock, unlock := [Lock(ops.lockfn, ops.mutex)], [Unlock(ops.unlockfn, ops.mutex)];
    ItemCallsWhileHeld(ops, body);
    ReplayAppend(ops, lock, body, false);
    ReplayAppend(ops, lock + body, unlock, false);
    ReplayAppend(ops, trace, lock + body + unlock, false);
    assert trace + Bracket(ops, body) == trace + (lock + body + unlock);
  }

  /** run_on_thread keeps the history disciplined: one lock, then one unlock. */
  lemma SubmitKeepsDiscipline(ops: LockOps, trace: seq<Event>)
    requires Disciplined(ops, trace)
    ensures Disciplined(ops, trace + SubmitEvents(ops))
  {
    BracketKeepsDiscipline(ops, trace, []);
  }

  /** trunner_process keeps the history disciplined: every step, callback and free happens under one lock/unlock pair. */
  lemma ProcessKeepsDiscipline(ops: LockOps, trace: seq<Event>, items: seq<WorkItem>, outcomes: seq<int>)
    requires Disciplined(ops, trace) && |outcomes| == |items|
    ensures Disciplined(ops, trace + ProcessEvents(ops, items, outcomes))
  {
    PassEventsAreItemCalls(items, outcomes);
    BracketKeepsDiscipline(ops, trace, PassEvents(items, outcomes));
  }

  /**
   * One pass takes the lock exactly once, as its first call, and releases it
   * exactly once, as its last; every call in between is a step, a callback
   * or a free.
   */
  lemma ProcessLocksOnce(ops: LockOps, items: seq<WorkItem>, outcomes: seq<int>)
    requires |outcomes| == |items|
    ensures var evs := ProcessEvents(ops, items, outcomes);
            && evs[0] == Lock(ops.lockfn, ops.mutex)
            && evs[|evs| - 1] == Unlock(ops.unlockfn, ops.mutex)
            && forall k :: 0 < k < |evs| - 1 ==> evs[k].ItemCall?
  {
    var body := PassEvents(items, outcomes);
    PassEventsAreItemCalls(items, outcomes);
    assert forall k :: 0 < k < |body| + 1 ==> Bracket(ops, body)[k] == body[k - 1];
  }

  /**
   * Teardown takes the lock once, first; frees the items one by one in list
   * order; releases the lock once; and then makes at most the one freefn call.
   */
  lemma DestroyLocksOnce(ops: LockOps, items: seq<WorkItem>)
    ensures var evs, u := DestroyEvents(ops, items), |items| + 1;
            && |evs| == u + (if ops.freefn.Some? then 2 else 1)
            && evs[0] == Lock(ops.lockfn, ops.mutex)
            && evs[u] == Unlock(ops.unlockfn, ops.mutex)
            && (forall k :: 0 < k < u ==> evs[k] == ItemCall(FreeNode, items[k - 1]))
            && (ops.freefn.Some? ==> evs[u + 1] == FreeLock(ops.freefn.value, ops.mutex))
  {
  }

  /** trunner_destroy keeps the history disciplined: the frees happen under the lock and freefn after the unlock. */
  lemma DestroyKeepsDiscipline(ops: LockOps, trace: seq<Event>, items: seq<WorkItem>)
    requires Disciplined(ops, trace)
    ensures Disciplined(ops, trace + DestroyEvents(ops, items))
  {
    DrainCalls(items);
    var drain := DrainEvents(items);
    BracketKeepsDiscipline(ops, trace, drain);
    var tail := match ops.freefn case Some(f) => [FreeLock(f, ops.mutex)] case None => [];
    ReplayAppend(ops, trace + Bracket(ops, drain), tail, false);
    assert trace + DestroyEvents(ops, items) == trace + Bracket(ops, drain) + tail;
  }
}
