/**
 * The trunner queue as the C code keeps it: a singly-linked list of nodes
 * with `first` and `last` pointers, changed in place under a caller-supplied
 * lock. The ghost `spine` lists the reachable nodes in order, `Repr` is the
 * set of live objects (a freed node leaves it), and `trace` records every
 * call the queue makes to the lock functions, the step functions and the
 * callbacks, plus every node it frees.
 */
module Trunner {
  import opened TrunnerModel

  /** One queued work item (`struct _thrd_proc`). */
  class Node {
    const data: Addr
    const fnptr: FnAddr
    const callback: Option<FnAddr>
    var next: Node?

    constructor (data: Addr, fnptr: FnAddr, callback: Option<FnAddr>)
      ensures this.data == data && this.fnptr == fnptr && this.callback == callback
      ensures next == null
    {
      this.data := data;
      this.fnptr := fnptr;
      this.callback := callback;
      next := null;
    }

    function Item(): WorkItem
    {
      WorkItem(data, fnptr, callback)
    }
  }

  /** The work items held by the nodes `ns`, in order. */
  function Items(ns: seq<Node>): (r: seq<WorkItem>)
    ensures |r| == |ns| && forall k :: 0 <= k < |ns| ==> r[k] == ns[k].Item()
  {
    if ns == [] then [] else Items(ns[..|ns| - 1]) + [ns[|ns| - 1].Item()]
  }

  /** The nodes of `ns`, as a set of objects. */
  ghost function NodeSet(ns: seq<Node>): set<object>
  {
    set n | n in ns
  }

  lemma ItemsStep(ns: seq<Node>, n: Node)
    ensures Items(ns + [n]) == Items(ns) + [n.Item()]
  {
    assert (ns + [n])[..|ns|] == ns;
  }

  /** Filtering the nodes and then reading their items is reading the items and then filtering. */
  lemma {:induction false} ItemsKeep(ns: seq<Node>, outcomes: seq<int>)
    requires |outcomes| == |ns|
    ensures Items(Keep(ns, outcomes)) == Keep(Items(ns), outcomes)
  {
    if ns != [] {
      var n := |ns| - 1;
      ItemsKeep(ns[..n], outcomes[..n]);
      assert Items(ns)[..n] == Items(ns[..n]) && Items(ns)[n] == ns[n].Item();
      assert Keep(ns, outcomes) == Keep(ns[..n], outcomes[..n]) + if outcomes[n] != 0 then [ns[n]] else [];
      assert Keep(Items(ns), outcomes)
          == Keep(Items(ns[..n]), outcomes[..n]) + if outcomes[n] != 0 then [ns[n].Item()] else [];
      var kept := Keep(ns[..n], outcomes[..n]);
      if outcomes[n] != 0 {
        ItemsStep(kept, ns[n]);
      } else {
        assert kept + [] == kept && Items(kept) + [] == Items(kept);
      }
    }
  }

  /** Taking a node that occurs once out of a list takes it out of the list's node set. */
  lemma NodeSetRemove(before: seq<Node>, p: Node, after: seq<Node>)
    requires p !in before && p !in after
    ensures NodeSet(before + after) == NodeSet(before + [p] + after) - {p}
  {
  }

  /** The queue processor (`struct _proc`). */
  class Queue {
    var first: Node?
    var last: Node?
    const lock: Addr
    const lockfn: FnAddr
    const unlockfn: FnAddr
    const freefn: Option<FnAddr>

    ghost var spine: seq<Node>
    ghost var Repr: set<object>
    ghost var trace: seq<Event>

    function Ops(): LockOps
    {
      LockOps(lock, lockfn, unlockfn, freefn)
    }

    /** The list reachable from `first` is exactly `spine`, null-terminated (hence acyclic: `Unique`). */
    ghost predicate Linked()
      reads this, Repr
    {
      && this in Repr
      && Repr == {this} + NodeSet(spine)
      && first == (if spine == [] then null else spine[0])
      && (forall k {:trigger spine[k].next} :: 0 <= k < |spine| - 1 ==> spine[k].next == spine[k + 1])
      && (spine != [] ==> spine[|spine| - 1].next == null)
    }

    /** A null-terminated list has no node twice: nodes `a` and `b` differ because their successors do. */
    lemma {:induction false} Unique(a: int, b: int)
      requires Linked() && 0 <= a < b < |spine|
      ensures spine[a] != spine[b]
      decreases |spine| - b
    {
      assert spine[a].next == spine[a + 1];
      if b < |spine| - 1 {
        Unique(a + 1, b + 1);
        assert spine[b].next == spine[b + 1];
      }
    }

    /** The final node occurs nowhere before it: it is the only node whose `next` is null. */
    lemma TailIsNew()
      requires Linked() && spine != []
      ensures spine[|spine| - 1] !in spine[..|spine| - 1]
    {
    }

    /** The object invariant between operations: a well-formed list and the lock released. */
    ghost predicate Valid()
      reads this, Repr
    {
      Linked() && Disciplined(Ops(), trace)
    }

    /** What run_on_thread relies on: when the list is non-empty, `last` is its final node. */
    ghost predicate LastOk()
      reads this
    {
      spine != [] ==> last == spine[|spine| - 1]
    }

    ghost function Contents(): seq<WorkItem>
      reads this
    {
      Items(spine)
    }

    /** trunner_create: an empty queue bound to the given mutex and lock functions. */
    constructor (mutex: Addr, lckfn: FnAddr, unlckfn: FnAddr, freefn: Option<FnAddr>)
      ensures Valid() && LastOk() && fresh(Repr - {this})
      ensures first == null && last == null && spine == [] && Contents() == []
      ensures lock == mutex && lockfn == lckfn && unlockfn == unlckfn && this.freefn == freefn
      ensures trace == []
    {
      first, last := null, null;
      lock, lockfn, unlockfn := mutex, lckfn, unlckfn;
      this.freefn := freefn;
      spine, trace := [], [];
      Repr := {this};
    }

    /** run_on_thread: append a new node at the tail, under the lock. */
    method RunOnThread(data: Addr, fn: FnAddr, callback: Option<FnAddr>)
      requires Valid() && LastOk()
      modifies Repr
      ensures Valid() && LastOk()
      ensures fresh(Repr - old(Repr))
      ensures last != null && fresh(last) && last.Item() == WorkItem(data, fn, callback)
      ensures spine == old(spine) + [last]
      ensures first == (if old(first) == null then last else old(first))
      ensures Contents() == old(Contents()) + [WorkItem(data, fn, callback)]
      ensures trace == old(trace) + SubmitEvents(Ops())
    {
      var p := new Node(data, fn, callback);
      trace := trace + [Lock(lockfn, lock)];
      if first == null {
        first := p;
        last := p;
      } else {
        last.next := p;
        last := p;
      }
      trace := trace + [Unlock(unlockfn, lock)];
      spine := spine + [p];
      Repr := Repr + {p};
      assert spine[..|spine| - 1] == old(spine);
      assert trace == old(trace) + SubmitEvents(Ops());
      SubmitKeepsDiscipline(Ops(), old(trace));
    }

    /**
     * The unlinking step of trunner_process: node `p`, found between the nodes
     * `before` and the nodes `after`, with predecessor `l` (null when `p` is
     * first), is bypassed through `first` or through `l.next`. `last` is not
     * touched. The node leaves `Repr`: it is freed right after.
     */
    method Unlink(p: Node, l: Node?, ghost before: seq<Node>, ghost after: seq<Node>)
      requires Linked() && spine == before + [p] + after
      requires l == (if before == [] then null else before[|before| - 1])
      modifies this, l
      ensures Linked() && Repr == old(Repr) - {p}
      ensures spine == before + after
      ensures last == old(last) && trace == old(trace) && p.next == old(p.next)
    {
      ghost var S := spine;
      ghost var j := |before|;
      assert S[j] == p && (j > 0 ==> l == S[j - 1]);
      forall k | 0 <= k < |before| ensures before[k] != p {
        assert before[k] == S[k];
        Unique(k, j);
      }
      forall k | 0 <= k < |after| ensures after[k] != p {
        assert after[k] == S[j + 1 + k];
        Unique(j, j + 1 + k);
      }
      forall k | 0 <= k < |S| && j > 0 && k != j - 1 ensures S[k] != l {
        if k < j - 1 { Unique(k, j - 1); } else { Unique(j - 1, k); }
      }
      if p == first {
        first := p.next;
      } else {
        l.next := p.next;
      }
      spine := before + after;
      Repr := Repr - {p};
      assert forall k :: 0 <= k < |spine| ==> spine[k] == if k < j then S[k] else S[k + 1];
      forall k | 0 <= k < |spine| - 1 ensures spine[k].next == spine[k + 1] {
        if k != j - 1 {
          var k' := if k < j then k else k + 1;
          assert spine[k] == S[k'] && spine[k + 1] == S[k' + 1];
        }
      }
      if after != [] {
        assert spine[|spine| - 1] == S[|S| - 1];
      } else if before != [] {
        assert spine[|spine| - 1] == l;
      }
      NodeSetRemove(before, p, after);
    }

    /**
     * One round of the loop of trunner_process, on node `p` (the first of
     * `rest`) with cursor `l` (the last node kept so far, or null): call the
     * step; when it returns 0 (`r == 0`) run the callback if there is one,
     * unlink the node and free it; otherwise keep it and move the cursor to it.
     * Returns the next node, the new cursor and the calls made.
     */
    method Visit(p: Node, l: Node?, r: int, ghost kept: seq<Node>, ghost tail: seq<Node>)
      returns (next: Node?, l': Node?, ghost kept': seq<Node>, ghost evs: seq<Event>)
      requires Linked() && spine == kept + ([p] + tail)
      requires l == (if kept == [] then null else kept[|kept| - 1])
      modifies Repr
      ensures Linked() && Repr <= old(Repr) && last == old(last) && trace == old(trace)
      ensures kept' == if r != 0 then kept + [p] else kept
      ensures spine == kept' + tail && (tail == [] ==> spine == kept')
      ensures next == (if tail == [] then null else tail[0])
      ensures l' == (if r != 0 then p else l)
      ensures l' == (if kept' == [] then null else kept'[|kept'| - 1])
      ensures evs == ItemEvents(p.Item(), r)
    {
      assert spine == kept + [p] + tail;
      assert spine[|kept|] == p;
      assert p.next == (if tail == [] then null else tail[0]);
      evs := [ItemCall(Step, p.Item())];
      if r == 0 {
        evs := evs + if p.callback.Some? then [ItemCall(Callback, p.Item())] else [];
        Unlink(p, l, kept, tail);
        evs := evs + [ItemCall(FreeNode, p.Item())];
        next := p.next;
        l', kept' := l, kept;
        assert tail == [] ==> kept + tail == kept;
      } else {
        next := p.next;
        l', kept' := p, kept + [p];
        assert tail == [] ==> kept' + tail == kept';
      }
    }

    /**
     * The loop of trunner_process: call every node's step once, in order;
     * on 0 run the callback if there is one, unlink the node and free it;
     * otherwise keep it. `outcomes[i]` is what the i-th node's step returns.
     * Returns the last node kept (the cursor `l`), or null when none is kept,
     * and the calls the pass made. `last` is not touched.
     */
    method Sweep(outcomes: seq<int>) returns (l: Node?, ghost evs: seq<Event>)
      requires Linked() && |outcomes| == |spine|
      modifies Repr
      ensures Linked() && Repr <= old(Repr)
      ensures spine == Keep(old(spine), outcomes)
      ensures l == (if spine == [] then null else spine[|spine| - 1])
      ensures last == old(last) && trace == old(trace)
      ensures evs == PassEvents(old(Contents()), outcomes)
    {
      ghost var S, I := spine, Contents();
      var i := 0;  // how many steps this pass has called; the next one returns outcomes[i]
      var p := first;
      l := null;
      evs := [];
      ghost var kept: seq<Node> := [];
      FromStart(S);
      while p != null
        invariant 0 <= i <= |S|
        invariant Linked() && Repr <= old(Repr) && last == old(last) && trace == old(trace)
        invariant kept == KeepUpTo(S, outcomes, i)
        invariant spine == kept + From(S, i) && (i == |S| ==> spine == kept)
        invariant p == (if i < |S| then S[i] else null)
        invariant l == (if kept == [] then null else kept[|kept| - 1])
        invariant evs == PassUpTo(I, outcomes, i)
        decreases |S| - i
      {
        ghost var e;
        p, l, kept, e := Visit(p, l, outcomes[i], kept, From(S, i + 1));
        evs := evs + e;
        i := i + 1;
      }
      KeepWhole(S, outcomes);
      PassWhole(I, outcomes);
    }

    /**
     * trunner_process, as written: one pass under one lock/unlock pair.
     * Returns 0 when the list was empty on entry and 1 otherwise. `last` is
     * never updated, so it stays the final node only when that node stays
     * pending or every node is removed.
     */
    method Process(outcomes: seq<int>) returns (ret: int)
      requires Valid() && |outcomes| == |spine|
      modifies Repr
      ensures Valid() && Repr <= old(Repr)
      ensures ret == (if old(spine) == [] then 0 else 1)
      ensures spine == Keep(old(spine), outcomes)
      ensures Contents() == Keep(old(Contents()), outcomes)
      ensures trace == old(trace) + ProcessEvents(Ops(), old(Contents()), outcomes)
      ensures last == old(last)
      ensures old(LastOk()) ==> (LastOk() <==> (spine == [] || outcomes[|outcomes| - 1] != 0))
    {
      ghost var S := spine;
      if S != [] {
        TailIsNew();
        KeepKeepsTail(S, outcomes);
      }
      ret := 1;
      ghost var evs: seq<Event> := [];  // the calls made while the lock is held
      if first == null {
        ret := 0;
      } else {
        var _, e := Sweep(outcomes);
        evs := e;
      }
      RecordPass(S, outcomes, evs);
    }

    /**
     * trunner_process with `last` kept right: the same pass, then `last` is
     * set to the last node kept (`prc->last = l`), so the list invariant that
     * run_on_thread needs holds after every pass.
     */
    method ProcessKeepingTail(outcomes: seq<int>) returns (ret: int)
      requires Valid() && |outcomes| == |spine|
      modifies Repr
      ensures Valid() && LastOk() && Repr <= old(Repr)
      ensures ret == (if old(spine) == [] then 0 else 1)
      ensures spine == Keep(old(spine), outcomes)
      ensures Contents() == Keep(old(Contents()), outcomes)
      ensures trace == old(trace) + ProcessEvents(Ops(), old(Contents()), outcomes)
    {
      ghost var S := spine;
      ret := 1;
      ghost var evs: seq<Event> := [];  // the calls made while the lock is held
      if first == null {
        ret := 0;
      } else {
        var l, e := Sweep(outcomes);
        evs := e;
        last := l;
      }
      RecordPass(S, outcomes, evs);
    }

    /**
     * trunner_destroy: under the lock, walk the list from `first`, reading
     * each node's successor before freeing it; release the lock; call
     * `freefn` on the mutex when it is set; then clear and free the processor
     * itself, after which the queue owns nothing.
     */
    method Destroy()
      requires Valid()
      modifies this
      ensures trace == old(trace) + DestroyEvents(Ops(), old(Contents()))
      ensures Disciplined(Ops(), trace)
      ensures first == null && last == null && spine == [] && Repr == {}
    {
      ghost var S, I := spine, Contents();
      var p := first;
      ghost var i := 0;  // how many nodes have been freed
      ghost var evs: seq<Event> := [];  // the frees made while the lock is held
      while p != null
        invariant 0 <= i <= |S|
        invariant p == (if i < |S| then S[i] else null)
        invariant evs == DrainEvents(I[..i])
        decreases |S| - i
      {
        var n := p.next;
        evs := evs + [ItemCall(FreeNode, p.Item())];
        assert I[..i + 1] == I[..i] + [I[i]];
        p, i := n, i + 1;
      }
      assert I[..i] == I;
      ghost var tail: seq<Event> := [];
      if freefn.Some? {
        tail := [FreeLock(freefn.value, lock)];
      }
      trace := trace + (Bracket(Ops(), evs) + tail);
      first, last := null, null;
      spine, Repr := [], {};
      DestroyKeepsDiscipline(Ops(), old(trace), I);
    }

    /**
     * The close of a pass of trunner_process: record the lock, the calls
     * `evs` made while it was held, and the unlock; the list is left as it is.
     */
    ghost method RecordPass(S: seq<Node>, outcomes: seq<int>, evs: seq<Event>)
      requires Linked() && Disciplined(Ops(), trace)
      requires |outcomes| == |S| && spine == Keep(S, outcomes)
      requires evs == PassEvents(Items(S), outcomes)
      modifies this
      ensures trace == old(trace) + ProcessEvents(Ops(), Items(S), outcomes)
      ensures Valid() && Repr == old(Repr) && spine == old(spine)
      ensures first == old(first) && last == old(last)
      ensures Contents() == Keep(Items(S), outcomes)
    {
      trace := trace + Bracket(Ops(), evs);
      ItemsKeep(S, outcomes);
      ProcessKeepsDiscipline(Ops(), old(trace), Items(S), outcomes);
    }
  }
}
