/**
 * Concrete runs of the queue: three submissions A, B, C, then one pass in
 * which the steps of A and C finish while the step of B stays pending.
 */
module Scenarios {
  import opened TrunnerModel
  import opened Trunner

  /** The pass keeps only the middle of three entries. */
  lemma KeepsMiddle<T>(a: T, b: T, c: T)
    ensures Keep([] + [a] + [b] + [c], [0, 1, 0]) == [b]
  {
    assert [] + [a] + [b] + [c] == [a, b, c];
    assert Keep([a], [0]) == [] by {
      assert [a][..0] == [] && [0][..0] == [];
      assert Keep([a], [0]) == Keep([], []) + [];
    }
    assert Keep([a, b], [0, 1]) == [b] by {
      assert [a, b][..1] == [a] && [0, 1][..1] == [0];
    }
    assert [a, b, c][..2] == [a, b] && [0, 1, 0][..2] == [0, 1];
    assert Keep([a, b, c], [0, 1, 0]) == [b] + [];
  }

  /** Three submissions to a fresh queue, returning the three new nodes. */
  method SubmitThree() returns (q: Queue, a: Node, b: Node, c: Node)
    ensures q.Valid() && q.LastOk() && q.spine == [] + [a] + [b] + [c] && q.last == c
    ensures fresh(q.Repr)
    ensures a.Item() == WorkItem(100, 20, None)
    ensures b.Item() == WorkItem(101, 20, Some(30))
    ensures c.Item() == WorkItem(102, 20, None)
  {
    q := new Queue(1, 10, 11, None);
    q.RunOnThread(100, 20, None);
    a := q.last;
    q.RunOnThread(101, 20, Some(30));
    b := q.last;
    q.RunOnThread(102, 20, None);
    c := q.last;
  }

  /**
   * trunner_process as written: after the pass the list holds only B, yet
   * `last` still names C, a node the pass freed. The next run_on_thread
   * would link its new node through that freed node and lose it.
   */
  method StaleTailAfterMixedPass() returns (q: Queue, stale: Node)
    ensures q.Valid() && q.Contents() == [WorkItem(101, 20, Some(30))]
    ensures q.last == stale && stale !in q.Repr && stale.Item() == WorkItem(102, 20, None)
    ensures !q.LastOk()
  {
    var a, b;
    q, a, b, stale := SubmitThree();
    KeepsMiddle(a, b, stale);
    var ret := q.Process([0, 1, 0]);
    assert q.spine == [b];
  }

  /**
   * The same pass with `last` kept right: `last` is B, and a fourth
   * submission lands after B.
   */
  method TailKeptAfterMixedPass() returns (q: Queue)
    ensures q.Valid() && q.LastOk()
    ensures q.Contents() == [WorkItem(101, 20, Some(30)), WorkItem(103, 21, None)]
  {
    var a, b, c;
    q, a, b, c := SubmitThree();
    KeepsMiddle(a, b, c);
    var ret := q.ProcessKeepingTail([0, 1, 0]);
    q.RunOnThread(103, 21, None);
    assert q.spine == [b] + [q.last];
  }
}
