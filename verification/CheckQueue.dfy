/** The bodies of CCheckQueue's critical sections and of the loop that runs a batch, in place,
    equal to the atomic steps of CheckQueueSpec. */
module CheckQueue {
  import opened CheckQueueSpec

  class CheckQueue {
    var queue: seq<Check>
    var nIdle: int
    var nTotal: int
    var fAllOk: bool
    var nTodo: int
    const nBatchSize: nat

    ghost function Shared(): Shared
      reads this
    {
      CheckQueueSpec.Shared(queue, nIdle, nTotal, fAllOk, nTodo, nBatchSize)
    }

    constructor (batchSize: nat)
      ensures Shared() == CheckQueueSpec.Shared([], 0, 0, true, 0, batchSize)
    {
      queue, nIdle, nTotal, fAllOk, nTodo, nBatchSize := [], 0, 0, true, 0, batchSize;
    }

    method Add(checks: seq<Check>)
      modifies this
      ensures Shared() == AddChecks(old(Shared()), checks)
    {
      for i := 0 to |checks|
        invariant queue == old(queue) + checks[..i]
        invariant Shared() == old(Shared()).(queue := queue)
      {
        queue := queue + [checks[i]];
      }
      assert checks[..|checks|] == checks;
      nTodo := nTodo + |checks|;
    }

    /** Accounts for a finished batch; notify says whether condMaster is notified. */
    method CleanUp(nNow: nat, fOk: bool, fMaster: bool) returns (notify: bool)
      modifies this
      ensures Shared() == Account(old(Shared()), nNow, fOk)
      ensures notify == (nTodo == 0 && !fMaster)
    {
      fAllOk := fAllOk && fOk;
      nTodo := nTodo - nNow;
      notify := nTodo == 0 && !fMaster;
    }

    /** The inner while loop up to its first wait, and the taking of a batch. */
    method Top(fMaster: bool) returns (o: Outcome)
      requires queue != [] ==> nTotal + nIdle + 1 > 0 && BatchSize(Shared()) <= |queue|
      modifies this
      ensures (Shared(), o) == Decide(old(Shared()), fMaster)
    {
      if queue == [] {
        if fMaster && nTodo == 0 {
          nTotal := nTotal - 1;
          o := Return(fAllOk);
          fAllOk := true;
          return;
        }
        nIdle := nIdle + 1;
        return Sleep;
      }
      var nNow := Max(1, Min(nBatchSize, |queue| / (nTotal + nIdle + 1)));
      assert nNow == BatchSize(Shared());
      hide BatchSize;
      var vChecks := Take(nNow);
      o := Work(vChecks);
    }

    /** Moves the last n checks of the queue to a batch. */
    method Take(n: nat) returns (vChecks: seq<Check>)
      requires n <= |queue|
      modifies this`queue
      ensures queue == old(queue)[..|old(queue)| - n] && vChecks == Popped(old(queue), n)
    {
      vChecks := [];
      ghost var q := queue;
      for i := 0 to n
        invariant queue == q[..|q| - i] && |queue| == |q| - i
        invariant vChecks + Popped(queue, n - i) == Popped(q, n)
      {
        assert Popped(queue, n - i) == [queue[|queue| - 1]] + Popped(queue[..|queue| - 1], n - i - 1);
        vChecks := vChecks + [queue[|queue| - 1]];
        queue := queue[..|queue| - 1];
      }
    }
  }

  /** Runs a batch, skipping what remains once a check has failed: the verdict of |batch| Exec steps. */
  method Execute(batch: seq<Check>, fOk: bool) returns (ok: bool)
    ensures ok == (fOk && forall k | 0 <= k < |batch| :: batch[k].ok)
  {
    ok := fOk;
    for i := 0 to |batch|
      invariant ok == (fOk && forall k | 0 <= k < i :: batch[k].ok)
    {
      if ok { ok := batch[i].ok; }
    }
  }
}
