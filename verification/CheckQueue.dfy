/**
  The verification queue: a master and any number of workers over one mutex and two condition
  variables. Every critical section is one step; checks run between steps.
 */
module CheckQueue {
  import opened Numbers

  // A queued verification; `passes` is what its operator() returns.
  datatype Check = Check(id: nat, passes: bool)

  // What the mutex protects.
  datatype Shared = Shared(queue: seq<Check>, nIdle: int, nTotal: int, fAllOk: bool, nTodo: int)

  // How a critical section of Loop ends: returning from Wait, waiting on a condition variable, or with a batch to run.
  datatype Outcome = Returned(result: bool) | Slept | Took(batch: seq<Check>, fOk: bool)

  // How many work units to process now: the most, up to nBatchSize, that leave as many for each of the others.
  function BatchCount(s: Shared, nBatchSize: nat): (n: int)
    requires s.queue != [] && s.nTotal >= 0 && s.nIdle >= 0
    ensures 1 <= n <= |s.queue|
    ensures n > 1 ==> n <= nBatchSize && n * (s.nTotal + s.nIdle + 1) <= |s.queue|
    ensures n >= nBatchSize || (n + 1) * (s.nTotal + s.nIdle + 1) > |s.queue|
  {
    Share(|s.queue|, s.nTotal + s.nIdle + 1);
    Max(1, Min(nBatchSize, |s.queue| / (s.nTotal + s.nIdle + 1)))
  }

  lemma Share(length: nat, threads: nat)
    requires threads > 0
    ensures forall n :: 0 <= n <= length / threads ==> n * threads <= length
    ensures forall n :: n > length / threads ==> n * threads > length
    ensures length / threads <= length
  {
    var q := length / threads;
    assert length == q * threads + length % threads;
    forall n | 0 <= n <= q ensures n * threads <= length { Times(n, q, threads); }
    forall n | n > q ensures n * threads > length { Times(q + 1, n, threads); }
    Times(1, threads, q);
  }

  lemma Times(a: nat, b: nat, c: nat)
    requires a <= b
    ensures a * c <= b * c
  {}

  // The clean-up of the previous batch of nNow checks, or the first entry into the loop.
  function CleanUp(s: Shared, nNow: nat, fOk: bool): Shared {
    if nNow != 0 then s.(fAllOk := s.fAllOk && fOk, nTodo := s.nTodo - nNow) else s.(nTotal := s.nTotal + 1)
  }

  // The rest of the critical section, up to the wait, the return or the end of the lock.
  function Proceed(s: Shared, master: bool, nBatchSize: nat): (Shared, Outcome)
    requires s.nTotal >= 0 && s.nIdle >= 0
  {
    if s.queue == [] then
      if master && s.nTodo == 0 then (s.(nTotal := s.nTotal - 1, fAllOk := true), Returned(s.fAllOk))
      else (s.(nIdle := s.nIdle + 1), Slept)
    else
      var cut := |s.queue| - BatchCount(s, nBatchSize);
      (s.(queue := s.queue[..cut]), Took(s.queue[cut..], s.fAllOk))
  }

  // The shared fields as the program updates them.
  class Queue {
    var queue: seq<Check>
    var nIdle: int
    var nTotal: int
    var fAllOk: bool
    var nTodo: int
    const nBatchSize: nat

    ghost function View(): Shared
      reads this
    {
      Shared(queue, nIdle, nTotal, fAllOk, nTodo)
    }

    constructor (nBatchSize: nat)
      ensures View() == Shared([], 0, 0, true, 0) && this.nBatchSize == nBatchSize
    {
      queue, nIdle, nTotal, fAllOk, nTodo := [], 0, 0, true, 0;
      this.nBatchSize := nBatchSize;
    }

    method Add(checks: seq<Check>)
      modifies this
      ensures View() == old(View()).(queue := old(queue) + checks, nTodo := old(nTodo) + |checks|)
    {
      if |checks| == 0 { assert queue + checks == queue; return; }
      queue := queue + checks;
      nTodo := nTodo + |checks|;
    }

    // The head of the do-while body: clean up after the previous batch and say whether to notify the master.
    method Enter(master: bool, nNow: nat, fOk: bool) returns (notifyMaster: bool)
      requires nNow <= nTodo
      modifies this
      ensures View() == CleanUp(old(View()), nNow, fOk) && nTodo >= 0
      ensures notifyMaster <==> nNow != 0 && nTodo == 0 && !master
    {
      notifyMaster := false;
      if nNow != 0 {
        fAllOk := fAllOk && fOk;
        nTodo := nTodo - nNow;
        if nTodo == 0 && !master { notifyMaster := true; }
      } else {
        nTotal := nTotal + 1;
      }
    }

    // From the test of the inner while loop on.
    method Continue(master: bool) returns (o: Outcome)
      requires nTotal >= 0 && nIdle >= 0
      modifies this
      ensures (View(), o) == Proceed(old(View()), master, nBatchSize)
    {
      if |queue| == 0 {
        if master && nTodo == 0 {
          nTotal := nTotal - 1;
          var fRet := fAllOk;
          fAllOk := true;
          return Returned(fRet);
        }
        nIdle := nIdle + 1;
        return Slept;
      }
      var nNow := Max(1, Min(nBatchSize, |queue| / (nTotal + nIdle + 1)));
      assert nNow == BatchCount(View(), nBatchSize);
      var cut := |queue| - nNow;
      o := Took(queue[cut..], fAllOk);
      queue := queue[..cut];
    }
  }

  // Running one batch, as Loop does outside the lock.
  method RunBatch(batch: seq<Check>, start: bool) returns (fOk: bool)
    ensures fOk <==> start && forall i :: 0 <= i < |batch| ==> batch[i].passes
  {
    fOk := start;
    for i := 0 to |batch|
      invariant fOk <==> start && forall j :: 0 <= j < i ==> batch[j].passes
    {
      if fOk { fOk := batch[i].passes; }
    }
  }
}
