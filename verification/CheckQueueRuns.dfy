/** Every interleaving of one master and any number of workers over the verification queue. */
module CheckQueueRuns {
  import opened CheckQueue

  // Outside: the master between Add and Wait. Entering: before the first critical section of Loop.
  // Working: `pos` checks of the batch are done; at the end of the batch the thread asks for the lock again.
  // Locked: inside a critical section; no thread is so between events.
  datatype Thread =
    | Outside
    | Entering
    | Locked
    | Asleep(notified: bool)
    | Working(batch: seq<Check>, pos: nat, fOk: bool)

  // Thread 0 is the master. `added` and `done` record the checks added, and those accounted for, since Wait last
  // returned.
  datatype System = System(shared: Shared, threads: seq<Thread>, added: multiset<Check>, done: multiset<Check>)

  // What a thread can do next.
  datatype Event =
    | AddEvent(checks: seq<Check>)   // master: Add, inside the lock
    | NotifyEvent(i: nat)            // master: Add's notification reaches worker i
    | WaitEvent                      // master: call Wait
    | EnterEvent(i: nat)             // thread i takes the lock at the head of the loop
    | WakeEvent(i: nat)              // thread i wakes up, notified or not
    | RunEvent(i: nat)               // thread i runs the next check of its batch

  function HeldBy(t: Thread): multiset<Check> {
    if t.Working? then multiset(t.batch) else multiset{}
  }

  function Held(ts: seq<Thread>): multiset<Check> {
    if ts == [] then multiset{} else HeldBy(ts[0]) + Held(ts[1..])
  }

  function IdleCount(ts: seq<Thread>): nat {
    if ts == [] then 0 else (if ts[0].Asleep? then 1 else 0) + IdleCount(ts[1..])
  }

  predicate InLoop(t: Thread) {
    t.Asleep? || t.Working? || t.Locked?
  }

  // The threads counted in nTotal.
  function InLoopCount(ts: seq<Thread>): nat {
    if ts == [] then 0 else (if InLoop(ts[0]) then 1 else 0) + InLoopCount(ts[1..])
  }

  ghost predicate AllPass(cs: multiset<Check>) {
    forall c :: c in cs ==> c.passes
  }

  ghost predicate Enabled(s: System, e: Event) {
    && s.threads != []
    && match e
       case AddEvent(_) => s.threads[0].Outside?
       case NotifyEvent(i) => 0 < i < |s.threads|
       case WaitEvent => s.threads[0].Outside?
       case EnterEvent(i) => i < |s.threads| && (s.threads[i].Entering?
           || (s.threads[i].Working? && s.threads[i].pos >= |s.threads[i].batch|))
       case WakeEvent(i) => i < |s.threads| && s.threads[i].Asleep?
       case RunEvent(i) => i < |s.threads| && s.threads[i].Working? && s.threads[i].pos < |s.threads[i].batch|
  }

  function NotifyMaster(ts: seq<Thread>): seq<Thread> {
    if ts != [] && ts[0].Asleep? then ts[0 := Asleep(true)] else ts
  }

  // What thread i becomes after a critical section with this outcome.
  function After(o: Outcome): Thread {
    match o
    case Returned(_) => Outside
    case Slept => Asleep(false)
    case Took(batch, fOk) => Working(batch, 0, fOk)
  }

  // The end of a critical section of thread i. Returning from Wait starts a new round.
  function Finish(s: System, i: nat, nBatchSize: nat): (System, Outcome)
    requires i < |s.threads| && s.shared.nTotal >= 0 && s.shared.nIdle >= 0
  {
    var (shared, o) := Proceed(s.shared, i == 0, nBatchSize);
    var t := s.(shared := shared, threads := s.threads[i := After(o)]);
    (if o.Returned? then t.(added := multiset{}, done := multiset{}) else t, o)
  }

  // The clean-up of thread i's batch.
  function Commit(s: System, i: nat): System
    requires i < |s.threads| && (s.threads[i].Entering? || s.threads[i].Working?)
  {
    var t := s.threads[i];
    s.(shared := CleanUp(s.shared, if t.Working? then |t.batch| else 0, t.Working? ==> t.fOk),
       threads := s.threads[i := Locked],
       done := s.done + HeldBy(t))
  }

  // The clean-up, with the notification of the master by the worker that finished the last check.
  function Clean(s: System, i: nat): System
    requires i < |s.threads| && (s.threads[i].Entering? || s.threads[i].Working?)
  {
    var c := Commit(s, i);
    if s.threads[i].Working? && |s.threads[i].batch| != 0 && c.shared.nTodo == 0 && i != 0
    then c.(threads := NotifyMaster(c.threads)) else c
  }

  function WakeUp(s: System, i: nat): System
    requires i < |s.threads|
  {
    s.(shared := s.shared.(nIdle := s.shared.nIdle - 1), threads := s.threads[i := Locked])
  }

  // ---------------------------------------------------------------- the invariant

  // A thread's own state is consistent with the checks it has run and with fAllOk.
  ghost predicate ThreadOk(t: Thread, fAllOk: bool) {
    t.Working? ==>
      && 1 <= |t.batch| && t.pos <= |t.batch|
      && (t.fOk ==> forall j :: 0 <= j < t.pos ==> t.batch[j].passes)
      && (!t.fOk ==> !fAllOk || exists j :: 0 <= j < t.pos && !t.batch[j].passes)
  }

  ghost predicate Counts(s: System) {
    && s.shared.nTodo == |s.shared.queue| + |Held(s.threads)|
    && s.shared.nIdle == IdleCount(s.threads)
    && s.shared.nTotal == InLoopCount(s.threads)
  }

  // nTodo counts the checks queued and held, every check added is queued, held or accounted for, and fAllOk is the
  // verdict on those accounted for.
  ghost predicate Core(s: System) {
    && s.threads != []
    && Counts(s)
    && s.added == multiset(s.shared.queue) + Held(s.threads) + s.done
    && (s.shared.fAllOk <==> AllPass(s.done))
    && (forall i :: 0 <= i < |s.threads| ==> ThreadOk(s.threads[i], s.shared.fAllOk))
    && (forall i :: 0 < i < |s.threads| ==> !s.threads[i].Outside?)
  }

  // The master sleeps only on an empty queue, and is notified once nothing is left to do.
  ghost predicate MasterOk(s: System)
    requires s.threads != []
  {
    s.threads[0].Asleep? ==> s.shared.queue == [] && (s.shared.nTodo == 0 ==> s.threads[0].notified)
  }

  ghost predicate Inv(s: System) {
    Core(s) && MasterOk(s)
  }

  // Replacing one thread changes the sums by that thread's share.
  lemma {:induction false} ReplaceHeld(ts: seq<Thread>, i: nat, t: Thread)
    requires i < |ts|
    ensures Held(ts[i := t]) + HeldBy(ts[i]) == Held(ts) + HeldBy(t)
    ensures |Held(ts[i := t])| + |HeldBy(ts[i])| == |Held(ts)| + |HeldBy(t)|
    decreases |ts|
  {
    hide HeldBy;
    if i == 0 {
      assert ts[i := t][1..] == ts[1..];
    } else {
      ReplaceHeld(ts[1..], i - 1, t);
      assert ts[i := t][1..] == ts[1..][i - 1 := t];
      var a, x, y := HeldBy(ts[0]), Held(ts[i := t][1..]), Held(ts[1..]);
      assert (a + x) + HeldBy(ts[i]) == a + (x + HeldBy(ts[i]));
      assert (a + y) + HeldBy(t) == a + (y + HeldBy(t));
    }
    assert |Held(ts[i := t]) + HeldBy(ts[i])| == |Held(ts) + HeldBy(t)|;
  }

  lemma Cancel(a: multiset<Check>, b: multiset<Check>, c: multiset<Check>)
    requires a + c == b + c
    ensures a == b
  {
    assert a == (a + c) - c;
    assert b == (b + c) - c;
  }

  lemma {:induction false} ReplaceCounts(ts: seq<Thread>, i: nat, t: Thread)
    requires i < |ts|
    ensures IdleCount(ts[i := t]) == IdleCount(ts) + (if t.Asleep? then 1 else 0) - (if ts[i].Asleep? then 1 else 0)
    ensures InLoopCount(ts[i := t]) == InLoopCount(ts) + (if InLoop(t) then 1 else 0) - (if InLoop(ts[i]) then 1 else 0)
    decreases |ts|
  {
    hide InLoop;
    if i == 0 {
      assert ts[i := t][1..] == ts[1..];
    } else {
      ReplaceCounts(ts[1..], i - 1, t);
      assert ts[i := t][1..] == ts[1..][i - 1 := t];
    }
  }

  lemma {:induction false} SomeoneWorks(ts: seq<Thread>)
    requires Held(ts) != multiset{}
    ensures exists i :: 0 <= i < |ts| && ts[i].Working?
    decreases |ts|
  {
    if !ts[0].Working? {
      SomeoneWorks(ts[1..]);
      var i :| 0 <= i < |ts[1..]| && ts[1..][i].Working?;
      assert ts[i + 1].Working?;
    }
  }

  // ---------------------------------------------------------------- each event keeps it

  lemma AddKeeps(s: System, checks: seq<Check>)
    requires Inv(s) && s.threads[0].Outside?
    ensures Inv(s.(shared := s.shared.(queue := s.shared.queue + checks, nTodo := s.shared.nTodo + |checks|),
                   added := s.added + multiset(checks)))
  {}

  lemma RunKeeps(s: System, i: nat)
    requires Inv(s) && i < |s.threads| && s.threads[i].Working? && s.threads[i].pos < |s.threads[i].batch|
    ensures Inv(s.(threads := s.threads[i := Ran(s.threads[i])]))
  {
    hide Held, IdleCount, InLoopCount, AllPass;
    RanOk(s.threads[i], s.shared.fAllOk);
    SwitchKeeps(s, i, Ran(s.threads[i]));
  }

  lemma RanOk(t: Thread, fAllOk: bool)
    requires ThreadOk(t, fAllOk) && t.Working? && t.pos < |t.batch|
    ensures ThreadOk(Ran(t), fAllOk)
  {
    var u := Ran(t);
    if !u.fOk && t.fOk { assert !u.batch[t.pos].passes; }
  }

  // One turn of the loop that runs a batch: a check runs only while all before it passed.
  function Ran(t: Thread): Thread
    requires t.Working? && t.pos < |t.batch|
  {
    t.(pos := t.pos + 1, fOk := t.fOk && t.batch[t.pos].passes)
  }

  // A thread changes without changing what it holds or how it is counted.
  lemma SwitchKeeps(s: System, i: nat, t: Thread)
    requires Core(s) && i < |s.threads| && HeldBy(t) == HeldBy(s.threads[i])
    requires t.Asleep? == s.threads[i].Asleep? && InLoop(t) == InLoop(s.threads[i])
    requires ThreadOk(t, s.shared.fAllOk) && (0 < i ==> !t.Outside?)
    ensures Core(s.(threads := s.threads[i := t]))
  {
    hide Held, IdleCount, InLoopCount, AllPass, ThreadOk;
    ReplaceHeld(s.threads, i, t);
    Cancel(Held(s.threads[i := t]), Held(s.threads), HeldBy(t));
    ReplaceCounts(s.threads, i, t);
  }

  lemma CommitKeeps(s: System, i: nat)
    requires Core(s) && i < |s.threads|
    requires s.threads[i].Entering? || (s.threads[i].Working? && s.threads[i].pos == |s.threads[i].batch|)
    ensures Core(Commit(s, i))
    ensures s.threads[i].Working? ==> |s.threads[i].batch| <= s.shared.nTodo
  {
    hide Held, IdleCount, InLoopCount, AllPass;
    var t := s.threads[i];
    ReplaceHeld(s.threads, i, Locked);
    ReplaceCounts(s.threads, i, Locked);
    if t.Working? {
      BatchVerdict(s, t);
    } else {
      assert s.done + multiset{} == s.done;
    }
    var q, rest := multiset(s.shared.queue), Held(s.threads[i := Locked]);
    assert q + rest + (s.done + HeldBy(t)) == q + (rest + HeldBy(t)) + s.done;
  }

  lemma CleanKeeps(s: System, i: nat)
    requires Inv(s) && i < |s.threads|
    requires s.threads[i].Entering? || (s.threads[i].Working? && s.threads[i].pos == |s.threads[i].batch|)
    ensures Inv(Clean(s, i)) && Clean(s, i).threads[i].Locked? && |Clean(s, i).threads| == |s.threads|
  {
    hide Held, IdleCount, InLoopCount, AllPass, Counts;
    CommitKeeps(s, i);
    var c := Commit(s, i);
    if c.threads[0].Asleep? { SwitchKeeps(c, 0, Asleep(true)); }
  }

  // Committing a finished batch: fAllOk afterwards says whether everything accounted for passes.
  lemma BatchVerdict(s: System, t: Thread)
    requires t.Working? && ThreadOk(t, s.shared.fAllOk) && t.pos == |t.batch| && (s.shared.fAllOk <==> AllPass(s.done))
    ensures (s.shared.fAllOk && t.fOk) <==> AllPass(s.done + HeldBy(t))
  {
    forall c | c in multiset(t.batch) ensures exists j :: 0 <= j < |t.batch| && t.batch[j] == c {}
    if !t.fOk && s.shared.fAllOk {
      var j :| 0 <= j < t.pos && !t.batch[j].passes;
      assert t.batch[j] in s.done + HeldBy(t);
    }
  }

  lemma WakeUpKeeps(s: System, i: nat)
    requires Inv(s) && i < |s.threads| && s.threads[i].Asleep?
    ensures Inv(WakeUp(s, i))
  {
    hide Held, IdleCount, InLoopCount, AllPass;
    ReplaceHeld(s.threads, i, Locked);
    Cancel(Held(s.threads[i := Locked]), Held(s.threads), HeldBy(Locked));
    ReplaceCounts(s.threads, i, Locked);
  }

  lemma {:induction false} HeldOf(ts: seq<Thread>, i: nat)
    requires i < |ts|
    ensures HeldBy(ts[i]) <= Held(ts)
    decreases |ts|
  {
    if i > 0 { HeldOf(ts[1..], i - 1); }
  }

  // With nothing left to do, no thread holds a batch and everything added is accounted for.
  lemma NothingLeft(s: System)
    requires Core(s) && s.shared.queue == [] && s.shared.nTodo == 0
    ensures Held(s.threads) == multiset{} && s.done == s.added
    ensures forall i :: 0 <= i < |s.threads| ==> !s.threads[i].Working?
  {
    hide IdleCount, InLoopCount, AllPass;
    forall i | 0 <= i < |s.threads| ensures !s.threads[i].Working? {
      HeldOf(s.threads, i);
      assert HeldBy(s.threads[i]) == multiset{};
      assert |HeldBy(s.threads[i])| == 0;
    }
  }

  lemma ReturnKeeps(s: System, nBatchSize: nat)
    requires Inv(s) && s.threads[0].Locked? && s.shared.queue == [] && s.shared.nTodo == 0
    ensures Inv(Finish(s, 0, nBatchSize).0)
    ensures Finish(s, 0, nBatchSize).1 == Returned(s.shared.fAllOk) && (s.shared.fAllOk <==> AllPass(s.added))
  {
    hide Held, IdleCount, InLoopCount, AllPass;
    ReplaceHeld(s.threads, 0, Outside);
    Cancel(Held(s.threads[0 := Outside]), Held(s.threads), HeldBy(Outside));
    ReplaceCounts(s.threads, 0, Outside);
    NothingLeft(s);
    NoChecks();
  }

  lemma SleepKeeps(s: System, i: nat, nBatchSize: nat)
    requires Inv(s) && i < |s.threads| && s.threads[i].Locked? && s.shared.queue == []
        && (i == 0 ==> s.shared.nTodo != 0)
    ensures Inv(Finish(s, i, nBatchSize).0)
    ensures Finish(s, i, nBatchSize).1 == Slept
  {
    hide Held, IdleCount, InLoopCount, AllPass;
    ReplaceHeld(s.threads, i, Asleep(false));
    Cancel(Held(s.threads[i := Asleep(false)]), Held(s.threads), HeldBy(Locked));
    ReplaceCounts(s.threads, i, Asleep(false));
  }

  lemma TakeKeeps(s: System, i: nat, nBatchSize: nat)
    requires Inv(s) && i < |s.threads| && s.threads[i].Locked? && s.shared.queue != []
    ensures Inv(Finish(s, i, nBatchSize).0)
    ensures Finish(s, i, nBatchSize).1.Took?
  {
    hide Held, IdleCount, InLoopCount, AllPass, BatchCount;
    var q := s.shared.queue;
    var cut := |q| - BatchCount(s.shared, nBatchSize);
    var t := Working(q[cut..], 0, s.shared.fAllOk);
    ReplaceHeld(s.threads, i, t);
    ReplaceCounts(s.threads, i, t);
    assert q == q[..cut] + q[cut..];
    assert multiset(q) == multiset(q[..cut]) + multiset(q[cut..]);
    TookOrder(multiset(q[..cut]), multiset(q[cut..]), Held(s.threads), s.done);
    assert Held(s.threads[i := t]) + multiset{} == Held(s.threads[i := t]);
  }

  // The end of a critical section; if it makes Wait return, the answer is the conjunction of the checks added.
  lemma FinishKeeps(s: System, i: nat, nBatchSize: nat)
    requires Inv(s) && i < |s.threads| && s.threads[i].Locked?
    ensures var (t, o) := Finish(s, i, nBatchSize);
            && Inv(t) && |t.threads| == |s.threads|
            && (o.Returned? ==> i == 0 && (o.result <==> AllPass(s.added)))
  {
    hide Held, IdleCount, InLoopCount, AllPass, ThreadOk;
    if s.shared.queue != [] {
      TakeKeeps(s, i, nBatchSize);
    } else if i == 0 && s.shared.nTodo == 0 {
      ReturnKeeps(s, nBatchSize);
    } else {
      SleepKeeps(s, i, nBatchSize);
    }
  }

  lemma TookOrder(q: multiset<Check>, batch: multiset<Check>, held: multiset<Check>, done: multiset<Check>)
    ensures (q + batch) + held + done == q + (held + batch) + done
  {}

  lemma NoChecks()
    ensures AllPass(multiset{})
  {}

  // ---------------------------------------------------------------- runs

  // One event; the outcome is Returned when it makes Wait return.
  ghost function Apply(s: System, e: Event, nBatchSize: nat): (System, Outcome)
    requires Inv(s) && Enabled(s, e)
  {
    match e
    case AddEvent(checks) =>
      (s.(shared := s.shared.(queue := s.shared.queue + checks, nTodo := s.shared.nTodo + |checks|),
          added := s.added + multiset(checks)), Slept)
    case NotifyEvent(i) => (if s.threads[i].Asleep? then s.(threads := s.threads[i := Asleep(true)]) else s, Slept)
    case WaitEvent => (s.(threads := s.threads[0 := Entering]), Slept)
    case EnterEvent(i) => CleanKeeps(s, i); Finish(Clean(s, i), i, nBatchSize)
    case WakeEvent(i) => WakeUpKeeps(s, i); Finish(WakeUp(s, i), i, nBatchSize)
    case RunEvent(i) => (s.(threads := s.threads[i := Ran(s.threads[i])]), Slept)
  }

  // Every event keeps the invariant, and Wait returns exactly the conjunction of the checks added since it last
  // returned.
  lemma ApplyKeeps(s: System, e: Event, nBatchSize: nat)
    requires Inv(s) && Enabled(s, e)
    ensures var (t, o) := Apply(s, e, nBatchSize);
            && Inv(t) && |t.threads| == |s.threads|
            && (o.Returned? ==> (o.result <==> AllPass(s.added)) && t.added == multiset{})
            && (!o.Returned? ==> t.added == s.added + if e.AddEvent? then multiset(e.checks) else multiset{})
            && (o.Returned? ==> !e.AddEvent?)
  {
    hide Held, IdleCount, InLoopCount, AllPass, Counts;
    match e
    case AddEvent(checks) => AddKeeps(s, checks);
    case NotifyEvent(i) => if s.threads[i].Asleep? { SwitchKeeps(s, i, Asleep(true)); }
    case WaitEvent => SwitchKeeps(s, 0, Entering);
    case EnterEvent(i) =>
      CleanKeeps(s, i);
      FinishKeeps(Clean(s, i), i, nBatchSize);
    case WakeEvent(i) =>
      WakeUpKeeps(s, i);
      FinishKeeps(WakeUp(s, i), i, nBatchSize);
    case RunEvent(i) => RunKeeps(s, i);
  }

  // The start: the master outside, every worker about to enter the loop.
  ghost predicate Initial(s: System) {
    && s.threads != [] && s.threads[0].Outside?
    && (forall i :: 0 < i < |s.threads| ==> s.threads[i].Entering?)
    && s.shared == Shared([], 0, 0, true, 0) && s.added == multiset{} && s.done == multiset{}
  }

  lemma {:induction false} InitialSums(ts: seq<Thread>)
    requires forall i :: 0 <= i < |ts| ==> ts[i].Outside? || ts[i].Entering?
    ensures Held(ts) == multiset{} && IdleCount(ts) == 0 && InLoopCount(ts) == 0
    decreases |ts|
  {
    if ts != [] { InitialSums(ts[1..]); }
  }

  // A run: enabled events one after the other, with the outcome of each.
  ghost predicate IsRun(run: seq<System>, events: seq<Event>, outcomes: seq<Outcome>, nBatchSize: nat) {
    && |run| == |events| + 1 && |outcomes| == |events| && Initial(run[0])
    && forall i :: 0 <= i < |events| ==> StepOf(run[i], events[i], outcomes[i], run[i + 1], nBatchSize)
  }

  ghost predicate StepOf(s: System, e: Event, o: Outcome, t: System, nBatchSize: nat) {
    Enabled(s, e) && (Inv(s) ==> (t, o) == Apply(s, e, nBatchSize))
  }

  lemma {:induction false} RunInv(run: seq<System>, events: seq<Event>, outcomes: seq<Outcome>, nBatchSize: nat, n: nat)
    requires IsRun(run, events, outcomes, nBatchSize) && n < |run|
    ensures Inv(run[n])
    decreases n
  {
    hide Apply;
    if n == 0 {
      InitialSums(run[0].threads);
    } else {
      hide Core, MasterOk;
      RunInv(run, events, outcomes, nBatchSize, n - 1);
      assert StepOf(run[n - 1], events[n - 1], outcomes[n - 1], run[n], nBatchSize);
      ApplyKeeps(run[n - 1], events[n - 1], nBatchSize);
    }
  }

  // The checks added by the events after event `from` and before event `end`.
  ghost function AddedBetween(events: seq<Event>, from: int, end: nat): multiset<Check>
    requires -1 <= from && end <= |events|
    decreases end
  {
    if end <= from + 1 then multiset{}
    else AddedBetween(events, from, end - 1) + if events[end - 1].AddEvent? then multiset(events[end - 1].checks)
        else multiset{}
  }

  lemma {:induction false} RoundAdded(run: seq<System>, events: seq<Event>, outcomes: seq<Outcome>, nBatchSize: nat,
      from: int, end: nat)
    requires IsRun(run, events, outcomes, nBatchSize) && -1 <= from < end <= |events|
    requires from == -1 || outcomes[from].Returned?
    requires forall i :: from < i < end ==> !outcomes[i].Returned?
    ensures run[end].added == AddedBetween(events, from, end)
    decreases end
  {
    hide Apply, Core, MasterOk;
    if end > 0 {
      var n := end - 1;
      RunInv(run, events, outcomes, nBatchSize, n);
      assert StepOf(run[n], events[n], outcomes[n], run[n + 1], nBatchSize);
      ApplyKeeps(run[n], events[n], nBatchSize);
      if n > from { RoundAdded(run, events, outcomes, nBatchSize, from, n); }
    }
  }

  // In every interleaving, a call of Wait that returns at event n answers whether all the checks added since the
  // previous return of Wait pass.
  lemma WaitAnswersItsRound(run: seq<System>, events: seq<Event>, outcomes: seq<Outcome>, nBatchSize: nat, from: int,
      n: nat)
    requires IsRun(run, events, outcomes, nBatchSize) && -1 <= from < n < |events|
    requires from == -1 || outcomes[from].Returned?
    requires forall i :: from < i < n ==> !outcomes[i].Returned?
    requires outcomes[n].Returned?
    ensures outcomes[n].result <==> AllPass(AddedBetween(events, from, n))
  {
    hide Apply, Core, MasterOk, AllPass;
    RunInv(run, events, outcomes, nBatchSize, n);
    assert StepOf(run[n], events[n], outcomes[n], run[n + 1], nBatchSize);
    ApplyKeeps(run[n], events[n], nBatchSize);
    RoundAdded(run, events, outcomes, nBatchSize, from, n);
  }

  // The master never sleeps for nothing: asleep without a pending notification, some worker still holds checks, and
  // that worker can run or take the lock.
  lemma MasterSleepsForAReason(run: seq<System>, events: seq<Event>, outcomes: seq<Outcome>, nBatchSize: nat, n: nat)
    requires IsRun(run, events, outcomes, nBatchSize) && n < |run|
    requires run[n].threads != [] && run[n].threads[0] == Asleep(false)
    ensures run[n].shared.nTodo > 0
    ensures exists i :: 0 < i < |run[n].threads| && run[n].threads[i].Working?
                        && (Enabled(run[n], RunEvent(i)) || Enabled(run[n], EnterEvent(i)))
  {
    hide Apply;
    RunInv(run, events, outcomes, nBatchSize, n);
    var s := run[n];
    assert |Held(s.threads)| == s.shared.nTodo;
    SomeoneWorks(s.threads);
    var i :| 0 <= i < |s.threads| && s.threads[i].Working?;
    assert i != 0;
    assert Enabled(s, RunEvent(i)) || Enabled(s, EnterEvent(i));
  }
}
