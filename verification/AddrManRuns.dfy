/** Whole runs of the address manager. */
module AddrManRuns {
  import opened AddrManState
  import opened AddrManOps
  import opened AddrManCheck
  import M = AddrMan

  // One call, with the random draws and clock readings it makes.
  datatype Op =
    | AddOp(addr: Address, source: NetAddr, penalty: int, now: int, draw: nat)
    | GoodOp(service: Service, testBeforeEvict: bool, time: int)
    | AttemptOp(service: Service, countFailure: bool, time: int)
    | ConnectedOp(service: Service, time: int)
    | SetServicesOp(service: Service, services: set<nat>)
    | GetAddrOp(draws: nat -> nat, clock: nat -> int)
    | ResolveCollisionsOp(clocks: int -> nat -> int)
    | SelectTriedCollisionOp(pick: int)

  // Callers pass positive times; the drawn pending id, if any, is one of the pending ones.
  ghost predicate Legal(s: State, op: Op) {
    match op
    case GoodOp(_, _, t) => t > 0
    case AttemptOp(_, _, t) => t >= 0
    case ResolveCollisionsOp(c) => forall id, i :: c(id)(i) > 0
    case SelectTriedCollisionOp(id) => id in s.collisions
    case _ => true
  }

  ghost function Step(h: Hashing, s: State, op: Op): State
    requires Inv(h, s) && Legal(s, op)
  {
    match op
    case AddOp(a, source, penalty, now, draw) => Add(h, s, a, source, penalty, now, draw).0
    case GoodOp(a, test, t) => Good(h, s, a, test, t)
    case AttemptOp(a, count, t) => Touch(s, a, i => Attempted(i, count, t, s.nLastGood))
    case ConnectedOp(a, t) => Touch(s, a, i => Seen(i, t))
    case SetServicesOp(a, services) => Touch(s, a, (i: AddrInfo) => i.(nServices := services))
    case GetAddrOp(draws, clock) => GetAddrFrom(s, 0, [], GetAddrLimit(|s.vRandom|), draws, clock).0
    case ResolveCollisionsOp(clocks) => ResolveFrom(h, s, s.collisions, clocks)
    case SelectTriedCollisionOp(id) => SelectCollision(h, s, id).0
  }

  lemma StepKeeps(h: Hashing, s: State, op: Op)
    requires Inv(h, s) && Legal(s, op)
    ensures Inv(h, Step(h, s, op)) && Extends(s, Step(h, s, op))
  {
    hide Core, CollisionsOk, Add, Good, GetAddrFrom, ResolveFrom, Touch, Usable;
    match op
    case AddOp(a, source, penalty, now, draw) => AddKeeps(h, s, a, source, penalty, now, draw);
    case GoodOp(a, test, t) => GoodKeeps(h, s, a, test, t);
    case AttemptOp(a, count, t) => TouchKeeps(h, s, a, i => Attempted(i, count, t, s.nLastGood));
    case ConnectedOp(a, t) => TouchKeeps(h, s, a, i => Seen(i, t));
    case SetServicesOp(a, services) => TouchKeeps(h, s, a, (i: AddrInfo) => i.(nServices := services));
    case GetAddrOp(draws, clock) => GetAddrKeeps(h, s, draws, clock);
    case ResolveCollisionsOp(clocks) => ResolveFromKeeps(h, s, s.collisions, clocks);
    case SelectTriedCollisionOp(id) => SelectCollisionKeeps(h, s, id);
  }

  lemma GetAddrKeeps(h: Hashing, s: State, draws: nat -> nat, clock: nat -> int)
    requires Inv(h, s)
    ensures var t := GetAddrFrom(s, 0, [], GetAddrLimit(|s.vRandom|), draws, clock).0;
            Inv(h, t) && Extends(s, t)
  {
    hide AddrIndex, TriedTable, NewTable, TriedIds, NewIds, RandomIndex, Answered;
    var limit := GetAddrLimit(|s.vRandom|);
    assert s.vRandom[..0] == [];
    GetAddrAnswers(s, 0, [], limit, draws, clock);
    var (t, out) := GetAddrFrom(s, 0, [], limit, draws, clock);
    AnsweredKeeps(h, s, t, out, limit, clock);
  }

  lemma SelectCollisionKeeps(h: Hashing, s: State, id: int)
    requires Inv(h, s) && id in s.collisions
    ensures var t := SelectCollision(h, s, id).0;
            && Inv(h, t) && Extends(s, t)
            && t == s.(collisions := if id in s.mapInfo then s.collisions else s.collisions - {id})
  {
    hide AddrIndex, TriedTable, NewTable, TriedIds, NewIds, RandomIndex, CollisionsOk;
    CollisionsLast(h, s, s.(collisions := s.collisions - {id}));
    CollisionsLast(h, s, s);
  }

  // Every state in a run: s, then the state after each call.
  ghost predicate IsRun(h: Hashing, run: seq<State>, ops: seq<Op>) {
    && |run| == |ops| + 1
    && (forall i :: 0 <= i < |ops| ==> StepOf(h, run[i], ops[i], run[i + 1]))
  }

  // A call from a consistent state. What it is from any other state does not matter here.
  ghost predicate StepOf(h: Hashing, s: State, op: Op, t: State) {
    Inv(h, s) ==> Legal(s, op) && t == Step(h, s, op)
  }

  // Every run from a cleared manager stays consistent, and later states extend earlier ones.
  lemma {:induction false} RunKeeps(h: Hashing, run: seq<State>, ops: seq<Op>, i: nat, j: nat)
    requires IsRun(h, run, ops) && run[0] == Cleared()
    requires i <= j < |run|
    ensures Inv(h, run[i]) && Inv(h, run[j]) && Extends(run[i], run[j])
    decreases j
  {
    hide Core, CollisionsOk, Step;
    if j == 0 {
      ClearedInv(h);
    } else {
      RunKeeps(h, run, ops, if i < j then i else j - 1, j - 1);
      assert StepOf(h, run[j - 1], ops[j - 1], run[j]);
      StepKeeps(h, run[j - 1], ops[j - 1]);
      if i < j { ExtendsTransitive(run[i], run[j - 1], run[j]); }
    }
  }

  // The consistency scan passes after every call of every run.
  lemma RunPassesCheck(h: Hashing, run: seq<State>, ops: seq<Op>, i: nat)
    requires IsRun(h, run, ops) && run[0] == Cleared() && i < |run|
    ensures Consistent(h, run[i]) && CollisionsOk(h, run[i])
  {
    hide Core, CollisionsOk, Step, Consistent;
    RunKeeps(h, run, ops, i, i);
    InvConsistent(h, run[i]);
  }

  // Ids are never reused: an id that was given out and is not known any more stays unknown.
  lemma IdsNotReused(h: Hashing, run: seq<State>, ops: seq<Op>, i: nat, j: nat, id: int)
    requires IsRun(h, run, ops) && run[0] == Cleared() && i <= j < |run|
    requires id < run[i].nIdCount && id !in run[i].mapInfo
    ensures id !in run[j].mapInfo
  {
    hide Core, CollisionsOk, Step;
    RunKeeps(h, run, ops, i, j);
  }

  // A call on the manager itself is the step on its value. `rnd` is the start of Good_'s bucket search.
  method Perform(a: M.AddrMan, op: Op, rnd: nat)
    requires a.Valid() && Legal(a.View(), op) && rnd < NEW_BUCKET_COUNT
    modifies a, a.vvTried, a.vvNew
    ensures a.h == old(a.h) && a.Valid() && a.View() == Step(a.h, old(a.View()), op)
  {
    hide Core, CollisionsOk, M.Occupied, Add, Good, GetAddrFrom, ResolveFrom, Touch, SelectCollision, Answered;
    match op
    case AddOp(addr, source, penalty, now, draw) => var _ := a.Add(addr, source, penalty, now, draw);
    case GoodOp(service, test, t) => a.Good(service, test, t, rnd);
    case AttemptOp(service, count, t) => a.Attempt(service, count, t);
    case ConnectedOp(service, t) => a.Connected(service, t);
    case SetServicesOp(service, services) => a.SetServices(service, services);
    case GetAddrOp(draws, clock) => var _ := a.GetAddr(draws, clock);
    case ResolveCollisionsOp(clocks) => a.ResolveCollisions(clocks, rnd);
    case SelectTriedCollisionOp(id) => var _ := a.SelectTriedCollision(id);
  }
}
