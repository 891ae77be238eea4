/**
  Clearing the address manager while collisions are pending.

  Clear empties every table and restarts the ids at 0, but keeps the pending set. Should a pending id be given out
  again, SelectTriedCollision_ draws an entry whose tried slot may be empty, and looks up the entry of id -1.
 */
module AddrManClear {
  import opened AddrManState
  import opened AddrManSteps
  import opened AddrManOps
  import opened AddrManEffects
  import opened AddrManRuns
  import opened Numbers

  // Drawing id, SelectTriedCollision_ finds no occupant in the tried slot that its entry wants.
  ghost predicate Dangling(h: Hashing, s: State, id: int) {
    id in s.collisions && id in s.mapInfo && h.TriedSlot(s.mapInfo[id].service) !in s.vvTried
  }

  // The manager after Clear, when these ids were pending.
  function Emptied(pending: set<int>): State { Cleared().(collisions := pending) }

  datatype Adding = Adding(addr: Address, source: NetAddr, penalty: int, now: int, draw: nat)

  ghost function AddOne(h: Hashing, s: State, x: Adding): State
    requires Core(h, s, {}, 0)
  {
    Add(h, s, x.addr, x.source, x.penalty, x.now, x.draw).0
  }

  // A sequence of Add_ calls.
  ghost function AddAll(h: Hashing, s: State, adds: seq<Adding>): (t: State)
    requires Core(h, s, {}, 0)
    ensures Core(h, t, {}, 0) && t.collisions == s.collisions && t.vvTried == s.vvTried
  {
    hide Core, AddOne;
    if adds == [] then s else
    var t := AddAll(h, s, adds[..|adds| - 1]);
    AddOneKeeps(h, t, adds[|adds| - 1]);
    AddOne(h, t, adds[|adds| - 1])
  }

  lemma EmptiedCore(h: Hashing, pending: set<int>)
    ensures Core(h, Emptied(pending), {}, 0)
  {
    ClearedInv(h);
  }

  // The manager after Clear, when these ids were pending, and then the calls.
  ghost function Reused(h: Hashing, pending: set<int>, adds: seq<Adding>): (t: State)
    ensures Core(h, t, {}, 0) && t.collisions == pending && t.vvTried == map[]
  {
    EmptiedCore(h, pending);
    AddAll(h, Emptied(pending), adds)
  }

  // ---------------------------------------------------------------- one Add_

  // Add_ touches neither the pending set nor the tried table, and knows at most one more address afterwards.
  lemma AddOneKeeps(h: Hashing, s: State, x: Adding)
    requires Core(h, s, {}, 0)
    ensures var t := AddOne(h, s, x);
            && Core(h, t, {}, 0) && t.collisions == s.collisions && t.vvTried == s.vvTried
            && t.mapAddr.Keys <= s.mapAddr.Keys + {x.addr.service.net}
  {
    hide Core, Insert, Insertable, AddsReference;
    var net := x.addr.service.net;
    var penalty := if net == x.source then 0 else x.penalty;
    if h.isRoutable(net) {
      if net in s.mapAddr {
        AddKnownKeeps(h, s, x.addr, x.source, penalty, x.now, x.draw);
        var id := s.mapAddr[net];
        var info := Refreshed(s.mapInfo[id], x.addr, penalty, x.now);
        if AddsReference(info, x.addr, x.draw) { InsertFrame(h, Update(s, id, info), id, x.source, x.now, {}); }
      } else {
        AddNewKeeps(h, s, x.addr, x.source, penalty, x.now);
        InsertFrame(h, Created(s, x.addr, x.source, penalty), s.nIdCount, x.source, x.now, {s.nIdCount});
      }
    }
  }

  // A time at which an entry is terrible, whatever its statistics.
  function TooLate(i: AddrInfo): int {
    Max(i.nLastTry + 61, i.nTime + HORIZON_DAYS * 24 * 60 * 60 + 1)
  }

  // An unknown routable address gets the next id, and keeps it if its slot is free or its occupant is outdated.
  lemma AddOneNew(h: Hashing, s: State, x: Adding)
    requires Core(h, s, {}, 0) && h.isRoutable(x.addr.service.net) && x.addr.service.net !in s.mapAddr
    ensures var t := AddOne(h, s, x);
            var k := h.NewSlot(x.addr.service, x.source);
            && t.nIdCount == s.nIdCount + 1
            && ((k in s.vvNew ==> s.vvNew[k] in s.mapInfo && s.mapInfo[s.vvNew[k]].IsTerrible(x.now)) ==>
                  && s.nIdCount in t.mapInfo && t.mapInfo[s.nIdCount].service == x.addr.service
                  && !t.mapInfo[s.nIdCount].fInTried)
            && (k !in s.vvNew ==>
                t.vvNew == s.vvNew[k := s.nIdCount] && t.mapInfo.Keys == s.mapInfo.Keys + {s.nIdCount})
  {
    hide Core, Insert, Insertable;
    var net := x.addr.service.net;
    var penalty := if net == x.source then 0 else x.penalty;
    AddNewKeeps(h, s, x.addr, x.source, penalty, x.now);
    InsertFrame(h, Created(s, x.addr, x.source, penalty), s.nIdCount, x.source, x.now, {s.nIdCount});
    NextIdFree(h, s);
    InsertFresh(h, Created(s, x.addr, x.source, penalty), s.nIdCount, x.source, x.now, {s.nIdCount});
  }

  lemma InsertFresh(h: Hashing, s: State, id: int, source: NetAddr, now: int, loose: set<int>)
    requires Insertable(h, s, id, loose)
    ensures var t := Insert(h, s, id, source, now, loose);
            var k := h.NewSlot(s.mapInfo[id].service, source);
            && ((k in s.vvNew ==> s.vvNew[k] in s.mapInfo && s.mapInfo[s.vvNew[k]].IsTerrible(now)) ==>
                  id in t.mapInfo && t.mapInfo[id].service == s.mapInfo[id].service && !t.mapInfo[id].fInTried)
            && (k !in s.vvNew ==> t.vvNew == s.vvNew[k := id] && t.mapInfo.Keys == s.mapInfo.Keys)
  {
    hide AddrIndex, TriedTable, NewTable, TriedIds, NewIds, RandomIndex, Counters, StatsOk, IdsBelow, RefBounds;
    var k := h.NewSlot(s.mapInfo[id].service, source);
    if k in s.vvNew && s.vvNew[k] != id {
      NewOccupant(h, s.mapInfo, s.vvNew, k);
      if s.mapInfo[s.vvNew[k]].IsTerrible(now) {
        ClearNewKeepsCore(h, s, k, loose, 0);
        assert id in s.mapInfo.Keys - Lost(s, k);
      }
    }
  }

  // ---------------------------------------------------------------- which lookups fail

  // After any number of additions to a cleared manager, exactly the pending ids that are known again fail.
  lemma DanglingAfterAdds(h: Hashing, pending: set<int>, adds: seq<Adding>, id: int)
    ensures Dangling(h, Reused(h, pending, adds), id) <==>
            id in pending && id in Reused(h, pending, adds).mapInfo
  {
    hide Core;
  }

  // After the first one that can only be id 0.
  lemma DanglingAfterOne(h: Hashing, pending: set<int>, x: Adding)
    ensures (exists id :: Dangling(h, Reused(h, pending, [x]), id)) <==>
        h.isRoutable(x.addr.service.net) && 0 in pending
  {
    hide Core, Add;
    EmptiedCore(h, pending);
    var s := Emptied(pending);
    var t := AddOne(h, s, x);
    assert [x][..0] == [];
    assert AddAll(h, s, []) == s;
    assert Reused(h, pending, [x]) == t;
    AddOneKeeps(h, s, x);
    if h.isRoutable(x.addr.service.net) {
      AddOneNew(h, s, x);
      if 0 in pending { assert Dangling(h, t, 0); }
    } else {
      AddRefused(h, s, x.addr, x.source, x.penalty, x.now, x.draw);
      assert t == Add(h, s, x.addr, x.source, x.penalty, x.now, x.draw).0;
    }
  }

  ghost predicate Routable(h: Hashing, nets: seq<NetAddr>) {
    && (forall i :: 0 <= i < |nets| ==> h.isRoutable(nets[i]))
    && (forall i, j :: 0 <= i < j < |nets| ==> nets[i] != nets[j])
  }

  ghost function Among(nets: seq<NetAddr>): set<NetAddr> { set i | 0 <= i < |nets| :: nets[i] }

  // Adding n different routable addresses gives out the ids below n, and can leave the last of them known.
  lemma {:induction false} GiveOut(h: Hashing, pending: set<int>, nets: seq<NetAddr>) returns (adds: seq<Adding>)
    requires Routable(h, nets)
    ensures var t := Reused(h, pending, adds);
            && t.nIdCount == |nets| && t.mapAddr.Keys <= Among(nets)
            && (nets != [] ==> |nets| - 1 in t.mapInfo)
    decreases |nets|
  {
    hide Core, AddOne;
    if nets == [] { return []; }
    var n := |nets| - 1;
    var some := GiveOut(h, pending, nets[..n]);
    var s := Reused(h, pending, some);
    assert nets[n] !in Among(nets[..n]);
    var x := Outliving(h, s, nets[n]);
    AddOneKeeps(h, s, x);
    AddOneNew(h, s, x);
    adds := some + [x];
    assert adds[..|adds| - 1] == some;
    assert Among(nets) == Among(nets[..n]) + {nets[n]};
  }

  // An addition of this address that does not lose against the occupant of its slot.
  lemma Outliving(h: Hashing, s: State, net: NetAddr) returns (x: Adding)
    requires Core(h, s, {}, 0)
    ensures x.addr.service.net == net
    ensures var k := h.NewSlot(x.addr.service, x.source);
            k in s.vvNew ==> s.vvNew[k] in s.mapInfo && s.mapInfo[s.vvNew[k]].IsTerrible(x.now)
  {
    hide AddrIndex, TriedTable, TriedIds, NewIds, RandomIndex, Counters, StatsOk, IdsBelow, RefBounds;
    var a := Address(Service(net, 0), {}, 0);
    var k := h.NewSlot(a.service, net);
    if k in s.vvNew {
      NewOccupant(h, s.mapInfo, s.vvNew, k);
      x := Adding(a, net, 0, TooLate(s.mapInfo[s.vvNew[k]]), 0);
    } else {
      x := Adding(a, net, 0, 0, 0);
    }
  }

  // A cleared manager is safe, whatever is added next, exactly when nothing was pending. The pending ids were given
  // out, and there are more routable addresses than that.
  lemma SafeAfterClear(h: Hashing, pending: set<int>, nets: seq<NetAddr>)
    requires Routable(h, nets)
    requires forall id :: id in pending ==> 0 <= id < |nets|
    ensures (forall adds, id :: !Dangling(h, Reused(h, pending, adds), id)) <==> pending == {}
  {
    hide Core, Reused;
    if pending == {} {
      forall adds, id ensures !Dangling(h, Reused(h, pending, adds), id) {
        DanglingAfterAdds(h, pending, adds, id);
      }
    } else {
      var id := Pick(pending);
      var adds := GiveOut(h, pending, nets[..id + 1]);
      DanglingAfterAdds(h, pending, adds, id);
      assert Dangling(h, Reused(h, pending, adds), id);
    }
  }

  // With nothing pending no later call of any kind leads to a failing lookup.
  lemma SafeRuns(h: Hashing, run: seq<State>, ops: seq<Op>, i: nat, id: int)
    requires IsRun(h, run, ops) && run[0] == Emptied({}) && i < |run|
    ensures !Dangling(h, run[i], id)
  {
    hide Core, Step;
    RunKeeps(h, run, ops, i, i);
  }

  // ---------------------------------------------------------------- a run that gets there

  // Every address wants the same tried slot; the new bucket depends on the address.
  function SampleHashing(): Hashing {
    Hashing(service => 0, (net: NetAddr, source: NetAddr) => if net.ip == 0 then 0 else 1,
        (isNew, bucket, service) => 0,
            net => true, net => true, false)
  }

  function SampleAdding(ip: nat): Adding { Adding(Address(Service(NetAddr(ip), 8333), {}, 1), NetAddr(ip), 0, 1, 0) }

  function SampleAddOp(ip: nat): Op {
    var x := SampleAdding(ip);
    AddOp(x.addr, x.source, x.penalty, x.now, x.draw)
  }

  function SampleGoodOp(ip: nat): Op { GoodOp(SampleAdding(ip).addr.service, true, 1) }

  // Two addresses with one tried slot: the first is tried, the second collides with it.
  function SampleCalls(): seq<Op> { [SampleAddOp(0), SampleGoodOp(0), SampleAddOp(1), SampleGoodOp(1)] }

  // From a new manager these calls leave id 1 pending. After Clear and two more additions id 1 is known, pending, and
  // its tried slot is free.
  lemma PendingOutlivesClear() returns (run: seq<State>)
    ensures IsRun(SampleHashing(), run, SampleCalls()) && run[0] == Cleared() && run[4].collisions == {1}
    ensures Dangling(SampleHashing(), Reused(SampleHashing(), run[4].collisions, [SampleAdding(0), SampleAdding(1)]), 1)
  {
    hide Core, CollisionsOk, Step, Reused, SampleHashing, SampleAdding;
    SampleFacts();
    run := CollidingRun(SampleHashing());
    TwoAdded(SampleHashing(), {1});
    DanglingAfterAdds(SampleHashing(), {1}, [SampleAdding(0), SampleAdding(1)], 1);
  }

  lemma SampleFacts()
    ensures SampleSlots(SampleHashing())
  {}

  ghost predicate SampleSlots(h: Hashing) {
    var a, b := SampleAdding(0), SampleAdding(1);
    && h.isRoutable(a.addr.service.net) && h.isRoutable(b.addr.service.net)
    && h.TriedSlot(a.addr.service) == h.TriedSlot(b.addr.service)
    && h.NewSlot(a.addr.service, a.source) != h.NewSlot(b.addr.service, b.source)
  }

  // Both additions to a cleared manager keep their ids.
  lemma TwoAdded(h: Hashing, pending: set<int>)
    requires SampleSlots(h)
    ensures 1 in Reused(h, pending, [SampleAdding(0), SampleAdding(1)]).mapInfo
  {
    hide Core, AddOne;
    EmptiedCore(h, pending);
    var s, a, b := Emptied(pending), SampleAdding(0), SampleAdding(1);
    AddOneKeeps(h, s, a);
    AddOneNew(h, s, a);
    var t := AddOne(h, s, a);
    AddOneNew(h, t, b);
    assert [a, b][..1] == [a] && [a][..0] == [];
    assert AddAll(h, s, []) == s;
    assert AddAll(h, s, [a]) == t;
  }

  // A manager that knows exactly one address knows its id and no other address.
  lemma OnlyKnown(h: Hashing, s: State, id: int, a: Service)
    requires Core(h, s, {}, 0) && s.mapInfo.Keys == {id} && s.mapInfo[id].service == a
    ensures Knows(s, a) && s.mapAddr[a.net] == id && s.mapAddr.Keys == {a.net}
  {
    hide TriedTable, NewTable, TriedIds, NewIds, RandomIndex, Counters, RefBounds, StatsOk, IdsBelow;
  }

  // With both tables otherwise empty, Good_ makes the one known address tried.
  lemma TriedAlone(h: Hashing, s: State, id: int, a: Service)
    requires Inv(h, s) && s.mapInfo.Keys == {id} && s.mapInfo[id].service == a && !s.mapInfo[id].fInTried
    requires s.vvTried == map[] && forall k :: k in s.vvNew ==> s.vvNew[k] == id
    ensures var t := Good(h, s, a, true, 1);
            && t.nIdCount == s.nIdCount && t.collisions == s.collisions && t.vvNew == map[]
            && t.vvTried.Keys == {h.TriedSlot(a)} && t.mapInfo.Keys == {id} && t.mapInfo[id].service == a
  {
    hide Core, CollisionsOk, MakeTried;
    OnlyKnown(h, s, id, a);
    var s1 := s.(nLastGood := 1);
    assert Core(h, s1, {}, 0) by { CoreSame(h, s, s1); }
    UpdateKeepsCore(h, s1, id, Succeeded(s.mapInfo[id], 1), {}, 0);
    var s2 := Update(s1, id, Succeeded(s.mapInfo[id], 1));
    MakeTriedEffect(h, s2, id);
  }

  lemma CoreSame(h: Hashing, s: State, t: State)
    requires Core(h, s, {}, 0) && t == s.(nLastGood := t.nLastGood)
    ensures Core(h, t, {}, 0)
  {
    hide AddrIndex, TriedTable, NewTable, RandomIndex, Counters, RefBounds, StatsOk, IdsBelow;
  }

  // The first address is added and becomes tried.
  lemma FirstTried(h: Hashing) returns (s1: State, s2: State)
    requires SampleSlots(h)
    ensures StepOf(h, Cleared(), SampleAddOp(0), s1) && StepOf(h, s1, SampleGoodOp(0), s2)
    ensures var a := SampleAdding(0).addr.service;
            && Inv(h, s2) && s2.nIdCount == 1 && s2.collisions == {} && s2.vvNew == map[]
            && h.TriedSlot(a) in s2.vvTried && s2.mapAddr.Keys == {a.net}
  {
    hide Core, CollisionsOk, Add, Good, Extends;
    var s, a := Cleared(), SampleAdding(0);
    ClearedInv(h);
    AddKeeps(h, s, a.addr, a.source, a.penalty, a.now, a.draw);
    AddOneKeeps(h, s, a);
    AddOneNew(h, s, a);
    s1 := AddOne(h, s, a);
    assert s1.mapInfo.Keys == {0};
    TriedAlone(h, s1, 0, a.addr.service);
    GoodKeeps(h, s1, a.addr.service, true, 1);
    s2 := Good(h, s1, a.addr.service, true, 1);
    OnlyKnown(h, s2, 0, a.addr.service);
  }

  // The second address is added and found to collide.
  lemma SecondCollides(h: Hashing, s2: State) returns (s3: State, s4: State)
    requires SampleSlots(h) && Inv(h, s2) && s2.nIdCount == 1 && s2.collisions == {} && s2.vvNew == map[]
    requires var a := SampleAdding(0).addr.service; h.TriedSlot(a) in s2.vvTried && s2.mapAddr.Keys == {a.net}
    ensures StepOf(h, s2, SampleAddOp(1), s3) && StepOf(h, s3, SampleGoodOp(1), s4) && s4.collisions == {1}
  {
    hide Core, CollisionsOk, Add, Extends, MakeTried;
    var b := SampleAdding(1);
    AddKeeps(h, s2, b.addr, b.source, b.penalty, b.now, b.draw);
    AddOneKeeps(h, s2, b);
    AddOneNew(h, s2, b);
    s3 := AddOne(h, s2, b);
    KnownById(h, s3, 1);
    s4 := Good(h, s3, b.addr.service, true, 1);
  }

  lemma KnownById(h: Hashing, s: State, id: int)
    requires Core(h, s, {}, 0) && id in s.mapInfo
    ensures Knows(s, s.mapInfo[id].service) && s.mapAddr[s.mapInfo[id].service.net] == id
  {}

  lemma CollidingRun(h: Hashing) returns (run: seq<State>)
    requires SampleSlots(h)
    ensures IsRun(h, run, SampleCalls()) && run[0] == Cleared() && run[4].collisions == {1}
  {
    hide StepOf, SampleSlots, SampleAddOp, SampleGoodOp, Inv;
    var s1, s2 := FirstTried(h);
    var s3, s4 := SecondCollides(h, s2);
    run := [Cleared(), s1, s2, s3, s4];
  }
}
