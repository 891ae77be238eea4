/**
  The address manager as the program keeps it: maps, a vector, two bucket arrays and counters,
  updated in place. Every method is tied to the operation of the same name on values.
 */
module AddrMan {
  import opened AddrManState
  import opened AddrManSteps
  import opened AddrManOps
  import opened Numbers

  ghost function Grid(rows: nat, cols: nat): set<Slot> {
    set b, p | 0 <= b < rows && 0 <= p < cols :: Slot(b, p)
  }

  // The occupied slots of a bucket array.
  ghost function Occupied(a: array2<int>): Table
    reads a
  {
    map k | k in Grid(a.Length0, a.Length1) && a[k.bucket, k.pos] != -1 :: a[k.bucket, k.pos]
  }

  method Put(a: array2<int>, k: Slot, v: int)
    requires k.bucket < a.Length0 && k.pos < a.Length1 && v != -1
    modifies a
    ensures Occupied(a) == old(Occupied(a))[k := v]
  {
    a[k.bucket, k.pos] := v;
    assert k in Grid(a.Length0, a.Length1);
  }

  method Free(a: array2<int>, k: Slot)
    requires k.bucket < a.Length0 && k.pos < a.Length1
    modifies a
    ensures Occupied(a) == old(Occupied(a)) - {k}
  {
    a[k.bucket, k.pos] := -1;
  }

  method At(a: array2<int>, k: Slot) returns (v: int)
    requires k.bucket < a.Length0 && k.pos < a.Length1
    ensures v == -1 <==> k !in Occupied(a)
    ensures v != -1 ==> Occupied(a)[k] == v
  {
    v := a[k.bucket, k.pos];
    assert k in Grid(a.Length0, a.Length1);
  }

  class AddrMan {
    var h: Hashing              // the hashing under nKey
    const vvTried: array2<int>
    const vvNew: array2<int>
    var nIdCount: int
    var mapInfo: map<int, AddrInfo>
    var mapAddr: map<NetAddr, int>
    var vRandom: seq<int>
    var nTried: int
    var nNew: int
    var nLastGood: int
    var triedCollisions: set<int>

    ghost predicate Shape() {
      && vvTried.Length0 == TRIED_BUCKET_COUNT && vvTried.Length1 == BUCKET_SIZE
      && vvNew.Length0 == NEW_BUCKET_COUNT && vvNew.Length1 == BUCKET_SIZE
      && vvTried != vvNew
    }

    ghost function View(): State
      reads this, vvTried, vvNew
    {
      State(nIdCount, mapInfo, mapAddr, vRandom, nTried, Occupied(vvTried), nNew, Occupied(vvNew), nLastGood,
          triedCollisions)
    }

    ghost predicate Valid()
      reads this, vvTried, vvNew
    {
      Shape() && Inv(h, View())
    }

    method Create(addr: Address, source: NetAddr) returns (id: int)
      requires Shape()
      modifies this
      ensures h == old(h)
      ensures View() == AddrManState.Create(old(View()), addr, source) && id == old(nIdCount)
    {
      id := nIdCount;
      nIdCount := nIdCount + 1;
      mapInfo := mapInfo[id := FreshInfo(addr, source)];
      mapAddr := mapAddr[addr.service.net := id];
      mapInfo := mapInfo[id := mapInfo[id].(nRandomPos := |vRandom|)];
      vRandom := vRandom + [id];
    }

    method SwapRandom(i: nat, j: nat)
      requires Shape() && RandomIndex(mapInfo, vRandom) && i < |vRandom| && j < |vRandom|
      modifies this`mapInfo, this`vRandom
      ensures View() == AddrManState.SwapRandom(old(View()), i, j)
    {
      if i == j { return; }
      var id1, id2 := vRandom[i], vRandom[j];
      assert id1 in mapInfo && id2 in mapInfo;
      mapInfo := mapInfo[id1 := mapInfo[id1].(nRandomPos := j)];
      mapInfo := mapInfo[id2 := mapInfo[id2].(nRandomPos := i)];
      vRandom := vRandom[i := id2];
      vRandom := vRandom[j := id1];
    }

    method Delete(id: int)
      requires Shape() && Deletable(View(), id)
      modifies this
      ensures h == old(h)
      ensures View() == AddrManState.Delete(old(View()), id)
    {
      assert !mapInfo[id].fInTried && mapInfo[id].nRefCount == 0;
      SwapRandom(mapInfo[id].nRandomPos, |vRandom| - 1);
      vRandom := vRandom[..|vRandom| - 1];
      mapAddr := mapAddr - {mapInfo[id].service.net};
      mapInfo := mapInfo - {id};
      nNew := nNew - 1;
    }

    method ClearNew(k: Slot)
      requires Shape() && k.bucket < NEW_BUCKET_COUNT && k.pos < BUCKET_SIZE
      requires k in View().vvNew ==> View().vvNew[k] in mapInfo && !mapInfo[View().vvNew[k]].fInTried
      requires k in View().vvNew ==> mapInfo[View().vvNew[k]].nRefCount > 0
      requires RandomIndex(mapInfo, vRandom)
      modifies this, vvNew
      ensures h == old(h)
      ensures View() == AddrManState.ClearNew(old(View()), k)
    {
      var idDelete := At(vvNew, k);
      if idDelete != -1 {
        assert mapInfo[idDelete].nRefCount > 0;
        ghost var s := View();
        mapInfo := WithRefCount(mapInfo, idDelete, mapInfo[idDelete].nRefCount - 1);
        Free(vvNew, k);
        assert View() == DropRef(s, k);
        if mapInfo[idDelete].nRefCount == 0 {
          Delete(idDelete);
        }
      }
    }

    // Id has left the buckets below n of table t, where its entry in m counted all its references.
    ghost predicate LeftBelow(m: Infos, t: Table, id: int, n: nat)
      reads this, vvNew
    {
      && id in m
      && mapInfo == WithRefCount(m, id, m[id].nRefCount - |RefsBelow(t, id, n)|)
      && Occupied(vvNew) == t - RefsBelow(t, id, n)
    }

    method LeaveBucket(id: int, bucket: nat, ghost m: Infos, ghost t: Table)
      requires Shape() && bucket < NEW_BUCKET_COUNT && NewTable(h, m, t) && id != -1 && LeftBelow(m, t, id, bucket)
      modifies this`mapInfo, vvNew
      ensures LeftBelow(m, t, id, bucket + 1)
    {
      hide NewTable, RefsBelow, Occupied, WithRefCount;
      RefCountTwice(m, id, m[id].nRefCount - |RefsBelow(t, id, bucket)|, 0);
      var k := h.NewSlotIn(bucket, mapInfo[id].service);
      var occupant := At(vvNew, k);
      RefsBelowNext(h, m, t, id, bucket);
      RefCountTwice(m, id, m[id].nRefCount - |RefsBelow(t, id, bucket)|,
          m[id].nRefCount - |RefsBelow(t, id, bucket + 1)|);
      if occupant == id {
        Free(vvNew, k);
        mapInfo := WithRefCount(mapInfo, id, mapInfo[id].nRefCount - 1);
        assert t - RefsBelow(t, id, bucket + 1) == t - RefsBelow(t, id, bucket) - {k};
      }
    }

    // The first loop of MakeTried, with the decrement of nNew.
    method LeaveNew(id: int)
      requires Shape() && id in mapInfo && NewTable(h, mapInfo, View().vvNew) && id != -1
      modifies this, vvNew
      ensures h == old(h)
      ensures View() == AddrManState.LeaveNew(old(View()), id)
    {
      hide NewTable, RefsBelow, Occupied;
      ghost var m, t := mapInfo, Occupied(vvNew);
      AllRefsBelow(h, m, t, id);
      for bucket := 0 to NEW_BUCKET_COUNT
        modifies this`mapInfo, vvNew
        invariant LeftBelow(m, t, id, bucket)
      {
        LeaveBucket(id, bucket, m, t);
      }
      nNew := nNew - 1;
    }

    // The eviction branch of MakeTried, while `moving` is in neither table.
    method Evict(k: Slot, ghost moving: int)
      requires Shape() && k.bucket < TRIED_BUCKET_COUNT && k.pos < BUCKET_SIZE && Evicting(h, View(), k, moving)
      modifies this, vvTried, vvNew
      ensures h == old(h)
      ensures View() == AddrManSteps.Evict(h, old(View()), k, moving)
    {
      hide AddrIndex, TriedTable, TriedIds, NewIds, RandomIndex, NewTable, Counters, StatsOk, RefBounds, Occupied;
      ghost var s := View();
      EvictKeepsCore(h, s, k, moving);
      var idEvict := At(vvTried, k);
      assert idEvict in mapInfo;
      mapInfo := WithTried(mapInfo, idEvict, false);
      Free(vvTried, k);
      nTried := nTried - 1;
      ghost var u := View();
      assert u == LeaveTried(s, k);
      var nk := h.NewSlot(mapInfo[idEvict].service, mapInfo[idEvict].source);
      LeftTriedCounts(h, s, k, moving, nk);
      ClearNew(nk);
      var now := At(vvNew, nk);
      assert now == -1;
      mapInfo := WithRefCount(mapInfo, idEvict, 1);
      Put(vvNew, nk, idEvict);
      nNew := nNew + 1;
    }

    method MakeTried(id: int)
      requires Shape() && Triable(h, View(), id)
      modifies this, vvTried, vvNew
      ensures h == old(h)
      ensures View() == AddrManOps.MakeTried(h, old(View()), id)
    {
      hide AddrIndex, TriedTable, TriedIds, NewIds, RandomIndex, NewTable, Counters, StatsOk, RefBounds, Occupied;
      ghost var s := View();
      LeaveNewKeepsCore(h, s, id);
      LeaveNew(id);
      assert mapInfo[id].nRefCount == 0;
      var k := h.TriedSlot(mapInfo[id].service);
      var occupant := At(vvTried, k);
      if occupant != -1 {
        EvictEffect(h, View(), k, id);
        Evict(k, id);
      }
      var now := At(vvTried, k);
      assert now == -1;
      Put(vvTried, k, id);
      nTried := nTried + 1;
      mapInfo := WithTried(mapInfo, id, true);
    }

    // Find by network address: the id, or -1.
    method Find(net: NetAddr) returns (id: int)
      requires Valid()
      ensures id == -1 <==> net !in mapAddr
      ensures id != -1 ==> id == mapAddr[net] && id in mapInfo && mapInfo[id].service.net == net
    {
      if net in mapAddr { id := mapAddr[net]; } else { id := -1; }
    }

    // The search in Good_ for a new bucket holding id, from a random bucket on: it always finds one.
    method FindNewBucket(id: int, rnd: nat) returns (found: int)
      requires Shape() && rnd < NEW_BUCKET_COUNT
      requires id in mapInfo && NewTable(h, mapInfo, Occupied(vvNew)) && mapInfo[id].nRefCount >= 1 && id != -1
      ensures 0 <= found < NEW_BUCKET_COUNT
      ensures var k := h.NewSlotIn(found, mapInfo[id].service); k in Occupied(vvNew) && Occupied(vvNew)[k] == id
    {
      hide NewTable, Occupied;
      found := -1;
      var n: nat := 0;
      while n < NEW_BUCKET_COUNT && found == -1
        invariant n <= NEW_BUCKET_COUNT
        invariant found == -1 ==> forall i: nat :: i < n ==> !HoldsAt(h, mapInfo, Occupied(vvNew), id, i, rnd)
        invariant found != -1 ==> 0 <= found < NEW_BUCKET_COUNT && Holds(h, mapInfo, Occupied(vvNew), id, found)
        decreases NEW_BUCKET_COUNT - n, found == -1
      {
        var b := (n + rnd) % NEW_BUCKET_COUNT;
        var v := At(vvNew, h.NewSlotIn(b, mapInfo[id].service));
        if v == id { found := b; }
        n := n + 1;
      }
      if found == -1 { SomeBucketHolds(h, mapInfo, Occupied(vvNew), id, rnd); }
    }

    method Good(addr: Service, testBeforeEvict: bool, time: int, rnd: nat)
      requires Valid() && time > 0 && rnd < NEW_BUCKET_COUNT
      modifies this, vvTried, vvNew
      ensures h == old(h)
      ensures View() == AddrManOps.Good(h, old(View()), addr, testBeforeEvict, time)
      ensures Valid()
    {
      hide AddrIndex, TriedTable, TriedIds, NewIds, RandomIndex, NewTable, Counters, CollisionsOk, Occupied,
          AddrManOps.MakeTried;
      ghost var s := View();
      GoodKeeps(h, s, addr, testBeforeEvict, time);
      var id := Find(addr.net);
      nLastGood := time;
      if id == -1 { return; }
      if mapInfo[id].service != addr { return; }
      UpdateKeepsCore(h, View(), id, Succeeded(mapInfo[id], time), {}, 0);
      mapInfo := mapInfo[id := Succeeded(mapInfo[id], time)];
      if mapInfo[id].fInTried { return; }
      var bucket := FindNewBucket(id, rnd);
      assert bucket != -1;
      var k := h.TriedSlot(mapInfo[id].service);
      var occupant := At(vvTried, k);
      if testBeforeEvict && occupant != -1 {
        if |triedCollisions| < TRIED_COLLISION_SIZE {
          triedCollisions := triedCollisions + {id};
        }
      } else {
        MakeTried(id);
      }
    }

    // The second half of Add_.
    method Insert(id: int, source: NetAddr, now: int, ghost loose: set<int>)
      requires Shape() && Insertable(h, View(), id, loose)
      modifies this, vvNew
      ensures h == old(h)
      ensures View() == AddrManOps.Insert(h, old(View()), id, source, now, loose)
    {
      hide AddrIndex, TriedTable, TriedIds, NewIds, RandomIndex, NewTable, Counters, Occupied, StatsOk, RefBounds;
      ghost var s := View();
      var k := h.NewSlot(mapInfo[id].service, source);
      var occupant := At(vvNew, k);
      if occupant != id {
        var insert := occupant == -1;
        if !insert {
          NewOccupant(h, s.mapInfo, s.vvNew, k);
          var existing := mapInfo[occupant];
          if existing.IsTerrible(now) || (existing.nRefCount > 1 && mapInfo[id].nRefCount == 0) {
            insert := true;
          }
        }
        if insert {
          ClearNewKeepsCore(h, s, k, loose, 0);
          ClearNew(k);
          assert id in s.mapInfo.Keys - Lost(s, k);
          mapInfo := WithRefCount(mapInfo, id, mapInfo[id].nRefCount + 1);
          Put(vvNew, k, id);
          assert View() == AddRef(AddrManState.ClearNew(s, k), k, id);
        } else if mapInfo[id].nRefCount == 0 {
          Delete(id);
        }
      }
    }

    method Add(addr: Address, source: NetAddr, timePenalty: int, now: int, rnd: nat) returns (fNew: bool)
      requires Valid()
      modifies this, vvNew
      ensures h == old(h)
      ensures (View(), fNew) == AddrManOps.Add(h, old(View()), addr, source, timePenalty, now, rnd)
      ensures Valid()
    {
      hide TriedTable, TriedIds, NewIds, RandomIndex, NewTable, Counters, Occupied, CollisionsOk, AddrManOps.Insert,
          Refreshed, AddrManOps.Add, Insertable, Core;
      ghost var s := View();
      AddKeeps(h, s, addr, source, timePenalty, now, rnd);
      if !h.isRoutable(addr.service.net) {
        AddRefused(h, s, addr, source, timePenalty, now, rnd);
        return false;
      }
      var penalty := if addr.service.net == source then 0 else timePenalty;
      var id := Find(addr.service.net);
      if id != -1 {
        var info := Refreshed(mapInfo[id], addr, penalty, now);
        AddKnownIs(h, s, addr, source, timePenalty, now, rnd);
        mapInfo := mapInfo[id := info];
        if AddsReference(info, addr, rnd) {
          Insert(id, source, now, {});
        }
        fNew := false;
      } else {
        AddNewIs(h, s, addr, source, timePenalty, now, rnd);
        id := Create(addr.(nTime := U32(Max(0, addr.nTime - penalty))), source);
        nNew := nNew + 1;
        fNew := true;
        Insert(id, source, now, {id});
      }
    }

    method Attempt(addr: Service, countFailure: bool, time: int)
      requires Valid() && time >= 0
      modifies this
      ensures h == old(h)
      ensures View() == Touch(old(View()), addr, i => Attempted(i, countFailure, time, old(nLastGood)))
      ensures Valid()
    {
      hide AddrIndex, TriedTable, TriedIds, NewIds, RandomIndex, NewTable, Counters, Occupied, CollisionsOk, RefBounds,
          StatsOk;
      var lastGood := nLastGood;
      TouchKeeps(h, View(), addr, i => Attempted(i, countFailure, time, lastGood));
      var id := Find(addr.net);
      if id == -1 { return; }
      if mapInfo[id].service != addr { return; }
      var info := mapInfo[id].(nLastTry := time);
      if countFailure && info.nLastCountAttempt < nLastGood {
        info := info.(nLastCountAttempt := time, nAttempts := info.nAttempts + 1);
      }
      mapInfo := mapInfo[id := info];
    }

    method Connected(addr: Service, time: int)
      requires Valid()
      modifies this
      ensures h == old(h)
      ensures View() == Touch(old(View()), addr, i => Seen(i, time))
      ensures Valid()
    {
      hide AddrIndex, TriedTable, TriedIds, NewIds, RandomIndex, NewTable, Counters, Occupied, CollisionsOk, RefBounds,
          StatsOk;
      TouchKeeps(h, View(), addr, i => Seen(i, time));
      var id := Find(addr.net);
      if id == -1 { return; }
      if mapInfo[id].service != addr { return; }
      if time - mapInfo[id].nTime > 20 * 60 {
        mapInfo := mapInfo[id := mapInfo[id].(nTime := U32(time))];
      } else {
        assert mapInfo == mapInfo[id := mapInfo[id]];
      }
    }

    method SetServices(addr: Service, services: set<nat>)
      requires Valid()
      modifies this
      ensures h == old(h)
      ensures View() == Touch(old(View()), addr, (i: AddrInfo) => i.(nServices := services))
      ensures Valid()
    {
      hide AddrIndex, TriedTable, TriedIds, NewIds, RandomIndex, NewTable, Counters, Occupied, CollisionsOk, RefBounds,
          StatsOk;
      TouchKeeps(h, View(), addr, (i: AddrInfo) => i.(nServices := services));
      var id := Find(addr.net);
      if id == -1 { return; }
      if mapInfo[id].service != addr { return; }
      mapInfo := mapInfo[id := mapInfo[id].(nServices := services)];
    }

    // One round of GetAddr_'s loop: draw an entry into position n and take it unless it is terrible.
    method TakeNext(n: nat, draw: nat, now: int, taken: seq<Address>) returns (vAddr: seq<Address>)
      requires Shape() && n < |vRandom| && RandomIndex(mapInfo, vRandom)
      modifies this`mapInfo, this`vRandom
      ensures var j := Draw(draw, n, |old(vRandom)|);
              View() == AddrManState.SwapRandom(old(View()), n, j)
      ensures RandomIndex(mapInfo, vRandom) && |vRandom| == |old(vRandom)| && vRandom[n] in mapInfo
      ensures vAddr == if mapInfo[vRandom[n]].IsTerrible(now) then taken else taken + [AddressOf(mapInfo[vRandom[n]])]
    {
      hide Draw, Occupied;
      var pos := Draw(draw, n, |vRandom|);
      SwapRandomIndex(View(), n, pos);
      SwapRandom(n, pos);
      assert vRandom[n] in mapInfo;
      var ai := mapInfo[vRandom[n]];
      vAddr := if ai.IsTerrible(now) then taken else taken + [AddressOf(ai)];
    }

    method GetAddr(draws: nat -> nat, clock: nat -> int) returns (vAddr: seq<Address>)
      requires Valid()
      modifies this
      ensures h == old(h)
      ensures (View(), vAddr) == GetAddrFrom(old(View()), 0, [], GetAddrLimit(|old(vRandom)|), draws, clock)
      ensures Answered(old(View()), View(), vAddr, GetAddrLimit(|vRandom|), clock)
      ensures Valid()
    {
      hide AddrIndex, TriedTable, TriedIds, NewIds, NewTable, Counters, Occupied, CollisionsOk, RefBounds, StatsOk,
          Usable, Answered,
        IdsBelow, RandomIndex, Draw;
      ghost var s := View();
      var limit := GetAddrLimit(|vRandom|);
      UsableNone(mapInfo, vRandom, clock);
      GetAddrAnswers(s, 0, [], limit, draws, clock);
      vAddr := [];
      var n := 0;
      while n < |vRandom| && |vAddr| < limit
        modifies this`mapInfo, this`vRandom
        invariant n <= |vRandom| == |s.vRandom| && RandomIndex(mapInfo, vRandom)
        invariant GetAddrFrom(s, 0, [], limit, draws, clock) == GetAddrFrom(View(), n, vAddr, limit, draws, clock)
        decreases |vRandom| - n
      {
        vAddr := TakeNext(n, draws(n), clock(n), vAddr);
        n := n + 1;
      }
      AnsweredKeeps(h, s, View(), vAddr, limit, clock);
      AnsweredSize(s, View(), vAddr, limit, clock);
    }

    // One pending collision of ResolveCollisions_; clock(i) is the i-th reading of the clock.
    method ResolveOne(id: int, clock: nat -> int, rnd: nat)
      requires Valid() && id in triedCollisions && rnd < NEW_BUCKET_COUNT && forall i :: clock(i) > 0
      modifies this, vvTried, vvNew
      ensures h == old(h)
      ensures View() == AddrManOps.ResolveOne(h, old(View()), id, clock)
      ensures Valid()
    {
      hide AddrIndex, TriedTable, TriedIds, NewIds, RandomIndex, NewTable, Counters, CollisionsOk, Occupied,
          AddrManOps.Good, RefBounds,
        StatsOk, IdsBelow;
      ghost var s := View();
      ResolveOneKeeps(h, s, id, clock);
      var erase := false;
      if id !in mapInfo {
        erase := true;
      } else {
        PendingHasRival(h, s, id);
        var k := h.TriedSlot(mapInfo[id].service);
        var rivalId := At(vvTried, k);
        if !h.isValid(mapInfo[id].service.net) {
          erase := true;
        } else if rivalId != -1 {
          var rival := mapInfo[rivalId];
          if clock(0) - rival.nLastSuccess < REPLACEMENT_HOURS * (60 * 60) {
            erase := true;
          } else if clock(1) - rival.nLastTry < REPLACEMENT_HOURS * (60 * 60) {
            if clock(2) - rival.nLastTry > 60 {
              Good(mapInfo[id].service, false, clock(3), rnd);
              erase := true;
            }
          }
        } else {
          assert false;
        }
      }
      if erase {
        triedCollisions := triedCollisions - {id};
      }
    }

    method ResolveCollisions(clocks: int -> nat -> int, rnd: nat)
      requires Valid() && rnd < NEW_BUCKET_COUNT && forall id, i :: clocks(id)(i) > 0
      modifies this, vvTried, vvNew
      ensures h == old(h)
      ensures View() == ResolveFrom(h, old(View()), old(triedCollisions), clocks)
      ensures Valid()
    {
      hide Core, CollisionsOk, Occupied, AddrManOps.ResolveOne;
      ghost var s := View();
      var todo := triedCollisions;
      while todo != {}
        invariant Valid() && todo <= triedCollisions
        invariant h == old(h)
        invariant ResolveFrom(h, s, s.collisions, clocks) == ResolveFrom(h, View(), todo, clocks)
        decreases |todo|
      {
        ghost var m := MinExists(todo);
        var id :| id in todo && forall x :: x in todo ==> id <= x;
        assert id == Least(todo);
        ResolveOneKeeps(h, View(), id, clocks(id));
        ResolveOne(id, clocks(id), rnd);
        todo := todo - {id};
      }
    }

    // Answers the tried entry that the pending id `pick` would displace; `pick` stands for the random draw.
    method SelectTriedCollision(pick: int) returns (rivals: seq<AddrInfo>)
      requires Valid() && (triedCollisions != {} ==> pick in triedCollisions)
      modifies this
      ensures h == old(h)
      ensures old(triedCollisions) != {} ==> View() == SelectCollision(h, old(View()), pick).0
      ensures old(triedCollisions) == {} ==> View() == old(View())
      ensures |rivals| == 1 <==> pick in old(triedCollisions) && pick in mapInfo
      ensures |rivals| <= 1
      ensures forall i :: i in rivals ==>
                i in mapInfo.Values && i.fInTried && pick in mapInfo
                    && h.TriedSlot(i.service) == h.TriedSlot(mapInfo[pick].service)
      ensures Valid()
    {
      hide AddrIndex, TriedIds, NewIds, RandomIndex, NewTable, Counters, Occupied, RefBounds, StatsOk, IdsBelow,
          CollisionsOk;
      rivals := [];
      if triedCollisions == {} { return; }
      if pick !in mapInfo {
        CollisionsLast(h, View(), View().(collisions := triedCollisions - {pick}));
        triedCollisions := triedCollisions - {pick};
        return;
      }
      PendingHasRival(h, View(), pick);
      var k := h.TriedSlot(mapInfo[pick].service);
      var id := At(vvTried, k);
      assert TriedSlotOk(h, mapInfo, k, id);
      rivals := [mapInfo[id]];
    }

    constructor (h: Hashing)
      ensures Valid() && View() == Cleared() && fresh(vvTried) && fresh(vvNew) && this.h == h
    {
      this.h := h;
      vvTried := new int[TRIED_BUCKET_COUNT, BUCKET_SIZE];
      vvNew := new int[NEW_BUCKET_COUNT, BUCKET_SIZE];
      triedCollisions := {};
      new;
      Clear(h);
      ClearedInv(h);
    }

    // Clear, which leaves the pending collisions as they are.
    method Clear(newKey: Hashing)
      requires Shape()
      modifies this, vvTried, vvNew
      ensures h == newKey && View() == Cleared().(collisions := old(triedCollisions))
    {
      vRandom := [];
      h := newKey;
      Wipe(vvNew);
      Wipe(vvTried);
      nIdCount, nTried, nNew, nLastGood := 0, 0, 0, 1;
      mapInfo, mapAddr := map[], map[];
    }
  }

  method Wipe(a: array2<int>)
    modifies a
    ensures Occupied(a) == map[]
  {
    for bucket := 0 to a.Length0
      invariant forall b, p :: 0 <= b < bucket && 0 <= p < a.Length1 ==> a[b, p] == -1
    {
      for entry := 0 to a.Length1
        invariant forall b, p :: 0 <= b < bucket && 0 <= p < a.Length1 ==> a[b, p] == -1
        invariant forall p :: 0 <= p < entry ==> a[bucket, p] == -1
      {
        a[bucket, entry] := -1;
      }
    }
    assert Occupied(a) == map[];
  }

  lemma AnsweredSize(s: State, t: State, out: seq<Address>, limit: nat, clock: nat -> int)
    requires Answered(s, t, out, limit, clock)
    ensures |t.vRandom| == |s.vRandom|
  {}

  lemma UsableNone(m: Infos, vRandom: seq<int>, clock: nat -> int)
    ensures Usable(m, vRandom[..0], clock) == []
  {}

  // Bucket b of the new table holds id.
  ghost predicate Holds(h: Hashing, m: Infos, vvNew: Table, id: int, b: nat)
    requires id in m
  {
    h.NewSlotIn(b, m[id].service) in vvNew && vvNew[h.NewSlotIn(b, m[id].service)] == id
  }

  // The i-th bucket looked at, starting from rnd, holds id.
  ghost predicate HoldsAt(h: Hashing, m: Infos, vvNew: Table, id: int, i: nat, rnd: nat)
    requires id in m
  {
    Holds(h, m, vvNew, id, (i + rnd) % NEW_BUCKET_COUNT)
  }

  lemma SomeBucketHolds(h: Hashing, m: Infos, vvNew: Table, id: int, rnd: nat)
    requires id in m && NewTable(h, m, vvNew) && m[id].nRefCount >= 1 && rnd < NEW_BUCKET_COUNT
    ensures exists i: nat :: i < NEW_BUCKET_COUNT && HoldsAt(h, m, vvNew, id, i, rnd)
  {
    assert Refs(vvNew, id) != {};
    var k :| k in Refs(vvNew, id);
    assert NewSlotOk(h, m, k, vvNew[k]);
    assert Holds(h, m, vvNew, id, k.bucket);
    var i := if k.bucket >= rnd then k.bucket - rnd else k.bucket + NEW_BUCKET_COUNT - rnd;
    assert (i + rnd) % NEW_BUCKET_COUNT == k.bucket;
    assert HoldsAt(h, m, vvNew, id, i, rnd);
  }

  lemma LeftTriedCounts(h: Hashing, s: State, k: Slot, moving: int, nk: Slot)
    requires Evicting(h, s, k, moving) && s.vvTried[k] in s.mapInfo
    ensures var u := LeaveTried(s, k);
            nk in u.vvNew ==> u.vvNew[nk] in u.mapInfo && u.mapInfo[u.vvNew[nk]].nRefCount > 0
  {
    if nk in s.vvNew {
      hide AddrIndex, TriedTable, TriedIds, NewIds, RandomIndex, NewTable, Counters, StatsOk, RefBounds;
      NewOccupant(h, s.mapInfo, s.vvNew, nk);
    }
  }

  lemma RefCountTwice(m: Infos, id: int, a: int, b: int)
    requires id in m
    ensures id in WithRefCount(m, id, a) && WithRefCount(m, id, a)[id] == m[id].(nRefCount := a)
    ensures WithRefCount(WithRefCount(m, id, a), id, b) == WithRefCount(m, id, b)
  {}

  // The slots of the new table in buckets below n that hold id.
  ghost function RefsBelow(vvNew: Table, id: int, n: nat): set<Slot> {
    set k | k in vvNew && vvNew[k] == id && k.bucket < n
  }

  // Bucket n holds id in at most one slot, the one LeaveNew looks at.
  lemma RefsBelowNext(h: Hashing, m: Infos, vvNew: Table, id: int, n: nat)
    requires id in m && NewTable(h, m, vvNew)
    ensures var k := h.NewSlotIn(n, m[id].service);
            && k !in RefsBelow(vvNew, id, n)
            && RefsBelow(vvNew, id, n + 1) ==
               if k in vvNew && vvNew[k] == id then RefsBelow(vvNew, id, n) + {k} else RefsBelow(vvNew, id, n)
  {
    var k := h.NewSlotIn(n, m[id].service);
    forall q | q in vvNew && vvNew[q] == id && q.bucket == n ensures q == k {
      assert NewSlotOk(h, m, q, vvNew[q]);
    }
  }

  lemma AllRefsBelow(h: Hashing, m: Infos, vvNew: Table, id: int)
    requires NewTable(h, m, vvNew)
    ensures RefsBelow(vvNew, id, 0) == {}
    ensures RefsBelow(vvNew, id, NEW_BUCKET_COUNT) == Refs(vvNew, id)
  {
    assert forall k :: k in Refs(vvNew, id) ==> NewSlotOk(h, m, k, vvNew[k]);
  }
}
