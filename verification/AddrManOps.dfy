/** The address manager's operations on values, and what every one of them keeps. */
module AddrManOps {
  import opened AddrManState
  import opened AddrManSteps
  import opened Numbers

  // Time stamps are stored in 32 bits.
  function U32(x: int): int { x % 0x1_0000_0000 }

  // ---------------------------------------------------------------- MakeTried

  ghost predicate Triable(h: Hashing, s: State, id: int) {
    Core(h, s, {}, 0) && id in s.mapInfo && !s.mapInfo[id].fInTried && s.mapInfo[id].nLastSuccess > 0
  }

  function MakeTried(h: Hashing, s: State, id: int): State
    requires Triable(h, s, id)
  {
    LeaveNewKeepsCore(h, s, id);
    hide AddrIndex, TriedTable, NewTable, TriedIds, NewIds, RandomIndex, RefBounds, StatsOk, IdsBelow, Counters;
    var t := LeaveNew(s, id);
    var k := h.TriedSlot(s.mapInfo[id].service);
    if k in t.vvTried then
      EvictEffect(h, t, k, id);
      EnterTried(Evict(h, t, k, id), k, id)
    else EnterTried(t, k, id)
  }

  // MakeTried keeps the invariant, puts id into its tried slot and out of the new table, and touches other
  // entries only through the eviction: the evicted entry takes its own new slot with one reference, and the entry
  // it displaces there loses one reference, or is deleted if that was its last.
  lemma MakeTriedEffect(h: Hashing, s: State, id: int)
    requires Triable(h, s, id)
    ensures var t := MakeTried(h, s, id);
            var k := h.TriedSlot(s.mapInfo[id].service);
            var free := s.vvNew - Refs(s.vvNew, id);
            && Core(h, t, {}, 0)
            && t.vvTried == s.vvTried[k := id]
            && t.nIdCount == s.nIdCount && t.collisions == s.collisions && t.nLastGood == s.nLastGood
            && id in t.mapInfo
            && t.mapInfo[id] == s.mapInfo[id].(fInTried := true, nRefCount := 0, nRandomPos := t.mapInfo[id].nRandomPos)
            && (k !in s.vvTried ==> t.vvNew == free && t.mapInfo.Keys == s.mapInfo.Keys
                                    && forall x :: x in t.mapInfo && x != id ==> t.mapInfo[x] == s.mapInfo[x])
            && (k in s.vvTried ==>
                  var e := s.vvTried[k];
                  && e in s.mapInfo && e != id
                  && (var nk := h.NewSlot(s.mapInfo[e].service, s.mapInfo[e].source);
                      && t.vvNew == free[nk := e]
                      && t.mapInfo.Keys == s.mapInfo.Keys - Lost(s.(vvNew := free), nk)
                      && forall x :: x in t.mapInfo && x != id ==> EvictedInfo(s.(vvNew := free), t, nk, e, x)))
  {
    hide AddrIndex, TriedTable, NewTable, TriedIds, NewIds, RandomIndex, RefBounds, StatsOk, IdsBelow, Counters, Refs;
    LeaveNewKeepsCore(h, s, id);
    var t := LeaveNew(s, id);
    var k := h.TriedSlot(s.mapInfo[id].service);
    assert t.mapInfo.Keys == s.mapInfo.Keys;
    if k in t.vvTried {
      EvictEffect(h, t, k, id);
      var u := Evict(h, t, k, id);
      assert EvictedInfo(t, u, h.NewSlot(t.mapInfo[t.vvTried[k]].service, t.mapInfo[t.vvTried[k]].source), t.vvTried[k],
          id);
      EnterTriedKeepsCore(h, u, id, 1);
      EvictedOther(h, s, t, u, k, id);
    } else {
      EnterTriedKeepsCore(h, t, id, 1);
    }
  }

  lemma EvictedOther(h: Hashing, s: State, t: State, u: State, k: Slot, id: int)
    requires Core(h, t, {id}, 1) && id in s.mapInfo && t == LeaveNew(s, id)
    requires t.mapInfo == WithRefCount(s.mapInfo, id, 0)
    requires k in t.vvTried && t.vvTried[k] in t.mapInfo && t.vvTried[k] != id
    requires var nk := h.NewSlot(t.mapInfo[t.vvTried[k]].service, t.mapInfo[t.vvTried[k]].source);
             && u.mapInfo.Keys == t.mapInfo.Keys - Lost(t, nk)
             && forall x :: x in u.mapInfo ==> EvictedInfo(t, u, nk, t.vvTried[k], x)
    ensures var nk := h.NewSlot(t.mapInfo[t.vvTried[k]].service, t.mapInfo[t.vvTried[k]].source);
            var s2 := s.(vvNew := s.vvNew - Refs(s.vvNew, id));
            && u.mapInfo.Keys == s.mapInfo.Keys - Lost(s2, nk)
            && forall x :: x in u.mapInfo && x != id ==> EvictedInfo(s2, u, nk, t.vvTried[k], x)
  {
    hide AddrIndex, TriedTable, TriedIds, NewIds, RandomIndex, RefBounds, StatsOk, IdsBelow, Counters, NewTable;
    var nk := h.NewSlot(t.mapInfo[t.vvTried[k]].service, t.mapInfo[t.vvTried[k]].source);
    var s2 := s.(vvNew := s.vvNew - Refs(s.vvNew, id));
    assert t.mapInfo.Keys == s.mapInfo.Keys;
    if nk in t.vvNew { assert t.vvNew[nk] != id; }
    assert Lost(t, nk) == Lost(s2, nk);
    forall x | x in u.mapInfo && x != id ensures EvictedInfo(s2, u, nk, t.vvTried[k], x) {
      assert EvictedInfo(t, u, nk, t.vvTried[k], x);
    }
  }

  // ---------------------------------------------------------------- what lasts

  // Between s and a later t: occupied tried slots stay occupied, ids only grow, and an entry of t is an
  // entry of s under the same id with the same service, or has an id s had not given out.
  ghost predicate Extends(s: State, t: State) {
    && s.vvTried.Keys <= t.vvTried.Keys
    && s.nIdCount <= t.nIdCount
    && (forall x :: x in t.mapInfo ==>
        s.nIdCount <= x || (x in s.mapInfo && t.mapInfo[x].service == s.mapInfo[x].service))
  }

  lemma ExtendsTransitive(s: State, t: State, u: State)
    requires Extends(s, t) && Extends(t, u)
    ensures Extends(s, u)
  {}

  lemma SubsetSize<T>(a: set<T>, b: set<T>)
    requires a <= b
    ensures |a| <= |b|
  {
    assert b == a + (b - a);
  }

  lemma CollisionsLast(h: Hashing, s: State, t: State)
    requires CollisionsOk(h, s) && Extends(s, t) && t.collisions <= s.collisions
    ensures CollisionsOk(h, t)
  {
    SubsetSize(t.collisions, s.collisions);
  }

  lemma MakeTriedExtends(h: Hashing, s: State, id: int)
    requires Triable(h, s, id)
    ensures Extends(s, MakeTried(h, s, id))
    ensures Core(h, MakeTried(h, s, id), {}, 0) && MakeTried(h, s, id).collisions == s.collisions
  {
    hide Core, Refs, MakeTried;
    MakeTriedEffect(h, s, id);
    var t := MakeTried(h, s, id);
    forall x | x in t.mapInfo ensures x in s.mapInfo && t.mapInfo[x].service == s.mapInfo[x].service {
      assert x in t.mapInfo.Keys;
    }
  }

  // ---------------------------------------------------------------- Good_

  function Succeeded(i: AddrInfo, t: int): AddrInfo {
    i.(nLastSuccess := t, nLastTry := t, nAttempts := 0)
  }

  // The id of the entry for exactly this service, if there is one.
  ghost predicate Knows(s: State, a: Service) {
    a.net in s.mapAddr && s.mapAddr[a.net] in s.mapInfo && s.mapInfo[s.mapAddr[a.net]].service == a
  }

  ghost function Good(h: Hashing, s: State, a: Service, testBeforeEvict: bool, t: int): State
    requires Core(h, s, {}, 0) && t > 0
  {
    var s1 := s.(nLastGood := t);
    if !Knows(s, a) then s1 else
    var id := s.mapAddr[a.net];
    var s2 := Update(s1, id, Succeeded(s.mapInfo[id], t));
    if s.mapInfo[id].fInTried then s2
    else if testBeforeEvict && h.TriedSlot(a) in s.vvTried then
      if |s.collisions| < TRIED_COLLISION_SIZE then s2.(collisions := s.collisions + {id}) else s2
    else
      UpdateKeepsCore(h, s1, id, Succeeded(s.mapInfo[id], t), {}, 0);
      MakeTried(h, s2, id)
  }

  lemma GoodKeeps(h: Hashing, s: State, a: Service, testBeforeEvict: bool, t: int)
    requires Inv(h, s) && t > 0
    ensures var u := Good(h, s, a, testBeforeEvict, t);
            Inv(h, u) && Extends(s, u) && (!testBeforeEvict ==> u.collisions == s.collisions)
  {
    hide AddrIndex, TriedTable, NewTable, TriedIds, NewIds, RandomIndex, RefBounds, Counters, MakeTried;
    var s1 := s.(nLastGood := t);
    if Knows(s, a) {
      var id := s.mapAddr[a.net];
      UpdateKeepsCore(h, s1, id, Succeeded(s.mapInfo[id], t), {}, 0);
      var s2 := Update(s1, id, Succeeded(s.mapInfo[id], t));
      if !s.mapInfo[id].fInTried && !(testBeforeEvict && h.TriedSlot(a) in s.vvTried) {
        MakeTriedExtends(h, s2, id);
        CollisionsLast(h, s2, MakeTried(h, s2, id));
      }
    }
  }

  // ---------------------------------------------------------------- Add_

  ghost predicate Insertable(h: Hashing, s: State, id: int, loose: set<int>) {
    && Core(h, s, loose, 0) && id in s.mapInfo && !s.mapInfo[id].fInTried && loose <= {id}
    && s.mapInfo[id].nRefCount < NEW_BUCKETS_PER_ADDRESS
    && (id in loose ==> s.mapInfo[id].nRefCount == 0)
  }

  // The second half of Add_: reference entry id from the bucket chosen by the announcing source.
  ghost function Insert(h: Hashing, s: State, id: int, source: NetAddr, now: int, loose: set<int>): State
    requires Insertable(h, s, id, loose)
  {
    var k := h.NewSlot(s.mapInfo[id].service, source);
    if k in s.vvNew && s.vvNew[k] == id then s
    else if k !in s.vvNew then AddRef(s, k, id)
    else
      NewOccupant(h, s.mapInfo, s.vvNew, k);
      var existing := s.mapInfo[s.vvNew[k]];
      if existing.IsTerrible(now) || (existing.nRefCount > 1 && s.mapInfo[id].nRefCount == 0) then
        ClearNewKeepsCore(h, s, k, loose, 0);
        AddRef(ClearNew(s, k), k, id)
      else if s.mapInfo[id].nRefCount == 0 then Delete(s, id)
      else s
  }

  lemma InsertKeeps(h: Hashing, s: State, id: int, source: NetAddr, now: int, loose: set<int>)
    requires Insertable(h, s, id, loose)
    ensures var t := Insert(h, s, id, source, now, loose);
            Core(h, t, {}, 0) && Extends(s, t) && t.collisions == s.collisions
  {
    hide AddrIndex, TriedTable, NewTable, TriedIds, NewIds, RandomIndex, Counters, StatsOk, IdsBelow;
    var k := h.NewSlot(s.mapInfo[id].service, source);
    assert loose - {id} == {};
    if k in s.vvNew && s.vvNew[k] == id {
      NewOccupant(h, s.mapInfo, s.vvNew, k);
      assert RefBounds(s.mapInfo, {});
    } else if k !in s.vvNew {
      assert NewSlotOk(h, s.mapInfo, k, id);
      AddRefKeepsCore(h, s, k, id, loose, 0);
    } else {
      NewOccupant(h, s.mapInfo, s.vvNew, k);
      var existing := s.mapInfo[s.vvNew[k]];
      if existing.IsTerrible(now) || (existing.nRefCount > 1 && s.mapInfo[id].nRefCount == 0) {
        ClearNewKeepsCore(h, s, k, loose, 0);
        var t := ClearNew(s, k);
        assert id in s.mapInfo.Keys - Lost(s, k);
        assert NewSlotOk(h, t.mapInfo, k, id);
        AddRefKeepsCore(h, t, k, id, loose, 0);
        assert forall x :: x in t.mapInfo ==> x in t.mapInfo.Keys;
      } else if s.mapInfo[id].nRefCount == 0 {
        DeleteKeepsCore(h, s, id, loose, 0);
        DeleteIndexes(h, s, id);
        assert forall x :: x in Delete(s, id).mapInfo ==> x in Delete(s, id).mapInfo.Keys;
      } else {
        assert RefBounds(s.mapInfo, {});
      }
    }
  }

  function Refreshed(i: AddrInfo, a: Address, penalty: int, now: int): AddrInfo {
    var interval := if now - a.nTime < 24 * 60 * 60 then 60 * 60 else 24 * 60 * 60;
    var i1 := if a.nTime != 0 && (i.nTime == 0 || i.nTime < a.nTime - interval - penalty)
              then i.(nTime := U32(Max(0, a.nTime - penalty))) else i;
    i1.(nServices := i1.nServices + a.nServices)
  }

  // Whether Add_ goes on to add one more reference to a known entry; rnd stands for the random draw.
  predicate AddsReference(i: AddrInfo, a: Address, rnd: nat) {
    && a.nTime != 0 && (i.nTime == 0 || a.nTime > i.nTime)
    && !i.fInTried
    && i.nRefCount != NEW_BUCKETS_PER_ADDRESS
    && rnd % Pow2(Max(0, i.nRefCount)) == 0
  }

  ghost function Add(h: Hashing, s: State, a: Address, source: NetAddr, penalty0: int, now: int, rnd: nat): (State,
      bool)
    requires Core(h, s, {}, 0)
  {
    hide Core, Insertable, Insert;
    var net := a.service.net;
    if !h.isRoutable(net) then (s, false) else
    var penalty := if net == source then 0 else penalty0;
    if net in s.mapAddr then
      AddKnownKeeps(h, s, a, source, penalty, now, rnd);
      var id := s.mapAddr[net];
      var info := Refreshed(s.mapInfo[id], a, penalty, now);
      var t := Update(s, id, info);
      if AddsReference(info, a, rnd) then (Insert(h, t, id, source, now, {}), false)
      else (t, false)
    else
      AddNewKeeps(h, s, a, source, penalty, now);
      (Insert(h, Created(s, a, source, penalty), s.nIdCount, source, now, {s.nIdCount}), true)
  }

  function Created(s: State, a: Address, source: NetAddr, penalty: int): State {
    Create(s, a.(nTime := U32(Max(0, a.nTime - penalty))), source).(nNew := s.nNew + 1)
  }

  lemma AddKeeps(h: Hashing, s: State, a: Address, source: NetAddr, penalty0: int, now: int, rnd: nat)
    requires Inv(h, s)
    ensures var t := Add(h, s, a, source, penalty0, now, rnd).0;
            Inv(h, t) && Extends(s, t) && t.collisions == s.collisions
  {
    var net := a.service.net;
    var penalty := if net == source then 0 else penalty0;
    var t := Add(h, s, a, source, penalty0, now, rnd).0;
    assert Core(h, t, {}, 0) && Extends(s, t) && t.collisions == s.collisions by {
      if h.isRoutable(net) {
        if net in s.mapAddr {
          AddKnownKeeps(h, s, a, source, penalty, now, rnd);
        } else {
          AddNewKeeps(h, s, a, source, penalty, now);
        }
      }
    }
    hide Core, Extends, Add;
    CollisionsLast(h, s, t);
  }

  lemma AddRefused(h: Hashing, s: State, a: Address, source: NetAddr, penalty0: int, now: int, rnd: nat)
    requires Core(h, s, {}, 0) && !h.isRoutable(a.service.net)
    ensures Add(h, s, a, source, penalty0, now, rnd) == (s, false)
  {}

  // The two cases of Add_ for a routable address, one by one.
  lemma AddKnownIs(h: Hashing, s: State, a: Address, source: NetAddr, penalty0: int, now: int, rnd: nat)
    requires Core(h, s, {}, 0) && h.isRoutable(a.service.net) && a.service.net in s.mapAddr
    ensures var id := s.mapAddr[a.service.net];
            id in s.mapInfo &&
            var info := Refreshed(s.mapInfo[id], a, if a.service.net == source then 0 else penalty0, now);
            var t := Update(s, id, info);
            && (!AddsReference(info, a, rnd) ==> Add(h, s, a, source, penalty0, now, rnd) == (t, false))
            && (AddsReference(info, a, rnd) ==>
                  && Insertable(h, t, id, {})
                  && Add(h, s, a, source, penalty0, now, rnd) == (Insert(h, t, id, source, now, {}), false))
  {
    hide Core, Insert, Insertable, Refreshed, AddsReference;
    AddKnownKeeps(h, s, a, source, if a.service.net == source then 0 else penalty0, now, rnd);
  }

  lemma AddNewIs(h: Hashing, s: State, a: Address, source: NetAddr, penalty0: int, now: int, rnd: nat)
    requires Core(h, s, {}, 0) && h.isRoutable(a.service.net) && a.service.net !in s.mapAddr
    ensures var t := Created(s, a, source, if a.service.net == source then 0 else penalty0);
            && Insertable(h, t, s.nIdCount, {s.nIdCount})
            && Add(h, s, a, source, penalty0, now, rnd) ==
               (Insert(h, t, s.nIdCount, source, now, {s.nIdCount}), true)
  {
    hide Core, Insert, Insertable, Created;
    AddNewKeeps(h, s, a, source, if a.service.net == source then 0 else penalty0, now);
  }

  lemma AddKnownKeeps(h: Hashing, s: State, a: Address, source: NetAddr, penalty: int, now: int, rnd: nat)
    requires Core(h, s, {}, 0) && a.service.net in s.mapAddr
    ensures var id := s.mapAddr[a.service.net];
            id in s.mapInfo &&
            var info := Refreshed(s.mapInfo[id], a, penalty, now);
            var t := Update(s, id, info);
            && Core(h, t, {}, 0) && Extends(s, t) && t.collisions == s.collisions
            && (AddsReference(info, a, rnd) ==>
                  && Insertable(h, t, id, {})
                  && (var u := Insert(h, t, id, source, now, {});
                      Core(h, u, {}, 0) && Extends(s, u) && u.collisions == s.collisions))
  {
    hide TriedTable, NewTable, TriedIds, NewIds, RandomIndex, Counters, Insert;
    var id := s.mapAddr[a.service.net];
    var info := Refreshed(s.mapInfo[id], a, penalty, now);
    UpdateKeepsCore(h, s, id, info, {}, 0);
    var t := Update(s, id, info);
    if AddsReference(info, a, rnd) {
      InsertKeeps(h, t, id, source, now, {});
      ExtendsTransitive(s, t, Insert(h, t, id, source, now, {}));
    }
  }

  lemma AddNewKeeps(h: Hashing, s: State, a: Address, source: NetAddr, penalty: int, now: int)
    requires Core(h, s, {}, 0) && a.service.net !in s.mapAddr
    ensures var t := Created(s, a, source, penalty);
            Insertable(h, t, s.nIdCount, {s.nIdCount}) &&
            var u := Insert(h, t, s.nIdCount, source, now, {s.nIdCount});
            Core(h, u, {}, 0) && Extends(s, u) && u.collisions == s.collisions
  {
    hide TriedTable, NewTable, TriedIds, NewIds, RandomIndex, Counters, Insert;
    CreateKeepsCore(h, s, a.(nTime := U32(Max(0, a.nTime - penalty))), source);
    var t := Created(s, a, source, penalty);
    InsertKeeps(h, t, s.nIdCount, source, now, {s.nIdCount});
    ExtendsTransitive(s, t, Insert(h, t, s.nIdCount, source, now, {s.nIdCount}));
  }

  // ---------------------------------------------------------------- Attempt_, Connected_, SetServices_

  function Attempted(i: AddrInfo, countFailure: bool, t: int, nLastGood: int): AddrInfo {
    var i1 := i.(nLastTry := t);
    if countFailure && i.nLastCountAttempt < nLastGood then i1.(nLastCountAttempt := t, nAttempts := i.nAttempts + 1)
        else i1
  }

  function Seen(i: AddrInfo, t: int): AddrInfo {
    if t - i.nTime > 20 * 60 then i.(nTime := U32(t)) else i
  }

  ghost function Touch(s: State, a: Service, f: AddrInfo -> AddrInfo): State {
    if !Knows(s, a) then s else Update(s, s.mapAddr[a.net], f(s.mapInfo[s.mapAddr[a.net]]))
  }

  lemma TouchKeeps(h: Hashing, s: State, a: Service, f: AddrInfo -> AddrInfo)
    requires Inv(h, s)
    requires forall i :: f(i).service == i.service && f(i).nRefCount == i.nRefCount && f(i).fInTried == i.fInTried
                         && f(i).nRandomPos == i.nRandomPos && f(i).nLastSuccess == i.nLastSuccess
                         && (i.nLastTry >= 0 ==> f(i).nLastTry >= 0)
    ensures Inv(h, Touch(s, a, f)) && Extends(s, Touch(s, a, f))
  {
    hide AddrIndex, TriedTable, NewTable, TriedIds, NewIds, RandomIndex, Counters, RefBounds;
    if Knows(s, a) {
      UpdateKeepsCore(h, s, s.mapAddr[a.net], f(s.mapInfo[s.mapAddr[a.net]]), {}, 0);
    }
  }

  // ---------------------------------------------------------------- GetAddr_

  function AddressOf(i: AddrInfo): Address { Address(i.service, i.nServices, i.nTime) }

  function GetAddrLimit(size: nat): nat {
    var n := GETADDR_MAX_PCT * size / 100;
    if n > GETADDR_MAX then GETADDR_MAX else n
  }

  // The position drawn for n among those not before it: RandomInt(size - n) + n.
  function Draw(rnd: nat, n: nat, size: nat): (j: nat)
    requires n < size
    ensures n <= j < size
  {
    rnd % (size - n) + n
  }

  // The loop of GetAddr_ from position n on: each position is swapped with a draw from the positions not before
  // it, and the entry now there is taken unless it is terrible at that moment.
  function GetAddrFrom(s: State, n: nat, taken: seq<Address>, limit: nat, rnd: nat -> nat, clock: nat -> int): (State,
      seq<Address>)
    requires RandomIndex(s.mapInfo, s.vRandom) && n <= |s.vRandom|
    decreases |s.vRandom| - n
  {
    if n == |s.vRandom| || |taken| >= limit then (s, taken) else
    var j := Draw(rnd(n), n, |s.vRandom|);
    SwapRandomIndex(s, n, j);
    var t := SwapRandom(s, n, j);
    var ai := t.mapInfo[t.vRandom[n]];
    GetAddrFrom(t, n + 1, if ai.IsTerrible(clock(n)) then taken else taken + [AddressOf(ai)], limit, rnd, clock)
  }

  // The entries of ids that were not terrible when their position was examined.
  function Usable(m: Infos, ids: seq<int>, clock: nat -> int): seq<Address>
    requires forall i :: 0 <= i < |ids| ==> ids[i] in m
  {
    if ids == [] then [] else
    var n := |ids| - 1;
    var rest := Usable(m, ids[..n], clock);
    if m[ids[n]].IsTerrible(clock(n)) then rest else rest + [AddressOf(m[ids[n]])]
  }

  lemma {:induction false} UsableSame(m: Infos, m2: Infos, ids: seq<int>, clock: nat -> int)
    requires SameButPos(m, m2)
    requires forall i :: 0 <= i < |ids| ==> ids[i] in m
    ensures forall i :: 0 <= i < |ids| ==> ids[i] in m2
    ensures Usable(m, ids, clock) == Usable(m2, ids, clock)
  {
    forall i | 0 <= i < |ids| ensures ids[i] in m2 { assert ids[i] in m.Keys; }
    if ids != [] {
      UsableSame(m, m2, ids[..|ids| - 1], clock);
      var id := ids[|ids| - 1];
      assert id in m;
      assert m2[id] == m[id].(nRandomPos := m2[id].nRandomPos);
    }
  }

  // What GetAddr_ has done when it ends: t is s with vRandom reordered, and the answer is the usable entries of a
  // prefix of the new order: of all of it, unless the limit was reached.
  ghost predicate Answered(s: State, t: State, out: seq<Address>, limit: nat, clock: nat -> int) {
    && RandomIndex(t.mapInfo, t.vRandom)
    && SameButPos(s.mapInfo, t.mapInfo)
    && t == s.(mapInfo := t.mapInfo, vRandom := t.vRandom)
    && |t.vRandom| == |s.vRandom|
    && |out| <= limit
    && exists k :: AnswerTo(t, k, out, limit, clock)
  }

  ghost predicate AnswerTo(t: State, k: nat, out: seq<Address>, limit: nat, clock: nat -> int)
    requires RandomIndex(t.mapInfo, t.vRandom)
  {
    k <= |t.vRandom| && out == Usable(t.mapInfo, t.vRandom[..k], clock) && (k == |t.vRandom| || |out| == limit)
  }

  lemma GetAddrStep(s: State, n: nat, j: nat, taken: seq<Address>, clock: nat -> int)
    requires RandomIndex(s.mapInfo, s.vRandom) && n <= j < |s.vRandom|
    requires taken == Usable(s.mapInfo, s.vRandom[..n], clock)
    ensures var t := SwapRandom(s, n, j);
            && RandomIndex(t.mapInfo, t.vRandom) && SameButPos(s.mapInfo, t.mapInfo)
            && (var ai := t.mapInfo[t.vRandom[n]];
                (if ai.IsTerrible(clock(n)) then taken else taken + [AddressOf(ai)]) == Usable(t.mapInfo,
                    t.vRandom[..n + 1], clock))
  {
    SwapRandomIndex(s, n, j);
    var t := SwapRandom(s, n, j);
    assert t.vRandom[..n] == s.vRandom[..n];
    UsableSame(s.mapInfo, t.mapInfo, s.vRandom[..n], clock);
    assert t.vRandom[..n + 1][..n] == t.vRandom[..n];
  }

  lemma {:induction false} GetAddrAnswers(s: State, n: nat, taken: seq<Address>, limit: nat, rnd: nat -> nat,
      clock: nat -> int)
    requires RandomIndex(s.mapInfo, s.vRandom) && n <= |s.vRandom| && |taken| <= limit
    requires taken == Usable(s.mapInfo, s.vRandom[..n], clock)
    ensures var (t, out) := GetAddrFrom(s, n, taken, limit, rnd, clock);
            Answered(s, t, out, limit, clock)
    decreases |s.vRandom| - n
  {
    hide RandomIndex, Usable, Draw, Answered;
    if n == |s.vRandom| || |taken| >= limit {
      AnsweredNow(s, n, taken, limit, clock);
    } else {
      var j := Draw(rnd(n), n, |s.vRandom|);
      GetAddrStep(s, n, j, taken, clock);
      var t := SwapRandom(s, n, j);
      var ai := t.mapInfo[t.vRandom[n]];
      var more := if ai.IsTerrible(clock(n)) then taken else taken + [AddressOf(ai)];
      GetAddrAnswers(t, n + 1, more, limit, rnd, clock);
      var (u, out) := GetAddrFrom(t, n + 1, more, limit, rnd, clock);
      AnsweredAfter(s, t, u, out, limit, clock);
    }
  }

  lemma AnsweredNow(s: State, n: nat, taken: seq<Address>, limit: nat, clock: nat -> int)
    requires RandomIndex(s.mapInfo, s.vRandom) && n <= |s.vRandom| && |taken| <= limit
    requires taken == Usable(s.mapInfo, s.vRandom[..n], clock) && (n == |s.vRandom| || |taken| >= limit)
    ensures Answered(s, s, taken, limit, clock)
  {
    hide Usable;
    assert AnswerTo(s, n, taken, limit, clock);
  }

  lemma AnsweredAfter(s: State, t: State, u: State, out: seq<Address>, limit: nat, clock: nat -> int)
    requires SameButPos(s.mapInfo, t.mapInfo) && |t.vRandom| == |s.vRandom|
    requires t == s.(mapInfo := t.mapInfo, vRandom := t.vRandom)
    requires Answered(t, u, out, limit, clock)
    ensures Answered(s, u, out, limit, clock)
  {
    hide AnswerTo;
  }

  lemma AnsweredKeeps(h: Hashing, s: State, t: State, out: seq<Address>, limit: nat, clock: nat -> int)
    requires Inv(h, s) && Answered(s, t, out, limit, clock)
    ensures Inv(h, t) && Extends(s, t)
  {
    hide AddrIndex, TriedTable, NewTable, TriedIds, NewIds, RandomIndex, Usable, AnswerTo;
    SameEntriesTables(h, s.mapInfo, t.mapInfo, s.mapAddr, s.vvTried);
    SameEntriesNew(h, s.mapInfo, t.mapInfo, s.vvNew);
    assert forall x :: x in t.mapInfo ==> x in s.mapInfo.Keys;
  }

  // ---------------------------------------------------------------- ResolveCollisions_, SelectTriedCollision_

  datatype Verdict = Keep | Erase | Promote

  // What ResolveCollisions_ decides about one pending id; clock(i) is the i-th reading of the clock.
  ghost function Judge(h: Hashing, s: State, id: int, clock: nat -> int): Verdict
    requires Core(h, s, {}, 0)
  {
    if id !in s.mapInfo then Erase else
    var i := s.mapInfo[id];
    var k := h.TriedSlot(i.service);
    if !h.isValid(i.service.net) then Erase
    else if k in s.vvTried then
      assert TriedSlotOk(h, s.mapInfo, k, s.vvTried[k]);
      var rival := s.mapInfo[s.vvTried[k]];
      if clock(0) - rival.nLastSuccess < REPLACEMENT_HOURS * (60 * 60) then Erase
      else if clock(1) - rival.nLastTry < REPLACEMENT_HOURS * (60 * 60) then
        if clock(2) - rival.nLastTry > 60 then Promote else Keep
      else Keep
    else Promote
  }

  ghost function ResolveOne(h: Hashing, s: State, id: int, clock: nat -> int): State
    requires Core(h, s, {}, 0) && forall i :: clock(i) > 0
  {
    match Judge(h, s, id, clock)
    case Keep => s
    case Erase => s.(collisions := s.collisions - {id})
    case Promote =>
      var t := Good(h, s, s.mapInfo[id].service, false, clock(3));
      t.(collisions := t.collisions - {id})
  }

  lemma ResolveOneKeeps(h: Hashing, s: State, id: int, clock: nat -> int)
    requires Inv(h, s) && forall i :: clock(i) > 0
    ensures var t := ResolveOne(h, s, id, clock);
            Inv(h, t) && Extends(s, t) && s.collisions - {id} <= t.collisions <= s.collisions
  {
    hide AddrIndex, TriedTable, NewTable, TriedIds, NewIds, RandomIndex, Counters, RefBounds, StatsOk, IdsBelow, Good,
        Judge;
    match Judge(h, s, id, clock)
    case Keep =>
    case Erase =>
      CollisionsLast(h, s, s.(collisions := s.collisions - {id}));
    case Promote =>
      JudgePromotes(h, s, id, clock);
      GoodKeeps(h, s, s.mapInfo[id].service, false, clock(3));
      var t := Good(h, s, s.mapInfo[id].service, false, clock(3));
      CollisionsLast(h, t, t.(collisions := t.collisions - {id}));
  }

  lemma JudgePromotes(h: Hashing, s: State, id: int, clock: nat -> int)
    requires Core(h, s, {}, 0) && Judge(h, s, id, clock).Promote?
    ensures id in s.mapInfo
  {}

  ghost predicate IsMin(m: int, todo: set<int>) {
    m in todo && forall x :: x in todo ==> m <= x
  }

  lemma Pick<T>(s: set<T>) returns (x: T)
    requires s != {}
    ensures x in s
  {
    x :| x in s;
  }

  lemma MinExists(todo: set<int>) returns (m: int)
    requires todo != {}
    ensures IsMin(m, todo)
    decreases |todo|
  {
    var x := Pick(todo);
    if todo == {x} {
      m := x;
    } else {
      assert todo - {x} != {};
      var y := MinExists(todo - {x});
      m := if x < y then x else y;
      assert forall z :: z in todo ==> z == x || z in todo - {x};
    }
  }

  ghost function Least(todo: set<int>): (m: int)
    requires todo != {}
    ensures IsMin(m, todo)
  {
    assert exists m :: IsMin(m, todo) by { var m := MinExists(todo); }
    var m :| IsMin(m, todo); m
  }

  // The loop over the pending ids, in increasing order; each id has its own clock readings.
  ghost function ResolveFrom(h: Hashing, s: State, todo: set<int>, clocks: int -> nat -> int): State
    requires Inv(h, s) && forall id, i :: clocks(id)(i) > 0
    decreases todo
  {
    if todo == {} then s else
    var id := Least(todo);
    ResolveOneKeeps(h, s, id, clocks(id));
    ResolveFrom(h, ResolveOne(h, s, id, clocks(id)), todo - {id}, clocks)
  }

  lemma {:induction false} ResolveFromKeeps(h: Hashing, s: State, todo: set<int>, clocks: int -> nat -> int)
    requires Inv(h, s) && forall id, i :: clocks(id)(i) > 0
    ensures var t := ResolveFrom(h, s, todo, clocks);
            Inv(h, t) && Extends(s, t) && t.collisions <= s.collisions
    decreases todo
  {
    hide Core, CollisionsOk, ResolveOne;
    if todo != {} {
      var id := Least(todo);
      ResolveOneKeeps(h, s, id, clocks(id));
      var t := ResolveOne(h, s, id, clocks(id));
      ResolveFromKeeps(h, t, todo - {id}, clocks);
      ExtendsTransitive(s, t, ResolveFrom(h, t, todo - {id}, clocks));
    }
  }

  // A pending collision whose address is still known and valid is never found to have vanished: its tried slot is
  // occupied, so resolving it never takes the "not a collision anymore" branch and SelectTriedCollision_ finds a
  // tried entry there: another one, unless the pending entry has itself become tried.
  lemma PendingHasRival(h: Hashing, s: State, id: int)
    requires Inv(h, s) && id in s.collisions && id in s.mapInfo
    ensures var k := h.TriedSlot(s.mapInfo[id].service);
            && k in s.vvTried && s.vvTried[k] in s.mapInfo && s.mapInfo[s.vvTried[k]].fInTried
            && (s.vvTried[k] == id <==> s.mapInfo[id].fInTried)
  {
    hide AddrIndex, NewTable, TriedIds, NewIds, RandomIndex, Counters, RefBounds, StatsOk, IdsBelow;
    var k := h.TriedSlot(s.mapInfo[id].service);
    assert TriedSlotOk(h, s.mapInfo, k, s.vvTried[k]);
  }

  // SelectTriedCollision_ on the pending id it draws: forget it when it is unknown, otherwise answer the rival.
  ghost function SelectCollision(h: Hashing, s: State, id: int): (State, set<int>)
    requires Inv(h, s) && id in s.collisions
  {
    if id !in s.mapInfo then (s.(collisions := s.collisions - {id}), {})
    else PendingHasRival(h, s, id); (s, {s.vvTried[h.TriedSlot(s.mapInfo[id].service)]})
  }

  lemma ClearedInv(h: Hashing)
    ensures Inv(h, Cleared())
  {
    assert TriedIds(Cleared().mapInfo) == {} && NewIds(Cleared().mapInfo) == {};
  }
}
