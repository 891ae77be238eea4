/** What the calls of the address manager do, in terms of the tables and entries before and after. */
module AddrManEffects {
  import opened AddrManState
  import opened AddrManSteps
  import opened AddrManOps
  import opened Numbers

  // ---------------------------------------------------------------- Good_

  // The statistics of a successful connection at time t, and nothing else but the places in the tables.
  ghost predicate Refreshes(i: AddrInfo, j: AddrInfo, t: int) {
    && j.nLastSuccess == t && j.nLastTry == t && j.nAttempts == 0
    && j.service == i.service && j.nServices == i.nServices && j.nTime == i.nTime && j.source == i.source
    && j.nLastCountAttempt == i.nLastCountAttempt
  }

  // Entry id has moved to tried slot k, and an occupant has gone back to its own new slot.
  ghost predicate Moved(h: Hashing, s: State, u: State, id: int, k: Slot) {
    && u.vvTried == s.vvTried[k := id] && u.collisions == s.collisions
    && id in u.mapInfo && u.mapInfo[id].fInTried && u.mapInfo[id].nRefCount == 0
    && (forall q :: q in u.vvNew ==> u.vvNew[q] != id)
    && (k in s.vvTried ==>
          var e := s.vvTried[k];
          && e in s.mapInfo && e != id && e in u.mapInfo && !u.mapInfo[e].fInTried && u.mapInfo[e].nRefCount == 1
          && (var nk := h.NewSlot(s.mapInfo[e].service, s.mapInfo[e].source); nk in u.vvNew && u.vvNew[nk] == e))
  }

  // Good_: an exactly known service gets its statistics refreshed. A new entry then becomes tried, evicting the
  // occupant of its slot, unless the test is on and there is an occupant: then it becomes pending if there is room.
  lemma GoodEffect(h: Hashing, s: State, a: Service, testBeforeEvict: bool, t: int)
    requires Core(h, s, {}, 0) && t > 0
    ensures var u := Good(h, s, a, testBeforeEvict, t);
            && u.nLastGood == t
            && (!Knows(s, a) ==> u == s.(nLastGood := t))
            && (Knows(s, a) ==>
                  var id := s.mapAddr[a.net];
                  var k := h.TriedSlot(a);
                  && id in u.mapInfo && Refreshes(s.mapInfo[id], u.mapInfo[id], t)
                  && (s.mapInfo[id].fInTried || (testBeforeEvict && k in s.vvTried) ==>
                        && u == s.(nLastGood := t, mapInfo := s.mapInfo[id := u.mapInfo[id]],
                                   collisions := u.collisions)
                        && u.mapInfo[id].fInTried == s.mapInfo[id].fInTried
                        && u.mapInfo[id].nRefCount == s.mapInfo[id].nRefCount
                        && u.mapInfo[id].nRandomPos == s.mapInfo[id].nRandomPos
                        && u.collisions == if !s.mapInfo[id].fInTried && |s.collisions| < TRIED_COLLISION_SIZE
                                           then s.collisions + {id} else s.collisions)
                  && (!s.mapInfo[id].fInTried && !(testBeforeEvict && k in s.vvTried) ==> Moved(h, s, u, id, k)))
  {
    hide AddrIndex, TriedTable, NewTable, TriedIds, NewIds, RandomIndex, RefBounds, Counters, StatsOk, IdsBelow,
         MakeTried,
         Moved;
    if Knows(s, a) {
      var id := s.mapAddr[a.net];
      var s1 := s.(nLastGood := t);
      UpdateKeepsCore(h, s1, id, Succeeded(s.mapInfo[id], t), {}, 0);
      var s2 := Update(s1, id, Succeeded(s.mapInfo[id], t));
      if !s.mapInfo[id].fInTried && !(testBeforeEvict && h.TriedSlot(a) in s.vvTried) {
        MadeTried(h, s, s2, id);
      }
    }
  }

  lemma MadeTried(h: Hashing, s: State, s2: State, id: int)
    requires Core(h, s, {}, 0) && Triable(h, s2, id) && id in s.mapInfo
    requires s2 == s.(nLastGood := s2.nLastGood, mapInfo := s.mapInfo[id := s2.mapInfo[id]])
    requires s2.mapInfo[id].service == s.mapInfo[id].service
    ensures var u := MakeTried(h, s2, id);
            && id in u.mapInfo && u.nLastGood == s2.nLastGood
            && Moved(h, s, u, id, h.TriedSlot(s.mapInfo[id].service))
            && u.mapInfo[id] ==
               s2.mapInfo[id].(fInTried := true, nRefCount := 0, nRandomPos := u.mapInfo[id].nRandomPos)
  {
    hide AddrIndex, TriedTable, NewTable, TriedIds, NewIds, RandomIndex, RefBounds, Counters, StatsOk, IdsBelow,
         MakeTried;
    MakeTriedEffect(h, s2, id);
    var u := MakeTried(h, s2, id);
    var k := h.TriedSlot(s.mapInfo[id].service);
    if k in s.vvTried {
      var e := s.vvTried[k];
      assert s2.mapInfo[e] == s.mapInfo[e];
      var nk := h.NewSlot(s.mapInfo[e].service, s.mapInfo[e].source);
      assert e in u.mapInfo by { Survives(h, s2, id, k); }
      assert EvictedInfo(s2.(vvNew := s2.vvNew - Refs(s2.vvNew, id)), u, nk, e, e);
    }
  }

  // The evicted entry is not the one that makes room for it.
  lemma Survives(h: Hashing, s: State, id: int, k: Slot)
    requires Triable(h, s, id) && k in s.vvTried && k == h.TriedSlot(s.mapInfo[id].service)
    requires s.vvTried[k] in s.mapInfo
    ensures s.vvTried[k] in MakeTried(h, s, id).mapInfo
  {
    hide AddrIndex, TriedIds, NewIds, RandomIndex, RefBounds, Counters, StatsOk, IdsBelow, MakeTried;
    MakeTriedEffect(h, s, id);
    var e := s.vvTried[k];
    var nk := h.NewSlot(s.mapInfo[e].service, s.mapInfo[e].source);
    assert TriedSlotOk(h, s.mapInfo, k, e);
    if nk in s.vvNew { assert NewSlotOk(h, s.mapInfo, nk, s.vvNew[nk]); }
    assert e in s.mapInfo.Keys - Lost(s.(vvNew := s.vvNew - Refs(s.vvNew, id)), nk);
  }

  // ---------------------------------------------------------------- ResolveCollisions_

  // The occupant of the tried slot that id wants, if id is known and there is one.
  ghost predicate HasRival(h: Hashing, s: State, id: int, r: AddrInfo) {
    && id in s.mapInfo && h.TriedSlot(s.mapInfo[id].service) in s.vvTried
    && (var o := s.vvTried[h.TriedSlot(s.mapInfo[id].service)]; o in s.mapInfo && s.mapInfo[o] == r)
  }

  // One pending id of a consistent manager. It is forgotten when its address is unknown or invalid, or when its rival
  // has succeeded within four hours. It takes the tried slot when its rival has not, but was tried within four hours
  // and more than a minute ago. Otherwise it stays pending and nothing changes.
  lemma ResolveOneEffect(h: Hashing, s: State, id: int, clock: nat -> int, r: AddrInfo)
    requires Inv(h, s) && id in s.collisions && forall i :: clock(i) > 0
    requires id in s.mapInfo ==> HasRival(h, s, id, r)
    ensures var u := ResolveOne(h, s, id, clock);
            var gone := id !in s.mapInfo || !h.isValid(s.mapInfo[id].service.net);
            var beaten := !gone && clock(0) - r.nLastSuccess < 4 * 60 * 60;
            var tested := !gone && !beaten && clock(1) - r.nLastTry < 4 * 60 * 60 && clock(2) - r.nLastTry > 60;
            && (gone || beaten ==> u == s.(collisions := s.collisions - {id}))
            && (!gone && !beaten && !tested ==> u == s)
            && (tested ==>
                  && u.collisions == s.collisions - {id} && id in u.mapInfo && u.mapInfo[id].fInTried
                  && Refreshes(s.mapInfo[id], u.mapInfo[id], clock(3))
                  && u.vvTried == s.vvTried[h.TriedSlot(s.mapInfo[id].service) := id]
                  && (!s.mapInfo[id].fInTried ==>
                        Moved(h, s, u.(collisions := s.collisions), id, h.TriedSlot(s.mapInfo[id].service))))
  {
    hide AddrIndex, NewTable, TriedIds, NewIds, RandomIndex, Counters, RefBounds, StatsOk, IdsBelow, Good, Moved;
    if id in s.mapInfo {
      var i := s.mapInfo[id];
      KnownBy(h, s, id);
      GoodEffect(h, s, i.service, false, clock(3));
      if i.fInTried { assert s.vvTried[h.TriedSlot(i.service) := id] == s.vvTried; }
      MovedFacts(h, s, Good(h, s, i.service, false, clock(3)), id, h.TriedSlot(i.service));
    }
  }

  // Resolving one id leaves the other pending ones pending.
  lemma ResolveSpares(h: Hashing, s: State, id: int, clock: nat -> int)
    requires Inv(h, s) && forall i :: clock(i) > 0
    ensures var u := ResolveOne(h, s, id, clock);
            u.collisions == s.collisions || u.collisions == s.collisions - {id}
  {
    hide AddrIndex, NewTable, TriedIds, NewIds, RandomIndex, Counters, RefBounds, StatsOk, IdsBelow, Good, Moved,
         CollisionsOk, TriedTable;
    if Judge(h, s, id, clock).Promote? { GoodKeeps(h, s, s.mapInfo[id].service, false, clock(3)); }
  }

  lemma ResolveUnfolds(h: Hashing, s: State, todo: set<int>, clocks: int -> nat -> int)
    requires Inv(h, s) && forall id, i :: clocks(id)(i) > 0
    ensures todo == {} ==> ResolveFrom(h, s, todo, clocks) == s
    ensures todo != {} ==>
      var t := ResolveOne(h, s, Least(todo), clocks(Least(todo)));
      Inv(h, t) && ResolveFrom(h, s, todo, clocks) == ResolveFrom(h, t, todo - {Least(todo)}, clocks)
  {
    hide Core, CollisionsOk, ResolveOne;
    if todo != {} { ResolveOneKeeps(h, s, Least(todo), clocks(Least(todo))); }
  }

  // The run of ResolveCollisions_ over the ids todo: every one of them is resolved, once and in increasing order,
  // each in the state its predecessors left; it is pending afterwards exactly when it was after its own turn.
  lemma {:induction false} ResolveTrace(h: Hashing, s: State, todo: set<int>, clocks: int -> nat -> int)
      returns (ids: seq<int>, states: seq<State>)
    requires Inv(h, s) && forall id, i :: clocks(id)(i) > 0
    ensures |states| == |ids| + 1 && states[0] == s && states[|ids|] == ResolveFrom(h, s, todo, clocks)
    ensures (forall id :: id in ids <==> id in todo) && forall i, j :: 0 <= i < j < |ids| ==> ids[i] < ids[j]
    ensures forall i :: 0 <= i < |ids| ==>
      Inv(h, states[i]) && states[i + 1] == ResolveOne(h, states[i], ids[i], clocks(ids[i]))
    ensures forall i :: 0 <= i < |ids| ==>
      (ids[i] in states[|ids|].collisions <==> ids[i] in states[i + 1].collisions)
    ensures forall id :: id !in todo ==> (id in states[|ids|].collisions <==> id in s.collisions)
    decreases todo
  {
    hide Core, CollisionsOk, ResolveOne, ResolveFrom;
    ResolveUnfolds(h, s, todo, clocks);
    if todo == {} {
      return [], [s];
    }
    var id := Least(todo);
    ResolveSpares(h, s, id, clocks(id));
    var t := ResolveOne(h, s, id, clocks(id));
    var laterIds, later := ResolveTrace(h, t, todo - {id}, clocks);
    forall j | 0 <= j < |laterIds| ensures id < laterIds[j] {
      assert laterIds[j] in laterIds;
      assert laterIds[j] in todo - {id};
    }
    ids, states := [id] + laterIds, [s] + later;
  }

  lemma MovedFacts(h: Hashing, s: State, u: State, id: int, k: Slot)
    ensures Moved(h, s, u, id, k) ==>
      u.vvTried == s.vvTried[k := id] && u.collisions == s.collisions && id in u.mapInfo && u.mapInfo[id].fInTried
    ensures Moved(h, s, u, id, k) ==> Moved(h, s, u.(collisions := s.collisions), id, k)
  {}

  lemma KnownBy(h: Hashing, s: State, id: int)
    requires Core(h, s, {}, 0) && id in s.mapInfo
    ensures Knows(s, s.mapInfo[id].service) && s.mapAddr[s.mapInfo[id].service.net] == id
  {}

  // ---------------------------------------------------------------- Add_

  // Whether entry id gets the new slot that the announcing source leads to: the slot is free or its own already, or
  // its occupant is terrible, or the occupant has other references and the entry has none.
  ghost predicate Wins(h: Hashing, s: State, id: int, source: NetAddr, now: int)
    requires id in s.mapInfo
  {
    var k := h.NewSlot(s.mapInfo[id].service, source);
    k !in s.vvNew || s.vvNew[k] == id ||
    (s.vvNew[k] in s.mapInfo &&
     (s.mapInfo[s.vvNew[k]].IsTerrible(now) || (s.mapInfo[s.vvNew[k]].nRefCount > 1 && s.mapInfo[id].nRefCount == 0)))
  }

  // The second half of Add_. A winner stands in the slot with one reference more than before, unless it stood there;
  // the occupant loses a reference, or is forgotten with its last. A loser without any reference is forgotten.
  lemma InsertEffect(h: Hashing, s: State, id: int, source: NetAddr, now: int, loose: set<int>)
    requires Insertable(h, s, id, loose)
    ensures var u := Insert(h, s, id, source, now, loose);
            var k := h.NewSlot(s.mapInfo[id].service, source);
            && (Wins(h, s, id, source, now) ==>
                  && u.vvNew == s.vvNew[k := id] && id in u.mapInfo
                  && u.mapInfo[id] == s.mapInfo[id].(nRandomPos := u.mapInfo[id].nRandomPos,
                       nRefCount := s.mapInfo[id].nRefCount + if k in s.vvNew && s.vvNew[k] == id then 0 else 1)
                  && (k in s.vvNew && s.vvNew[k] != id ==>
                        var e := s.vvNew[k];
                        && e in s.mapInfo && (e in u.mapInfo <==> s.mapInfo[e].nRefCount > 1)
                        && (e in u.mapInfo ==> u.mapInfo[e].nRefCount == s.mapInfo[e].nRefCount - 1)))
            && (!Wins(h, s, id, source, now) ==>
                  u.vvNew == s.vvNew && (id in u.mapInfo <==> s.mapInfo[id].nRefCount > 0)
                  && (s.mapInfo[id].nRefCount > 0 ==> u == s))
  {
    hide AddrIndex, TriedTable, NewTable, TriedIds, NewIds, RandomIndex, Counters, StatsOk, IdsBelow, RefBounds;
    var k := h.NewSlot(s.mapInfo[id].service, source);
    if k in s.vvNew {
      NewOccupant(h, s.mapInfo, s.vvNew, k);
      if s.vvNew[k] == id {
        assert s.vvNew[k := id] == s.vvNew;
      } else {
        InsertOverEffect(h, s, id, source, now, loose);
      }
    }
  }

  lemma InsertOverEffect(h: Hashing, s: State, id: int, source: NetAddr, now: int, loose: set<int>)
    requires Insertable(h, s, id, loose)
    requires var k := h.NewSlot(s.mapInfo[id].service, source);
             k in s.vvNew && s.vvNew[k] in s.mapInfo && s.vvNew[k] != id
    ensures var u := Insert(h, s, id, source, now, loose);
            var k := h.NewSlot(s.mapInfo[id].service, source);
            var e := s.vvNew[k];
            && (Wins(h, s, id, source, now) ==>
                  && u.vvNew == s.vvNew[k := id] && id in u.mapInfo
                  && u.mapInfo[id] == s.mapInfo[id].(nRandomPos := u.mapInfo[id].nRandomPos,
                                                     nRefCount := s.mapInfo[id].nRefCount + 1)
                  && (e in u.mapInfo <==> s.mapInfo[e].nRefCount > 1)
                  && (e in u.mapInfo ==> u.mapInfo[e].nRefCount == s.mapInfo[e].nRefCount - 1))
            && (!Wins(h, s, id, source, now) ==>
                  u.vvNew == s.vvNew && (id in u.mapInfo <==> s.mapInfo[id].nRefCount > 0)
                  && (s.mapInfo[id].nRefCount > 0 ==> u == s))
  {
    hide AddrIndex, TriedTable, NewTable, TriedIds, NewIds, RandomIndex, Counters, StatsOk, IdsBelow, RefBounds, Delete,
         ClearNew;
    var k := h.NewSlot(s.mapInfo[id].service, source);
    NewOccupant(h, s.mapInfo, s.vvNew, k);
    if Wins(h, s, id, source, now) {
      ClearNewKeepsCore(h, s, k, loose, 0);
      var t := ClearNew(s, k);
      assert id in s.mapInfo.Keys - Lost(s, k);
      assert t.vvNew[k := id] == s.vvNew[k := id];
      assert s.vvNew[k] in t.mapInfo <==> s.vvNew[k] in s.mapInfo.Keys - Lost(s, k);
    } else if s.mapInfo[id].nRefCount == 0 {
      DeleteIndexes(h, s, id);
      DeleteSlots(s, id);
    } else {
      RefCountPositive(h, s, id, loose);
    }
  }

  lemma RefCountPositive(h: Hashing, s: State, id: int, loose: set<int>)
    requires Core(h, s, loose, 0) && id in s.mapInfo && s.mapInfo[id].nRefCount != 0
    ensures s.mapInfo[id].nRefCount > 0
  {
    hide AddrIndex, TriedTable, TriedIds, NewIds, RandomIndex, Counters, StatsOk, IdsBelow, RefBounds;
  }

  lemma DeleteSlots(s: State, id: int)
    requires Deletable(s, id)
    ensures Delete(s, id).vvNew == s.vvNew && Delete(s, id).vvTried == s.vvTried
  {}

  // What an announcement does to the time and the services of a known entry. The interval is an hour for a time stamp
  // of the last day, and a day otherwise.
  ghost predicate Announced(i: AddrInfo, j: AddrInfo, a: Address, penalty: int, now: int) {
    var interval := if a.nTime > now - 86400 then 3600 else 86400;
    && j == i.(nTime := j.nTime, nServices := j.nServices)
    && j.nServices == i.nServices + a.nServices
    && (a.nTime == 0 ==> j.nTime == i.nTime)
    && (i.nTime != 0 && i.nTime + penalty + interval >= a.nTime ==> j.nTime == i.nTime)
    && (a.nTime != 0 && (i.nTime == 0 || i.nTime + penalty + interval < a.nTime) ==>
          j.nTime == if a.nTime < penalty then 0 else (a.nTime - penalty) % 0x1_0000_0000)
  }

  // One more reference is tried for only on news about a new entry with fewer than eight references, and with n of them
  // only for one draw in 2^n.
  ghost predicate TriesReference(i: AddrInfo, a: Address, rnd: nat) {
    && a.nTime > 0 && (i.nTime == 0 || i.nTime < a.nTime) && !i.fInTried && 0 <= i.nRefCount < 8
    && rnd % Pow2(i.nRefCount) == 0
  }

  lemma InsertFrame(h: Hashing, s: State, id: int, source: NetAddr, now: int, loose: set<int>)
    requires Insertable(h, s, id, loose)
    ensures FrameKept(s, Insert(h, s, id, source, now, loose))
  {
    hide AddrIndex, TriedTable, NewTable, TriedIds, NewIds, Counters, StatsOk, IdsBelow, RefBounds, RandomIndex,
        ClearNew, Delete;
    var k := h.NewSlot(s.mapInfo[id].service, source);
    if k in s.vvNew && s.vvNew[k] != id {
      NewOccupant(h, s.mapInfo, s.vvNew, k);
      ClearNewFrame(s, k);
      if s.mapInfo[id].nRefCount == 0 { DeleteFrame(s, id); }
    }
  }

  ghost predicate FrameKept(s: State, t: State) {
    t.vvTried == s.vvTried && t.nIdCount == s.nIdCount && t.mapAddr.Keys <= s.mapAddr.Keys
  }

  lemma DeleteFrame(s: State, id: int)
    requires Deletable(s, id)
    ensures FrameKept(s, Delete(s, id))
  {
    SwapRandomIndex(s, s.mapInfo[id].nRandomPos, |s.vRandom| - 1);
  }

  lemma ClearNewFrame(s: State, k: Slot)
    requires k in s.vvNew && s.vvNew[k] in s.mapInfo && !s.mapInfo[s.vvNew[k]].fInTried
        && RandomIndex(s.mapInfo, s.vRandom)
    ensures FrameKept(s, ClearNew(s, k))
  {
    hide RandomIndex, Delete;
    DropRefIndex(s, k);
    var t := DropRef(s, k);
    if t.mapInfo[s.vvNew[k]].nRefCount == 0 { DeleteFrame(t, s.vvNew[k]); }
  }

  // Add_ of a known address; j is its entry as announced.
  lemma AddKnownEffect(h: Hashing, s: State, a: Address, source: NetAddr, penalty: int, now: int, rnd: nat)
      returns (j: AddrInfo)
    requires Core(h, s, {}, 0) && h.isRoutable(a.service.net) && a.service.net in s.mapAddr && a.nTime >= 0
    ensures var (u, fNew) := Add(h, s, a, source, penalty, now, rnd);
            var id := s.mapAddr[a.service.net];
            var t := s.(mapInfo := s.mapInfo[id := j]);
            && !fNew && id in s.mapInfo && id in u.mapInfo && u.nIdCount == s.nIdCount && u.vvTried == s.vvTried
            && Announced(s.mapInfo[id], j, a, if a.service.net == source then 0 else penalty, now)
            && u.mapInfo[id] == j.(nRefCount := u.mapInfo[id].nRefCount, nRandomPos := u.mapInfo[id].nRandomPos)
            && (TriesReference(j, a, rnd) && Wins(h, t, id, source, now) ==>
                  u.vvNew == s.vvNew[h.NewSlot(j.service, source) := id])
            && (!(TriesReference(j, a, rnd) && Wins(h, t, id, source, now)) ==> u == t)
  {
    hide Core, Insert, Insertable, Add, Wins;
    AddKnownIs(h, s, a, source, penalty, now, rnd);
    var id := s.mapAddr[a.service.net];
    var p := if a.service.net == source then 0 else penalty;
    j := Refreshed(s.mapInfo[id], a, p, now);
    RefreshedIs(s.mapInfo[id], a, p, now);
    RefCountBounds(h, s, id);
    var t := Update(s, id, j);
    if AddsReference(j, a, rnd) {
      InsertEffect(h, t, id, source, now, {});
      InsertFrame(h, t, id, source, now, {});
    }
  }

  lemma RefCountBounds(h: Hashing, s: State, id: int)
    requires Core(h, s, {}, 0) && id in s.mapInfo
    ensures 0 <= s.mapInfo[id].nRefCount && (!s.mapInfo[id].fInTried ==> 1 <= s.mapInfo[id].nRefCount <= 8)
  {
    hide AddrIndex, TriedTable, TriedIds, NewIds, RandomIndex, Counters, StatsOk, IdsBelow;
  }

  lemma RefreshedIs(i: AddrInfo, a: Address, penalty: int, now: int)
    ensures Announced(i, Refreshed(i, a, penalty, now), a, penalty, now)
  {}

  // Add_ of an unknown address: it takes the next id in any case, and is known afterwards exactly if it wins its slot.
  lemma AddNewEffect(h: Hashing, s: State, a: Address, source: NetAddr, penalty: int, now: int, rnd: nat)
    requires Core(h, s, {}, 0) && h.isRoutable(a.service.net) && a.service.net !in s.mapAddr
    ensures var (u, fNew) := Add(h, s, a, source, penalty, now, rnd);
            var p := if a.service.net == source then 0 else penalty;
            var id := s.nIdCount;
            var k := h.NewSlot(a.service, source);
            var wins := k !in s.vvNew || (s.vvNew[k] in s.mapInfo &&
              (s.mapInfo[s.vvNew[k]].IsTerrible(now) || s.mapInfo[s.vvNew[k]].nRefCount > 1));
            && fNew && u.nIdCount == id + 1 && u.vvTried == s.vvTried && (id in u.mapInfo <==> wins)
            && u.vvNew == (if wins then s.vvNew[k := id] else s.vvNew)
            && (wins ==> u.mapInfo[id] == AddrInfo(a.service, a.nServices,
                           if a.nTime < p then 0 else (a.nTime - p) % 0x1_0000_0000, source, 0, 0, 0, 0, 1, false,
                           u.mapInfo[id].nRandomPos))
  {
    hide Core, Insert, Insertable, Add, Wins;
    var p := if a.service.net == source then 0 else penalty;
    var id := s.nIdCount;
    AddNewIs(h, s, a, source, penalty, now, rnd);
    NextIdFree(h, s);
    var t := Created(s, a, source, p);
    InsertEffect(h, t, id, source, now, {id});
    InsertFrame(h, t, id, source, now, {id});
    CreatedWins(h, s, t, a, source, p, now);
  }

  lemma NextIdFree(h: Hashing, s: State)
    requires Core(h, s, {}, 0)
    ensures s.nIdCount !in s.mapInfo && forall k :: k in s.vvNew ==> s.vvNew[k] in s.mapInfo && s.vvNew[k] != s.nIdCount
  {
    hide AddrIndex, TriedTable, TriedIds, NewIds, RandomIndex, Counters, StatsOk, RefBounds;
    forall k | k in s.vvNew ensures s.vvNew[k] in s.mapInfo { assert NewSlotOk(h, s.mapInfo, k, s.vvNew[k]); }
  }

  lemma CreatedWins(h: Hashing, s: State, t: State, a: Address, source: NetAddr, p: int, now: int)
    requires s.nIdCount !in s.mapInfo && t == Created(s, a, source, p)
    requires forall k :: k in s.vvNew ==> s.vvNew[k] in s.mapInfo && s.vvNew[k] != s.nIdCount
    ensures var k := h.NewSlot(a.service, source);
            Wins(h, t, s.nIdCount, source, now) <==>
            (k !in s.vvNew || s.mapInfo[s.vvNew[k]].IsTerrible(now) || s.mapInfo[s.vvNew[k]].nRefCount > 1)
  {}

  // ---------------------------------------------------------------- statistics

  // Attempt_: the time of the try is noted for an exactly known service, and a failure is counted once between two
  // successes of any peer.
  lemma AttemptEffect(s: State, a: Service, countFailure: bool, t: int)
    ensures var u := Touch(s, a, i => Attempted(i, countFailure, t, s.nLastGood));
            && (!Knows(s, a) ==> u == s)
            && (Knows(s, a) ==>
                  var id := s.mapAddr[a.net];
                  var counted := countFailure && s.mapInfo[id].nLastCountAttempt < s.nLastGood;
                  && u == s.(mapInfo := s.mapInfo[id := u.mapInfo[id]])
                  && u.mapInfo[id] == s.mapInfo[id].(nLastTry := t,
                       nLastCountAttempt := if counted then t else s.mapInfo[id].nLastCountAttempt,
                       nAttempts := s.mapInfo[id].nAttempts + if counted then 1 else 0))
  {}

  // Connected_: the time moves forward by more than 20 minutes, or not at all, and is kept in 32 bits; within these it
  // is never more than 20 minutes behind.
  lemma ConnectedEffect(s: State, a: Service, t: int)
    ensures var u := Touch(s, a, i => Seen(i, t));
            && (!Knows(s, a) ==> u == s)
            && (Knows(s, a) ==>
                  var id := s.mapAddr[a.net];
                  && u == s.(mapInfo := s.mapInfo[id := u.mapInfo[id]])
                  && u.mapInfo[id] == s.mapInfo[id].(nTime := u.mapInfo[id].nTime)
                  && (t <= s.mapInfo[id].nTime + 1200 ==> u == s)
                  && (t > s.mapInfo[id].nTime + 1200 ==> u.mapInfo[id].nTime == t % 0x1_0000_0000)
                  && (0 <= t < 0x1_0000_0000 ==> t <= u.mapInfo[id].nTime + 1200))
  {}

  // An entry is worth keeping if it was tried in the last minute; or if its time stamp is from the last 30 days, and
  // at most ten minutes ahead, and it has succeeded once or failed fewer than three times, and it has succeeded in
  // the last week or failed fewer than ten times.
  lemma TerribleWhen(i: AddrInfo, now: int)
    ensures !i.IsTerrible(now) <==>
      || (i.nLastTry != 0 && now - i.nLastTry <= 60)
      || (&& i.nTime != 0 && now - 30 * 86400 <= i.nTime <= now + 600
          && (i.nLastSuccess != 0 || i.nAttempts < 3)
          && (now - i.nLastSuccess <= 7 * 86400 || i.nAttempts < 10))
  {}

  // GetAddr_ answers with all entries, up to 2500.
  lemma GetAddrLimitIs(size: nat)
    ensures GetAddrLimit(size) == if size <= 2500 then size else 2500
  {}

  // One round of GetAddr_: the position examined next gets the entry drawn among those not examined before.
  lemma ExamineNext(s: State, n: nat, taken: seq<Address>, limit: nat, rnd: nat -> nat, clock: nat -> int)
      returns (t: State, more: seq<Address>)
    requires RandomIndex(s.mapInfo, s.vRandom) && n < |s.vRandom| && |taken| < limit
    ensures RandomIndex(t.mapInfo, t.vRandom) && |t.vRandom| == |s.vRandom|
    ensures forall i :: 0 <= i < n ==> t.vRandom[i] == s.vRandom[i]
    ensures t.vRandom[n] == s.vRandom[n + rnd(n) % (|s.vRandom| - n)]
    ensures GetAddrFrom(s, n, taken, limit, rnd, clock) == GetAddrFrom(t, n + 1, more, limit, rnd, clock)
  {
    hide RandomIndex;
    var j := Draw(rnd(n), n, |s.vRandom|);
    SwapRandomIndex(s, n, j);
    t := SwapRandom(s, n, j);
    var ai := t.mapInfo[t.vRandom[n]];
    more := if ai.IsTerrible(clock(n)) then taken else taken + [AddressOf(ai)];
  }

  lemma ExamineStops(s: State, n: nat, taken: seq<Address>, limit: nat, rnd: nat -> nat, clock: nat -> int)
    requires RandomIndex(s.mapInfo, s.vRandom) && n <= |s.vRandom| && (n == |s.vRandom| || |taken| >= limit)
    ensures GetAddrFrom(s, n, taken, limit, rnd, clock) == (s, taken)
  {}

  // The positions that GetAddr_ has examined stay as they are.
  lemma {:induction false} ExaminedStay(s: State, n: nat, taken: seq<Address>, limit: nat, rnd: nat -> nat,
      clock: nat -> int)
    requires RandomIndex(s.mapInfo, s.vRandom) && n <= |s.vRandom|
    ensures var t := GetAddrFrom(s, n, taken, limit, rnd, clock).0;
            |t.vRandom| == |s.vRandom| && forall i :: 0 <= i < n ==> t.vRandom[i] == s.vRandom[i]
    decreases |s.vRandom| - n
  {
    hide RandomIndex, GetAddrFrom;
    if n < |s.vRandom| && |taken| < limit {
      var t, more := ExamineNext(s, n, taken, limit, rnd, clock);
      ExaminedStay(t, n + 1, more, limit, rnd, clock);
    } else {
      ExamineStops(s, n, taken, limit, rnd, clock);
    }
  }

  // Each examined position gets the entry drawn among those not examined before: with a draw for each of them, every
  // one can be the next.
  lemma DrawnNext(s: State, n: nat, taken: seq<Address>, limit: nat, rnd: nat -> nat, clock: nat -> int)
    requires RandomIndex(s.mapInfo, s.vRandom) && n < |s.vRandom| && |taken| < limit
    ensures var t := GetAddrFrom(s, n, taken, limit, rnd, clock).0;
            |t.vRandom| == |s.vRandom| && t.vRandom[n] == s.vRandom[n + rnd(n) % (|s.vRandom| - n)]
  {
    hide RandomIndex, GetAddrFrom;
    var t, more := ExamineNext(s, n, taken, limit, rnd, clock);
    ExaminedStay(t, n + 1, more, limit, rnd, clock);
  }
}
