/** The manager's own consistency scan, and what a zero answer means. */
module AddrManCheck {
  import opened AddrManState
  import opened AddrManSteps
  import opened AddrManOps
  import opened AddrMan

  // mapAddr[key] of a std::map: a missing key reads as 0.
  function Lookup(mapAddr: map<NetAddr, int>, a: NetAddr): int {
    if a in mapAddr then mapAddr[a] else 0
  }

  // What the scan asks of one entry.
  predicate EntryOk(id: int, i: AddrInfo, mapAddr: map<NetAddr, int>, vRandom: seq<int>) {
    && (if i.fInTried then i.nLastSuccess != 0 && i.nRefCount == 0 else 1 <= i.nRefCount <= NEW_BUCKETS_PER_ADDRESS)
    && Lookup(mapAddr, i.service.net) == id
    && 0 <= i.nRandomPos < |vRandom| && vRandom[i.nRandomPos] == id
    && i.nLastTry >= 0 && i.nLastSuccess >= 0
  }

  // What the whole scan establishes.
  ghost predicate Consistent(h: Hashing, s: State) {
    && |s.vRandom| == s.nTried + s.nNew
    && (forall id :: id in s.mapInfo ==> EntryOk(id, s.mapInfo[id], s.mapAddr, s.vRandom))
    && Counters(s.mapInfo, s.nTried, s.nNew, 0)
    && TriedTable(h, s.mapInfo, s.vvTried)
    && (forall k :: k in s.vvNew ==> NewSlotOk(h, s.mapInfo, k, s.vvNew[k]))
    && (forall id :: id in s.mapInfo && !s.mapInfo[id].fInTried ==> s.mapInfo[id].nRefCount == |Refs(s.vvNew, id)|)
  }

  lemma {:induction false} Permutation(m: Infos, vRandom: seq<int>, n: nat, done: set<int>)
    requires RandomIndex(m, vRandom) && n <= |vRandom| && done == set i | 0 <= i < n :: vRandom[i]
    ensures |done| == n
    decreases n
  {
    if n > 0 {
      var prev := set i | 0 <= i < n - 1 :: vRandom[i];
      Permutation(m, vRandom, n - 1, prev);
      assert vRandom[n - 1] !in prev;
      assert done == prev + {vRandom[n - 1]};
    }
  }

  // vRandom is as long as there are entries.
  lemma RandomSize(m: Infos, vRandom: seq<int>)
    requires RandomIndex(m, vRandom)
    ensures |vRandom| == |TriedIds(m)| + |NewIds(m)|
  {
    var all := set i | 0 <= i < |vRandom| :: vRandom[i];
    Permutation(m, vRandom, |vRandom|, all);
    forall id | id in TriedIds(m) + NewIds(m) ensures id in all {
      assert vRandom[m[id].nRandomPos] == id;
    }
    assert all == TriedIds(m) + NewIds(m);
    assert TriedIds(m) !! NewIds(m);
  }

  // The invariant of the operations implies everything the scan checks.
  lemma InvConsistent(h: Hashing, s: State)
    requires Inv(h, s)
    ensures Consistent(h, s)
  {
    hide TriedTable, TriedIds, NewIds, CollisionsOk;
    RandomSize(s.mapInfo, s.vRandom);
    forall id | id in s.mapInfo ensures EntryOk(id, s.mapInfo[id], s.mapAddr, s.vRandom) {
      if s.mapInfo[id].fInTried { TriedUnreferenced(h, s.mapInfo, s.vvNew, id); }
    }
  }

  // ---------------------------------------------------------------- the scan itself

  ghost function Expected(m: Infos): map<int, int> {
    map id | id in m && !m[id].fInTried :: m[id].nRefCount
  }

  // The error code of one entry, 0 if there is none.
  function EntryCode(id: int, i: AddrInfo, mapAddr: map<NetAddr, int>, vRandom: seq<int>): (code: int)
    ensures code == 0 <==> EntryOk(id, i, mapAddr, vRandom)
  {
    if i.fInTried && i.nLastSuccess == 0 then -1
    else if i.fInTried && i.nRefCount != 0 then -2
    else if !i.fInTried && (i.nRefCount < 0 || i.nRefCount > NEW_BUCKETS_PER_ADDRESS) then -3
    else if !i.fInTried && i.nRefCount == 0 then -4
    else if Lookup(mapAddr, i.service.net) != id then -5
    else if i.nRandomPos < 0 || i.nRandomPos >= |vRandom| || vRandom[i.nRandomPos] != id then -14
    else if i.nLastTry < 0 then -6
    else if i.nLastSuccess < 0 then -8
    else 0
  }

  method CheckEntries(mapInfo: Infos, mapAddr: map<NetAddr, int>, vRandom: seq<int>)
      returns (code: int, setTried: set<int>, mapNew: map<int, int>)
    ensures code == 0 <==> forall id :: id in mapInfo ==> EntryOk(id, mapInfo[id], mapAddr, vRandom)
    ensures code == 0 ==> setTried == TriedIds(mapInfo) && mapNew == Expected(mapInfo)
  {
    hide EntryOk;
    code, setTried, mapNew := 0, {}, map[];
    var rest := mapInfo.Keys;
    while rest != {}
      invariant rest <= mapInfo.Keys
      invariant forall id :: id in mapInfo && id !in rest ==> EntryOk(id, mapInfo[id], mapAddr, vRandom)
      invariant setTried == set id | id in mapInfo && id !in rest && mapInfo[id].fInTried
      invariant mapNew == map id | id in mapInfo && id !in rest && !mapInfo[id].fInTried :: mapInfo[id].nRefCount
      decreases |rest|
    {
      ghost var least := MinExists(rest);
      var n :| n in rest && forall x :: x in rest ==> n <= x;
      var info := mapInfo[n];
      code := EntryCode(n, info, mapAddr, vRandom);
      if code != 0 { return; }
      if info.fInTried { setTried := setTried + {n}; } else { mapNew := mapNew[n := info.nRefCount]; }
      rest := rest - {n};
    }
  }

  // Slots scanned before position i of bucket n.
  ghost predicate Before(k: Slot, n: nat, i: nat) {
    k.bucket < n || (k.bucket == n && k.pos < i)
  }

  ghost function IdsBefore(t: Table, n: nat, i: nat): set<int> {
    set k | k in t && Before(k, n, i) :: t[k]
  }

  ghost predicate TriedBefore(h: Hashing, m: Infos, t: Table, n: nat, i: nat) {
    forall k :: k in t && Before(k, n, i) ==> TriedSlotOk(h, m, k, t[k])
  }

  method CheckTried(a: AddrMan, tried: set<int>) returns (code: int, setTried: set<int>)
    requires a.Shape() && tried == TriedIds(a.mapInfo)
    ensures code == 0 <==> TriedBefore(a.h, a.mapInfo, Occupied(a.vvTried), TRIED_BUCKET_COUNT, 0)
    ensures code == 0 ==> setTried == tried - IdsBefore(Occupied(a.vvTried), TRIED_BUCKET_COUNT, 0)
  {
    hide Occupied, IdsBefore, TriedBefore, TriedIds, TriedSlotOk;
    ghost var t := Occupied(a.vvTried);
    code, setTried := 0, tried;
    ScanStarts(a.h, a.mapInfo, t);
    for n := 0 to TRIED_BUCKET_COUNT
      invariant code == 0 && TriedBefore(a.h, a.mapInfo, t, n, 0) && setTried == tried - IdsBefore(t, n, 0)
    {
      for i := 0 to BUCKET_SIZE
        invariant code == 0 && TriedBefore(a.h, a.mapInfo, t, n, i) && setTried == tried - IdsBefore(t, n, i)
      {
        var id := At(a.vvTried, Slot(n, i));
        TriedScanNext(a.h, a.mapInfo, t, n, i);
        if id != -1 {
          if id !in setTried { code := -11; return; }
          if a.h.triedBucket(a.mapInfo[id].service) != n { code := -17; return; }
          if a.h.position(false, n, a.mapInfo[id].service) != i { code := -18; return; }
          setTried := setTried - {id};
        }
      }
      ScanWraps(a, t, n);
    }
  }

  ghost predicate NewBefore(h: Hashing, m: Infos, t: Table, n: nat, i: nat) {
    forall k :: k in t && Before(k, n, i) ==> NewSlotOk(h, m, k, t[k])
  }

  ghost function RefsBefore(t: Table, id: int, n: nat, i: nat): set<Slot> {
    set k | k in t && t[k] == id && Before(k, n, i)
  }

  // What mapNew holds during the scan: for each new entry, the references not met yet, if any.
  ghost predicate Remaining(m: Infos, t: Table, mapNew: map<int, int>, n: nat, i: nat) {
    && (forall id :: id in mapNew ==>
        id in m && !m[id].fInTried && 0 < mapNew[id] == m[id].nRefCount - |RefsBefore(t, id, n, i)|)
    && (forall id :: id in m && !m[id].fInTried && id !in mapNew ==> m[id].nRefCount == |RefsBefore(t, id, n, i)|)
  }

  // New entries are referenced at least once, and the slots of the new table are as the scan wants them.
  ghost predicate NewOk(h: Hashing, m: Infos, t: Table) {
    && NewBefore(h, m, t, NEW_BUCKET_COUNT, 0)
    && (forall id :: id in m && !m[id].fInTried ==> |RefsBefore(t, id, NEW_BUCKET_COUNT, 0)| <= m[id].nRefCount)
  }

  method CheckNew(a: AddrMan, expected: map<int, int>) returns (code: int, mapNew: map<int, int>)
    requires a.Shape() && expected == Expected(a.mapInfo)
    requires forall id :: id in a.mapInfo && !a.mapInfo[id].fInTried ==> a.mapInfo[id].nRefCount > 0
    ensures code == 0 <==> NewOk(a.h, a.mapInfo, Occupied(a.vvNew))
    ensures code == 0 ==> Remaining(a.mapInfo, Occupied(a.vvNew), mapNew, NEW_BUCKET_COUNT, 0)
  {
    hide Occupied, RefsBefore, NewBefore, NewOk, NewSlotOk, Remaining;
    ghost var t := Occupied(a.vvNew);
    code, mapNew := 0, expected;
    NewScanStarts(a.h, a.mapInfo, t, mapNew);
    for n := 0 to NEW_BUCKET_COUNT
      invariant code == 0 && NewBefore(a.h, a.mapInfo, t, n, 0) && Remaining(a.mapInfo, t, mapNew, n, 0)
    {
      for i := 0 to BUCKET_SIZE
        invariant code == 0 && NewBefore(a.h, a.mapInfo, t, n, i) && Remaining(a.mapInfo, t, mapNew, n, i)
      {
        var id := At(a.vvNew, Slot(n, i));
        NewScanNext(a.h, a.mapInfo, t, mapNew, n, i);
        if id != -1 {
          if id !in mapNew { code := -12; return; }
          if a.h.position(true, n, a.mapInfo[id].service) != i { code := -19; return; }
          mapNew := if mapNew[id] - 1 == 0 then mapNew - {id} else mapNew[id := mapNew[id] - 1];
        }
      }
      NewScanWraps(a, t, mapNew, n);
    }
    NewScanEnds(a.h, a.mapInfo, t, mapNew);
  }

  lemma NewScanStarts(h: Hashing, m: Infos, t: Table, mapNew: map<int, int>)
    requires mapNew == Expected(m)
    requires forall id :: id in m && !m[id].fInTried ==> m[id].nRefCount > 0
    ensures NewBefore(h, m, t, 0, 0) && Remaining(m, t, mapNew, 0, 0)
  {
    forall id ensures RefsBefore(t, id, 0, 0) == {} {}
  }

  lemma NewScanWraps(a: AddrMan, t: Table, mapNew: map<int, int>, n: nat)
    requires a.Shape() && t == Occupied(a.vvNew)
    ensures NewBefore(a.h, a.mapInfo, t, n, BUCKET_SIZE) == NewBefore(a.h, a.mapInfo, t, n + 1, 0)
    ensures Remaining(a.mapInfo, t, mapNew, n, BUCKET_SIZE) == Remaining(a.mapInfo, t, mapNew, n + 1, 0)
  {
    assert forall k :: k in t ==> (Before(k, n, BUCKET_SIZE) <==> Before(k, n + 1, 0));
    forall id ensures RefsBefore(t, id, n, BUCKET_SIZE) == RefsBefore(t, id, n + 1, 0) {}
  }

  lemma NewScanEnds(h: Hashing, m: Infos, t: Table, mapNew: map<int, int>)
    requires NewBefore(h, m, t, NEW_BUCKET_COUNT, 0) && Remaining(m, t, mapNew, NEW_BUCKET_COUNT, 0)
    ensures NewOk(h, m, t)
  {}

  lemma RefsBeforeNext(t: Table, id: int, n: nat, i: nat)
    ensures var k := Slot(n, i);
            && RefsBefore(t, id, n, i + 1) ==
               (if k in t && t[k] == id then RefsBefore(t, id, n, i) + {k} else RefsBefore(t, id, n, i))
            && k !in RefsBefore(t, id, n, i)
  {}

  lemma RefsBeforeGrow(t: Table, id: int, n: nat, i: nat)
    requires n < NEW_BUCKET_COUNT
    ensures |RefsBefore(t, id, n, i)| <= |RefsBefore(t, id, NEW_BUCKET_COUNT, 0)|
  {
    SubsetSize(RefsBefore(t, id, n, i), RefsBefore(t, id, NEW_BUCKET_COUNT, 0));
  }

  // Scanning one more new slot: an id with no reference left to meet, or out of its position, means the scan fails
  // and the table is wrong; otherwise one reference is ticked off.
  lemma NewScanNext(h: Hashing, m: Infos, t: Table, mapNew: map<int, int>, n: nat, i: nat)
    requires NewBefore(h, m, t, n, i) && Remaining(m, t, mapNew, n, i) && n < NEW_BUCKET_COUNT
    ensures var k := Slot(n, i);
            && (k !in t ==> NewBefore(h, m, t, n, i + 1) && Remaining(m, t, mapNew, n, i + 1))
            && (k in t && t[k] !in mapNew ==> !NewOk(h, m, t))
            && (k in t && t[k] in mapNew ==> t[k] in m)
            && (k in t && t[k] in mapNew && k != h.NewSlotIn(n, m[t[k]].service) ==> !NewOk(h, m, t))
            && (k in t && t[k] in mapNew && k == h.NewSlotIn(n, m[t[k]].service) ==>
                  NewBefore(h, m, t, n, i + 1) && Remaining(m, t, Ticked(mapNew, t[k]), n, i + 1))
  {
    hide RefsBefore;
    var k := Slot(n, i);
    assert forall q :: Before(q, n, i + 1) <==> Before(q, n, i) || q == k;
    forall id ensures |RefsBefore(t, id, n, i + 1)| == |RefsBefore(t, id, n, i)| + if k in t && t[k] == id then 1
        else 0 {
      RefsBeforeNext(t, id, n, i);
    }
    if k in t {
      RefsBeforeGrow(t, t[k], n, i + 1);
      assert Before(k, NEW_BUCKET_COUNT, 0);
    }
  }

  ghost function Ticked(mapNew: map<int, int>, id: int): map<int, int>
    requires id in mapNew
  {
    if mapNew[id] - 1 == 0 then mapNew - {id} else mapNew[id := mapNew[id] - 1]
  }

  lemma ScanStarts(h: Hashing, m: Infos, t: Table)
    ensures TriedBefore(h, m, t, 0, 0) && IdsBefore(t, 0, 0) == {}
  {}

  lemma ScanWraps(a: AddrMan, t: Table, n: nat)
    requires a.Shape() && t == Occupied(a.vvTried)
    ensures IdsBefore(t, n, BUCKET_SIZE) == IdsBefore(t, n + 1, 0)
    ensures TriedBefore(a.h, a.mapInfo, t, n, BUCKET_SIZE) == TriedBefore(a.h, a.mapInfo, t, n + 1, 0)
  {
    assert forall k :: k in t ==> (Before(k, n, BUCKET_SIZE) <==> Before(k, n + 1, 0));
  }

  // Scanning one more tried slot: it is right exactly when its id is a tried id not met before, in its own slot.
  lemma TriedScanNext(h: Hashing, m: Infos, t: Table, n: nat, i: nat)
    requires TriedBefore(h, m, t, n, i)
    ensures var k := Slot(n, i);
            && (k !in t ==> TriedBefore(h, m, t, n, i + 1) && IdsBefore(t, n, i + 1) == IdsBefore(t, n, i))
            && (k in t ==> IdsBefore(t, n, i + 1) == IdsBefore(t, n, i) + {t[k]})
            && (k in t ==> (TriedBefore(h, m, t, n, i + 1) <==>
                  t[k] in TriedIds(m) - IdsBefore(t, n, i) && k == h.TriedSlot(m[t[k]].service)))
            && (k in t && n < TRIED_BUCKET_COUNT && !TriedBefore(h, m, t, n, i + 1) ==>
                !TriedBefore(h, m, t, TRIED_BUCKET_COUNT, 0))
            && (k in t && t[k] in TriedIds(m) ==> t[k] in m)
  {
    var k := Slot(n, i);
    assert forall q :: Before(q, n, i + 1) <==> Before(q, n, i) || q == k;
    if k in t {
      if t[k] in IdsBefore(t, n, i) {
        var q :| q in t && Before(q, n, i) && t[q] == t[k];
        assert TriedSlotOk(h, m, q, t[q]);
        assert q != k;
      }
    }
  }

  // Check_: it answers 0 exactly on consistent managers with a key.
  method Check(a: AddrMan) returns (code: int)
    requires a.Shape()
    ensures code == 0 <==> Consistent(a.h, a.View()) && !a.h.nullKey
  {
    hide EntryOk, Occupied, TriedTable, TriedIds, NewIds, RefsBefore, NewBefore, NewOk, NewSlotOk, Remaining,
        TriedBefore, IdsBefore, Refs;
    if |a.vRandom| != a.nTried + a.nNew { return -7; }
    var entryCode, setTried, mapNew := CheckEntries(a.mapInfo, a.mapAddr, a.vRandom);
    if entryCode != 0 { return entryCode; }
    ExpectedSize(a.mapInfo);
    if |setTried| != a.nTried { return -9; }
    if |mapNew| != a.nNew { return -10; }
    var triedCode, leftTried := CheckTried(a, setTried);
    TriedVerdict(a);
    if triedCode != 0 { return triedCode; }
    EntriesReferenced(a.mapInfo, a.mapAddr, a.vRandom);
    var newCode, leftNew := CheckNew(a, mapNew);
    NewVerdict(a);
    if newCode != 0 { return newCode; }
    if |leftTried| != 0 { return -13; }
    NewLeft(a, leftNew);
    if |leftNew| != 0 { return -15; }
    if a.h.nullKey { return -16; }
    return 0;
  }

  lemma ExpectedSize(m: Infos)
    ensures |Expected(m)| == |NewIds(m)|
  {
    assert Expected(m).Keys == NewIds(m);
  }

  lemma EntriesReferenced(m: Infos, mapAddr: map<NetAddr, int>, vRandom: seq<int>)
    requires forall id :: id in m ==> EntryOk(id, m[id], mapAddr, vRandom)
    ensures forall id :: id in m && !m[id].fInTried ==> m[id].nRefCount > 0
  {
    forall id | id in m && !m[id].fInTried ensures m[id].nRefCount > 0 {
      assert EntryOk(id, m[id], mapAddr, vRandom);
    }
  }

  lemma TriedVerdict(a: AddrMan)
    requires a.Shape()
    ensures var t := Occupied(a.vvTried);
            TriedTable(a.h, a.mapInfo, t) <==>
            TriedBefore(a.h, a.mapInfo, t, TRIED_BUCKET_COUNT, 0)
                && |TriedIds(a.mapInfo) - IdsBefore(t, TRIED_BUCKET_COUNT, 0)| == 0
  {
    var t := Occupied(a.vvTried);
    var m := a.mapInfo;
    assert forall k :: k in t ==> Before(k, TRIED_BUCKET_COUNT, 0);
    var left := TriedIds(m) - IdsBefore(t, TRIED_BUCKET_COUNT, 0);
    if TriedTable(a.h, m, t) {
      forall id | id in TriedIds(m) ensures id in IdsBefore(t, TRIED_BUCKET_COUNT, 0) {
        assert t[a.h.TriedSlot(m[id].service)] == id;
      }
      assert left == {};
    } else if TriedBefore(a.h, m, t, TRIED_BUCKET_COUNT, 0) && |left| == 0 {
      forall id | id in m && m[id].fInTried ensures a.h.TriedSlot(m[id].service) in t
          && t[a.h.TriedSlot(m[id].service)] == id {
        assert id in TriedIds(m) && id !in left;
        var k :| k in t && t[k] == id;
        assert TriedSlotOk(a.h, m, k, t[k]);
      }
      assert TriedTable(a.h, m, t);
    }
  }

  lemma NewVerdict(a: AddrMan)
    requires a.Shape()
    ensures var t := Occupied(a.vvNew);
            && (NewOk(a.h, a.mapInfo, t) <==>
                (forall k :: k in t ==> NewSlotOk(a.h, a.mapInfo, k, t[k]))
                && (forall id :: id in a.mapInfo && !a.mapInfo[id].fInTried ==>
                    |Refs(t, id)| <= a.mapInfo[id].nRefCount))
  {
    var t := Occupied(a.vvNew);
    assert forall k :: k in t ==> Before(k, NEW_BUCKET_COUNT, 0);
    forall id ensures RefsBefore(t, id, NEW_BUCKET_COUNT, 0) == Refs(t, id) {}
  }

  lemma NewLeft(a: AddrMan, mapNew: map<int, int>)
    requires a.Shape() && Remaining(a.mapInfo, Occupied(a.vvNew), mapNew, NEW_BUCKET_COUNT, 0)
    ensures |mapNew| == 0 <==>
            forall id :: id in a.mapInfo && !a.mapInfo[id].fInTried ==>
                a.mapInfo[id].nRefCount == |Refs(Occupied(a.vvNew), id)|
  {
    var t := Occupied(a.vvNew);
    assert forall k :: k in t ==> Before(k, NEW_BUCKET_COUNT, 0);
    forall id ensures RefsBefore(t, id, NEW_BUCKET_COUNT, 0) == Refs(t, id) {}
    if mapNew != map[] {
      var id := Pick(mapNew.Keys);
      assert id in a.mapInfo;
    }
  }
}
