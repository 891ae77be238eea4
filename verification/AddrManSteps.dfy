/** Each step of the address manager against its invariant. */
module AddrManSteps {
  import opened AddrManState

  // m2 has the entries of m, with the same service and the same table.
  ghost predicate SameEntries(m: Infos, m2: Infos) {
    m.Keys == m2.Keys && forall id :: id in m ==> m2[id].service == m[id].service && m2[id].fInTried == m[id].fInTried
  }

  lemma SameEntriesTables(h: Hashing, m: Infos, m2: Infos, mapAddr: map<NetAddr, int>, vvTried: Table)
    requires SameEntries(m, m2) && AddrIndex(m, mapAddr) && TriedTable(h, m, vvTried)
    ensures AddrIndex(m2, mapAddr) && TriedTable(h, m2, vvTried)
    ensures TriedIds(m) == TriedIds(m2) && NewIds(m) == NewIds(m2)
  {
    forall id ensures id in TriedIds(m) <==> id in TriedIds(m2) {
      assert id in m.Keys <==> id in m2.Keys;
    }
    forall id ensures id in NewIds(m) <==> id in NewIds(m2) {
      assert id in m.Keys <==> id in m2.Keys;
    }
  }

  lemma SameEntriesNew(h: Hashing, m: Infos, m2: Infos, vvNew: Table)
    requires SameEntries(m, m2) && NewTable(h, m, vvNew)
    requires forall id :: id in m ==> m2[id].nRefCount == m[id].nRefCount
    ensures NewTable(h, m2, vvNew)
  {
  }

  lemma UpdateKeepsCore(h: Hashing, s: State, id: int, info: AddrInfo, loose: set<int>, d: int)
    requires Core(h, s, loose, d)
    requires id in s.mapInfo && info.service == s.mapInfo[id].service && info.nRefCount == s.mapInfo[id].nRefCount
    requires info.fInTried == s.mapInfo[id].fInTried && info.nRandomPos == s.mapInfo[id].nRandomPos
    requires info.nLastTry >= 0 && info.nLastSuccess >= 0 && (info.fInTried ==> info.nLastSuccess > 0)
    ensures Core(h, Update(s, id, info), loose, d)
  {
    hide AddrIndex, TriedTable, NewTable, TriedIds, NewIds;
    var t := Update(s, id, info);
    SameEntriesTables(h, s.mapInfo, t.mapInfo, s.mapAddr, s.vvTried);
    SameEntriesNew(h, s.mapInfo, t.mapInfo, s.vvNew);
  }

  // ---------------------------------------------------------------- Create

  lemma CreateTables(h: Hashing, s: State, id: int, x: AddrInfo)
    requires TriedTable(h, s.mapInfo, s.vvTried) && NewTable(h, s.mapInfo, s.vvNew)
    requires id !in s.mapInfo && !x.fInTried && x.nRefCount == 0
    ensures TriedTable(h, s.mapInfo[id := x], s.vvTried) && NewTable(h, s.mapInfo[id := x], s.vvNew)
    ensures TriedIds(s.mapInfo[id := x]) == TriedIds(s.mapInfo)
    ensures NewIds(s.mapInfo[id := x]) == NewIds(s.mapInfo) + {id}
  {
    assert Refs(s.vvNew, id) == {};
  }

  lemma CreateKeepsCore(h: Hashing, s: State, addr: Address, source: NetAddr)
    requires Core(h, s, {}, 0)
    requires addr.service.net !in s.mapAddr
    ensures var t := Create(s, addr, source);
            Core(h, t.(nNew := t.nNew + 1), {s.nIdCount}, 0)
  {
    hide TriedTable, NewTable, TriedIds, NewIds;
    var id := s.nIdCount;
    var t := Create(s, addr, source);
    CreateTables(h, s, id, t.mapInfo[id]);
    assert id !in NewIds(s.mapInfo) by { CreateFresh(s.mapInfo, id); }
  }

  lemma CreateFresh(m: Infos, id: int)
    requires id !in m
    ensures id !in NewIds(m)
  {}

  // ---------------------------------------------------------------- SwapRandom and Delete

  // m2 differs from m only in nRandomPos.
  ghost predicate SameButPos(m: Infos, m2: Infos) {
    m.Keys == m2.Keys && forall id :: id in m ==> m2[id] == m[id].(nRandomPos := m2[id].nRandomPos)
  }

  lemma SwapRandomIndex(s: State, i: nat, j: nat)
    requires RandomIndex(s.mapInfo, s.vRandom)
    requires i < |s.vRandom| && j < |s.vRandom|
    ensures var t := SwapRandom(s, i, j);
            RandomIndex(t.mapInfo, t.vRandom) && SameButPos(s.mapInfo, t.mapInfo)
  {
    if i != j {
      var t := SwapRandom(s, i, j);
      var a, b := s.vRandom[i], s.vRandom[j];
      assert a != b;
      forall id | id in t.mapInfo
        ensures 0 <= t.mapInfo[id].nRandomPos < |t.vRandom| && t.vRandom[t.mapInfo[id].nRandomPos] == id
      {
        assert id in s.mapInfo;
      }
    }
  }

  lemma PopRandomIndex(m: Infos, vRandom: seq<int>)
    requires RandomIndex(m, vRandom) && vRandom != []
    ensures RandomIndex(m - {vRandom[|vRandom| - 1]}, vRandom[..|vRandom| - 1])
  {
    var last := |vRandom| - 1;
    var m2 := m - {vRandom[last]};
    forall x | x in m2 ensures m2[x].nRandomPos != last {
      assert vRandom[m[x].nRandomPos] == x;
    }
  }

  lemma RemoveAddrIndex(m: Infos, mapAddr: map<NetAddr, int>, id: int)
    requires AddrIndex(m, mapAddr) && id in m
    ensures AddrIndex(m - {id}, mapAddr - {m[id].service.net})
  {}

  lemma DeleteIndexes(h: Hashing, s: State, id: int)
    requires AddrIndex(s.mapInfo, s.mapAddr) && TriedTable(h, s.mapInfo, s.vvTried) && Deletable(s, id)
    ensures var t := Delete(s, id);
            && AddrIndex(t.mapInfo, t.mapAddr)
            && RandomIndex(t.mapInfo, t.vRandom)
            && t.mapInfo.Keys == s.mapInfo.Keys - {id}
            && (forall x :: x in t.mapInfo ==> t.mapInfo[x] == s.mapInfo[x].(nRandomPos := t.mapInfo[x].nRandomPos))
  {
    hide AddrIndex, TriedTable, TriedIds, NewIds, RandomIndex;
    DeleteSwaps(s, id);
    var u := SwapRandom(s, s.mapInfo[id].nRandomPos, |s.vRandom| - 1);
    SameEntriesTables(h, s.mapInfo, u.mapInfo, s.mapAddr, s.vvTried);
    PopRandomIndex(u.mapInfo, u.vRandom);
    RemoveAddrIndex(u.mapInfo, s.mapAddr, id);
  }

  // Delete first swaps the entry to the end of the random order.
  lemma DeleteSwaps(s: State, id: int)
    requires Deletable(s, id)
    ensures 0 <= s.mapInfo[id].nRandomPos < |s.vRandom|
    ensures var u := SwapRandom(s, s.mapInfo[id].nRandomPos, |s.vRandom| - 1);
            && RandomIndex(u.mapInfo, u.vRandom) && SameButPos(s.mapInfo, u.mapInfo)
            && |u.vRandom| == |s.vRandom| && u.vRandom[|u.vRandom| - 1] == id
            && u.mapInfo.Keys == s.mapInfo.Keys
  {
    var last := |s.vRandom| - 1;
    var pos := s.mapInfo[id].nRandomPos;
    SwapRandomIndex(s, pos, last);
    var u := SwapRandom(s, pos, last);
    assert u.vRandom[last] == id;
    assert u.mapInfo.Keys == s.mapInfo.Keys;
  }

  lemma DeleteTables(h: Hashing, s: State, m2: Infos, id: int)
    requires TriedTable(h, s.mapInfo, s.vvTried) && NewTable(h, s.mapInfo, s.vvNew)
    requires id in s.mapInfo && !s.mapInfo[id].fInTried && s.mapInfo[id].nRefCount == 0
    requires m2.Keys == s.mapInfo.Keys - {id}
    requires forall x :: x in m2 ==> m2[x] == s.mapInfo[x].(nRandomPos := m2[x].nRandomPos)
    ensures TriedTable(h, m2, s.vvTried) && NewTable(h, m2, s.vvNew)
    ensures TriedIds(m2) == TriedIds(s.mapInfo)
    ensures NewIds(m2) == NewIds(s.mapInfo) - {id}
  {
    assert Refs(s.vvNew, id) == {};
    assert forall k :: k in s.vvNew ==> k !in Refs(s.vvNew, id);
    assert forall x :: x in m2 <==> x in s.mapInfo && x != id;
  }

  lemma DeleteKeepsCore(h: Hashing, s: State, id: int, loose: set<int>, d: int)
    requires Core(h, s, loose, d) && Deletable(s, id)
    ensures Core(h, Delete(s, id), loose - {id}, d)
  {
    hide AddrIndex, TriedTable, NewTable, TriedIds, NewIds, RandomIndex;
    DeleteIndexes(h, s, id);
    DeleteTables(h, s, Delete(s, id).mapInfo, id);
    assert id in NewIds(s.mapInfo) by { NewIdsHas(s.mapInfo, id); }
  }

  lemma NewIdsHas(m: Infos, id: int)
    requires id in m && !m[id].fInTried
    ensures id in NewIds(m)
  {}

  // ---------------------------------------------------------------- references in the new table

  // One entry's reference count changes; the rest of the map stays.
  lemma RefCountKeeps(h: Hashing, s: State, id: int, n: int, loose: set<int>)
    requires id in s.mapInfo
    requires AddrIndex(s.mapInfo, s.mapAddr) && TriedTable(h, s.mapInfo, s.vvTried) && RandomIndex(s.mapInfo, s.vRandom)
    requires StatsOk(s.mapInfo) && RefBounds(s.mapInfo, loose)
    requires n <= NEW_BUCKETS_PER_ADDRESS
    ensures var m2 := WithRefCount(s.mapInfo, id, n);
            && AddrIndex(m2, s.mapAddr) && TriedTable(h, m2, s.vvTried) && RandomIndex(m2, s.vRandom) && StatsOk(m2)
            && RefBounds(m2, loose + {id}) && (n >= 1 ==> RefBounds(m2, loose - {id}))
            && TriedIds(m2) == TriedIds(s.mapInfo) && NewIds(m2) == NewIds(s.mapInfo)
            && IdsBelow(m2, s.nIdCount) == IdsBelow(s.mapInfo, s.nIdCount)
  {
    hide TriedTable, TriedIds, NewIds, AddrIndex;
    var m2 := WithRefCount(s.mapInfo, id, n);
    assert m2.Keys == s.mapInfo.Keys;
    SameEntriesTables(h, s.mapInfo, m2, s.mapAddr, s.vvTried);
  }

  lemma DropRefTable(h: Hashing, m: Infos, vvNew: Table, k: Slot)
    requires NewTable(h, m, vvNew) && k in vvNew
    ensures vvNew[k] in m
    ensures NewTable(h, WithRefCount(m, vvNew[k], m[vvNew[k]].nRefCount - 1), vvNew - {k})
  {
    var id := vvNew[k];
    var v2 := vvNew - {k};
    assert NewSlotOk(h, m, k, id);
    var m2 := WithRefCount(m, id, m[id].nRefCount - 1);
    forall x | x in m2 ensures m2[x].nRefCount == |Refs(v2, x)| {
      assert Refs(v2, x) == Refs(vvNew, x) - {k};
      assert k in Refs(vvNew, x) <==> x == id;
    }
    forall q | q in v2 ensures NewSlotOk(h, m2, q, v2[q]) {
      assert NewSlotOk(h, m, q, vvNew[q]);
    }
  }

  lemma DropRefKeepsCore(h: Hashing, s: State, k: Slot, loose: set<int>, d: int)
    requires Core(h, s, loose, d) && k in s.vvNew
    ensures s.vvNew[k] in s.mapInfo
    ensures Core(h, DropRef(s, k), loose + {s.vvNew[k]}, d)
  {
    hide AddrIndex, TriedTable, NewTable, TriedIds, NewIds, RandomIndex;
    DropRefTable(h, s.mapInfo, s.vvNew, k);
    var id := s.vvNew[k];
    assert !s.mapInfo[id].fInTried by { NewOccupant(h, s.mapInfo, s.vvNew, k); }
    RefCountKeeps(h, s, id, s.mapInfo[id].nRefCount - 1, loose);
  }

  lemma NewOccupant(h: Hashing, m: Infos, vvNew: Table, k: Slot)
    requires NewTable(h, m, vvNew) && k in vvNew
    ensures vvNew[k] in m && !m[vvNew[k]].fInTried && m[vvNew[k]].nRefCount >= 1
  {
    assert NewSlotOk(h, m, k, vvNew[k]);
    assert k in Refs(vvNew, vvNew[k]);
  }

  lemma RefsAdd(vvNew: Table, k: Slot, id: int, x: int)
    requires k !in vvNew
    ensures |Refs(vvNew[k := id], x)| == |Refs(vvNew, x)| + if x == id then 1 else 0
  {
    assert Refs(vvNew[k := id], x) == if x == id then Refs(vvNew, x) + {k} else Refs(vvNew, x);
  }

  lemma AddRefTable(h: Hashing, m: Infos, vvNew: Table, k: Slot, id: int)
    requires NewTable(h, m, vvNew) && k !in vvNew && NewSlotOk(h, m, k, id)
    ensures NewTable(h, WithRefCount(m, id, m[id].nRefCount + 1), vvNew[k := id])
  {
    hide Refs;
    var v2 := vvNew[k := id];
    var m2 := WithRefCount(m, id, m[id].nRefCount + 1);
    forall x | x in m2 ensures m2[x].nRefCount == |Refs(v2, x)| {
      RefsAdd(vvNew, k, id, x);
    }
    forall q | q in v2 ensures NewSlotOk(h, m2, q, v2[q]) {
      if q != k { assert NewSlotOk(h, m, q, vvNew[q]); }
    }
  }

  lemma AddRefKeepsCore(h: Hashing, s: State, k: Slot, id: int, loose: set<int>, d: int)
    requires Core(h, s, loose, d) && k !in s.vvNew && NewSlotOk(h, s.mapInfo, k, id)
    requires s.mapInfo[id].nRefCount < NEW_BUCKETS_PER_ADDRESS
    ensures Core(h, AddRef(s, k, id), loose - {id}, d)
  {
    hide AddrIndex, TriedTable, TriedIds, NewIds, RandomIndex;
    RefCountKeeps(h, s, id, s.mapInfo[id].nRefCount + 1, loose);
    AddRefTable(h, s.mapInfo, s.vvNew, k, id);
  }

  // The entry that clearing slot k deletes: its occupant, when k is the occupant's last reference.
  function Lost(s: State, k: Slot): set<int> {
    if k in s.vvNew && s.vvNew[k] in s.mapInfo && s.mapInfo[s.vvNew[k]].nRefCount == 1 then {s.vvNew[k]} else {}
  }

  // What ClearNew does, entry by entry; nRandomPos is free, as Delete moves one entry within vRandom.
  ghost predicate Spared(s: State, t: State, k: Slot) {
    && t.vvNew == s.vvNew - {k}
    && t.mapInfo.Keys == s.mapInfo.Keys - Lost(s, k)
    && t.vvTried == s.vvTried && t.nTried == s.nTried && t.nIdCount == s.nIdCount
    && t.collisions == s.collisions && t.nLastGood == s.nLastGood
    && (forall x :: x in t.mapInfo ==>
          t.mapInfo[x] == s.mapInfo[x].(nRandomPos := t.mapInfo[x].nRandomPos,
                                        nRefCount := s.mapInfo[x].nRefCount - if k in s.vvNew && s.vvNew[k] == x then 1
                                            else 0))
  }

  lemma DropRefIndex(s: State, k: Slot)
    requires RandomIndex(s.mapInfo, s.vRandom) && k in s.vvNew && s.vvNew[k] in s.mapInfo
    ensures var t := DropRef(s, k);
            t.mapInfo.Keys == s.mapInfo.Keys && RandomIndex(t.mapInfo, t.vRandom)
  {
    assert DropRef(s, k).mapInfo.Keys == s.mapInfo.Keys;
  }

  lemma ClearNewSpares(h: Hashing, s: State, k: Slot)
    requires AddrIndex(s.mapInfo, s.mapAddr) && RandomIndex(s.mapInfo, s.vRandom) && TriedTable(h, s.mapInfo, s.vvTried)
    requires k in s.vvNew ==> s.vvNew[k] in s.mapInfo && !s.mapInfo[s.vvNew[k]].fInTried
    ensures Spared(s, ClearNew(s, k), k)
  {
    hide TriedTable, TriedIds, NewIds, AddrIndex, RandomIndex;
    if k in s.vvNew {
      var id := s.vvNew[k];
      var t := DropRef(s, k);
      DropRefIndex(s, k);
      if t.mapInfo[id].nRefCount == 0 {
        SameEntriesTables(h, s.mapInfo, t.mapInfo, s.mapAddr, s.vvTried);
        DeleteIndexes(h, t, id);
      }
    }
  }

  lemma ClearNewKeepsCore(h: Hashing, s: State, k: Slot, loose: set<int>, d: int)
    requires Core(h, s, loose, d)
    requires k in s.vvNew ==> s.vvNew[k] !in loose
    ensures k in s.vvNew ==> s.vvNew[k] in s.mapInfo && !s.mapInfo[s.vvNew[k]].fInTried
    ensures Core(h, ClearNew(s, k), loose, d)
    ensures Spared(s, ClearNew(s, k), k)
  {
    hide TriedTable, NewTable, TriedIds, NewIds, RandomIndex, AddrIndex, Spared;
    if k in s.vvNew {
      NewOccupant(h, s.mapInfo, s.vvNew, k);
      ClearNewCore(h, s, k, loose, d);
    }
    ClearNewSpares(h, s, k);
  }

  lemma ClearNewCore(h: Hashing, s: State, k: Slot, loose: set<int>, d: int)
    requires Core(h, s, loose, d)
    requires k in s.vvNew && s.vvNew[k] !in loose
    requires s.vvNew[k] in s.mapInfo && !s.mapInfo[s.vvNew[k]].fInTried
    ensures Core(h, ClearNew(s, k), loose, d)
  {
    hide TriedTable, NewTable, TriedIds, NewIds, RandomIndex, AddrIndex, Counters, StatsOk, IdsBelow;
    var id := s.vvNew[k];
    DropRefKeepsCore(h, s, k, loose, d);
    var t := DropRef(s, k);
    assert loose + {id} - {id} == loose;
    if t.mapInfo[id].nRefCount == 0 {
      DeleteKeepsCore(h, t, id, loose + {id}, d);
    } else {
      NewOccupant(h, s.mapInfo, s.vvNew, k);
    }
  }

  // ---------------------------------------------------------------- MakeTried

  lemma LeaveNewTable(h: Hashing, m: Infos, vvNew: Table, id: int)
    requires NewTable(h, m, vvNew) && id in m
    ensures m[id].nRefCount == |Refs(vvNew, id)|
    ensures NewTable(h, WithRefCount(m, id, 0), vvNew - Refs(vvNew, id))
  {
    var v2 := vvNew - Refs(vvNew, id);
    var m2 := WithRefCount(m, id, 0);
    forall x | x in m2 ensures m2[x].nRefCount == |Refs(v2, x)| {
      assert Refs(v2, x) == if x == id then {} else Refs(vvNew, x);
    }
    forall q | q in v2 ensures NewSlotOk(h, m2, q, v2[q]) {
      assert NewSlotOk(h, m, q, vvNew[q]);
    }
  }

  lemma LeaveNewKeepsCore(h: Hashing, s: State, id: int)
    requires Core(h, s, {}, 0) && id in s.mapInfo
    ensures Core(h, LeaveNew(s, id), {id}, 1)
    ensures LeaveNew(s, id).mapInfo == WithRefCount(s.mapInfo, id, 0)
  {
    hide AddrIndex, TriedTable, TriedIds, NewIds, RandomIndex, NewTable, Refs;
    LeaveNewTable(h, s.mapInfo, s.vvNew, id);
    RefCountKeeps(h, s, id, 0, {});
    assert {} + {id} == {id};
  }

  // An entry with no reference moves between the tried table and the outside.
  lemma SetTriedNewTable(h: Hashing, m: Infos, vvNew: Table, id: int, b: bool)
    requires NewTable(h, m, vvNew) && id in m && m[id].nRefCount == 0
    ensures NewTable(h, WithTried(m, id, b), vvNew)
  {
    assert Refs(vvNew, id) == {};
    assert forall k :: k in vvNew ==> k !in Refs(vvNew, id);
  }

  lemma SetTriedIndexes(s: State, id: int, b: bool)
    requires AddrIndex(s.mapInfo, s.mapAddr) && RandomIndex(s.mapInfo, s.vRandom) && id in s.mapInfo
    ensures AddrIndex(WithTried(s.mapInfo, id, b), s.mapAddr) && RandomIndex(WithTried(s.mapInfo, id, b), s.vRandom)
  {}

  lemma LeaveTriedTable(h: Hashing, m: Infos, vvTried: Table, k: Slot)
    requires TriedTable(h, m, vvTried) && k in vvTried
    ensures vvTried[k] in m && m[vvTried[k]].fInTried
    ensures TriedTable(h, WithTried(m, vvTried[k], false), vvTried - {k})
    ensures TriedIds(WithTried(m, vvTried[k], false)) == TriedIds(m) - {vvTried[k]}
    ensures NewIds(WithTried(m, vvTried[k], false)) == NewIds(m) + {vvTried[k]}
    ensures vvTried[k] in TriedIds(m) && vvTried[k] !in NewIds(m)
  {
    var id := vvTried[k];
    assert TriedSlotOk(h, m, k, id);
    var m2, v2 := WithTried(m, id, false), vvTried - {k};
    forall q | q in v2 ensures TriedSlotOk(h, m2, q, v2[q]) {
      assert TriedSlotOk(h, m, q, vvTried[q]);
    }
  }

  lemma LeaveTriedKeepsCore(h: Hashing, s: State, k: Slot, loose: set<int>, d: int)
    requires Core(h, s, loose, d) && k in s.vvTried
    ensures s.vvTried[k] in s.mapInfo && s.mapInfo[s.vvTried[k]].fInTried && s.mapInfo[s.vvTried[k]].nRefCount == 0
    ensures Core(h, LeaveTried(s, k), loose + {s.vvTried[k]}, d + 1)
  {
    hide AddrIndex, TriedTable, TriedIds, NewIds, RandomIndex, NewTable;
    var id := s.vvTried[k];
    LeaveTriedTable(h, s.mapInfo, s.vvTried, k);
    TriedUnreferenced(h, s.mapInfo, s.vvNew, id);
    SetTriedNewTable(h, s.mapInfo, s.vvNew, id, false);
    SetTriedIndexes(s, id, false);
  }

  lemma TriedUnreferenced(h: Hashing, m: Infos, vvNew: Table, id: int)
    requires NewTable(h, m, vvNew) && id in m && m[id].fInTried
    ensures m[id].nRefCount == 0
  {
    assert forall k :: k in Refs(vvNew, id) ==> NewSlotOk(h, m, k, vvNew[k]);
    assert Refs(vvNew, id) == {};
  }

  lemma EnterTriedTable(h: Hashing, m: Infos, vvTried: Table, id: int)
    requires TriedTable(h, m, vvTried) && id in m && !m[id].fInTried
    requires h.TriedSlot(m[id].service) !in vvTried
    ensures TriedTable(h, WithTried(m, id, true), vvTried[h.TriedSlot(m[id].service) := id])
    ensures TriedIds(WithTried(m, id, true)) == TriedIds(m) + {id}
    ensures NewIds(WithTried(m, id, true)) == NewIds(m) - {id}
    ensures id !in TriedIds(m) && id in NewIds(m)
  {
    var k := h.TriedSlot(m[id].service);
    var m2, v2 := WithTried(m, id, true), vvTried[k := id];
    forall q | q in v2 ensures TriedSlotOk(h, m2, q, v2[q]) {
      if q != k { assert TriedSlotOk(h, m, q, vvTried[q]); }
    }
  }

  lemma EnterTriedKeepsCore(h: Hashing, s: State, id: int, d: int)
    requires Core(h, s, {id}, d) && id in s.mapInfo && !s.mapInfo[id].fInTried && s.mapInfo[id].nRefCount == 0
    requires s.mapInfo[id].nLastSuccess > 0 && h.TriedSlot(s.mapInfo[id].service) !in s.vvTried
    ensures Core(h, EnterTried(s, h.TriedSlot(s.mapInfo[id].service), id), {}, d - 1)
  {
    hide AddrIndex, TriedTable, TriedIds, NewIds, RandomIndex, NewTable;
    EnterTriedTable(h, s.mapInfo, s.vvTried, id);
    SetTriedNewTable(h, s.mapInfo, s.vvNew, id, true);
    SetTriedIndexes(s, id, true);
  }

  lemma EnterNewKeepsCore(h: Hashing, s: State, k: Slot, id: int, loose: set<int>, d: int)
    requires Core(h, s, loose, d) && k !in s.vvNew && NewSlotOk(h, s.mapInfo, k, id) && s.mapInfo[id].nRefCount == 0
    ensures Core(h, EnterNew(s, k, id), loose - {id}, d - 1)
  {
    hide AddrIndex, TriedTable, TriedIds, NewIds, RandomIndex;
    RefCountKeeps(h, s, id, 1, loose);
    AddRefTable(h, s.mapInfo, s.vvNew, k, id);
  }

  // MakeTried may evict from tried slot k while the entry `moving` is in neither table.
  ghost predicate Evicting(h: Hashing, s: State, k: Slot, moving: int) {
    && Core(h, s, {moving}, 1) && k in s.vvTried
    && moving in s.mapInfo && !s.mapInfo[moving].fInTried && s.mapInfo[moving].nRefCount == 0
  }

  // The eviction inside MakeTried: slot k's occupant moves to its own new slot, clearing that slot first.
  function Evict(h: Hashing, s: State, k: Slot, moving: int): State
    requires Evicting(h, s, k, moving)
  {
    EvictKeepsCore(h, s, k, moving);
    hide *;
    var id := s.vvTried[k];
    var u := LeaveTried(s, k);
    var nk := h.NewSlot(u.mapInfo[id].service, u.mapInfo[id].source);
    EnterNew(ClearNew(u, nk), nk, id)
  }

  lemma Unreferenced(h: Hashing, m: Infos, vvNew: Table, id: int)
    requires NewTable(h, m, vvNew) && id in m && m[id].nRefCount == 0
    ensures forall k :: k in vvNew ==> vvNew[k] != id
  {
    assert Refs(vvNew, id) == {};
    assert forall k :: k in vvNew ==> k !in Refs(vvNew, id);
  }

  lemma EvictKeepsCore(h: Hashing, s: State, k: Slot, moving: int)
    requires Evicting(h, s, k, moving)
    ensures k in s.vvTried && s.vvTried[k] in s.mapInfo && s.vvTried[k] != moving
    ensures var u := LeaveTried(s, k);
            var id := s.vvTried[k];
            var nk := h.NewSlot(u.mapInfo[id].service, u.mapInfo[id].source);
            && (nk in u.vvNew ==> u.vvNew[nk] in u.mapInfo && !u.mapInfo[u.vvNew[nk]].fInTried)
            && RandomIndex(u.mapInfo, u.vRandom)
            && Spared(u, ClearNew(u, nk), nk)
            && (nk in u.vvNew ==> u.vvNew[nk] != id && u.vvNew[nk] != moving)
            && id in ClearNew(u, nk).mapInfo
            && Core(h, EnterNew(ClearNew(u, nk), nk, id), {moving}, 1)
  {
    hide AddrIndex, TriedTable, TriedIds, NewIds, RandomIndex, NewTable, Counters, StatsOk, IdsBelow, RefBounds;
    var id := s.vvTried[k];
    LeaveTriedKeepsCore(h, s, k, {moving}, 1);
    var u := LeaveTried(s, k);
    assert {moving} + {id} - {id} == {moving};
    var nk := h.NewSlot(u.mapInfo[id].service, u.mapInfo[id].source);
    Unreferenced(h, u.mapInfo, u.vvNew, id);
    Unreferenced(h, u.mapInfo, u.vvNew, moving);
    ClearNewKeepsCore(h, u, nk, {moving} + {id}, 2);
    var v := ClearNew(u, nk);
    assert id in v.mapInfo && v.mapInfo[id] == u.mapInfo[id].(nRandomPos := v.mapInfo[id].nRandomPos);
    assert NewSlotOk(h, v.mapInfo, nk, id);
    EnterNewKeepsCore(h, v, nk, id, {moving} + {id}, 2);
  }

  // What an eviction changes, entry by entry.
  lemma EvictEffect(h: Hashing, s: State, k: Slot, moving: int)
    requires Evicting(h, s, k, moving)
    ensures var t := Evict(h, s, k, moving);
            var id := s.vvTried[k];
            && Core(h, t, {moving}, 1)
            && t.vvTried == s.vvTried - {k}
            && id in s.mapInfo && id in t.mapInfo && id != moving && moving in t.mapInfo
            && (var nk := h.NewSlot(s.mapInfo[id].service, s.mapInfo[id].source);
                && t.vvNew == s.vvNew[nk := id]
                && (nk in s.vvNew ==> s.vvNew[nk] != moving)
                && t.mapInfo.Keys == s.mapInfo.Keys - Lost(s, nk)
                && (forall x :: x in t.mapInfo ==> EvictedInfo(s, t, nk, id, x)))
            && t.nIdCount == s.nIdCount && t.collisions == s.collisions && t.nLastGood == s.nLastGood
  {
    hide AddrIndex, TriedTable, TriedIds, NewIds, RandomIndex, NewTable, Counters, StatsOk, IdsBelow, RefBounds, Core;
    EvictKeepsCore(h, s, k, moving);
    var id := s.vvTried[k];
    var u := LeaveTried(s, k);
    var nk := h.NewSlot(u.mapInfo[id].service, u.mapInfo[id].source);
    var v := ClearNew(u, nk);
    var t := EnterNew(v, nk, id);
    assert t == Evict(h, s, k, moving);
    assert t.vvNew == s.vvNew[nk := id];
    assert u.mapInfo.Keys == s.mapInfo.Keys;
    assert Lost(u, nk) == Lost(s, nk);
    assert moving in u.mapInfo.Keys - Lost(u, nk);
    assert v.mapInfo.Keys == s.mapInfo.Keys - Lost(s, nk);
  }

  // Entry x after the eviction of id into new slot nk.
  ghost predicate EvictedInfo(s: State, t: State, nk: Slot, id: int, x: int) {
    && x in s.mapInfo && x in t.mapInfo
    && (var pos := t.mapInfo[x].nRandomPos;
        t.mapInfo[x] ==
        if x == id then s.mapInfo[x].(fInTried := false, nRefCount := 1, nRandomPos := pos)
        else if nk in s.vvNew && s.vvNew[nk] == x then s.mapInfo[x].(nRefCount := s.mapInfo[x].nRefCount - 1,
            nRandomPos := pos)
        else s.mapInfo[x].(nRandomPos := pos))
  }
}
