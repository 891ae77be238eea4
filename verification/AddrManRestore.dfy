/** Reading an address manager file back: nothing is lost. */
module AddrManRestore {
  import opened AddrManState
  import opened AddrManSteps
  import opened AddrManOps
  import opened AddrManCheck
  import opened AddrMan
  import opened AddrManFile

  // ---------------------------------------------------------------- slots bound the counts

  lemma {:induction false} GridSize(rows: nat, cols: nat)
    ensures |Grid(rows, cols)| == rows * cols
    decreases rows
  {
    if rows == 0 {
      assert Grid(0, cols) == {};
    } else {
      GridSize(rows - 1, cols);
      RowSize(rows - 1, cols);
      GridRow(rows, cols);
      OneMoreRow(rows, cols);
    }
  }

  lemma GridRow(rows: nat, cols: nat)
    requires 0 < rows
    ensures Grid(rows, cols) == Grid(rows - 1, cols) + Row(rows - 1, cols)
    ensures |Grid(rows, cols)| == |Grid(rows - 1, cols)| + |Row(rows - 1, cols)|
  {
    assert Grid(rows, cols) == Grid(rows - 1, cols) + Row(rows - 1, cols);
    assert Grid(rows - 1, cols) !! Row(rows - 1, cols);
  }

  lemma OneMoreRow(rows: nat, cols: nat)
    requires 0 < rows
    ensures rows * cols == (rows - 1) * cols + cols
  {}

  ghost function Row(b: nat, cols: nat): set<Slot> {
    set p | 0 <= p < cols :: Slot(b, p)
  }

  lemma {:induction false} RowSize(b: nat, cols: nat)
    ensures |Row(b, cols)| == cols
    decreases cols
  {
    if cols == 0 {
      assert Row(b, 0) == {};
    } else {
      RowSize(b, cols - 1);
      assert Row(b, cols) == Row(b, cols - 1) + {Slot(b, cols - 1)};
    }
  }

  // Ids that each occupy some slot are no more than the slots.
  lemma {:induction false} SlotsBoundIds(t: Table, ids: set<int>, slots: set<Slot>)
    requires slots <= t.Keys && forall id :: id in ids ==> exists k :: k in slots && t[k] == id
    ensures |ids| <= |slots|
    decreases |ids|
  {
    if ids != {} {
      var id := Pick(ids);
      var k :| k in slots && t[k] == id;
      forall x | x in ids - {id} ensures exists q :: q in slots - {k} && t[q] == x {
        var q :| q in slots && t[q] == x;
        assert q in slots - {k};
      }
      SlotsBoundIds(t, ids - {id}, slots - {k});
    }
  }

  // A consistent manager respects the size limits of the file.
  lemma CountsWithinLimits(h: Hashing, s: State)
    requires Core(h, s, {}, 0)
    ensures s.nNew <= NEW_BUCKET_COUNT * BUCKET_SIZE
    ensures s.nTried <= TRIED_BUCKET_COUNT * BUCKET_SIZE
  {
    hide AddrIndex, RandomIndex, StatsOk, IdsBelow;
    var news := Grid(NEW_BUCKET_COUNT, BUCKET_SIZE);
    forall k | k in s.vvNew ensures k in news { assert NewSlotOk(h, s.mapInfo, k, s.vvNew[k]); }
    forall id | id in NewIds(s.mapInfo) ensures exists k :: k in s.vvNew.Keys && s.vvNew[k] == id {
      assert Refs(s.vvNew, id) != {};
      var k :| k in Refs(s.vvNew, id);
    }
    SlotsBoundIds(s.vvNew, NewIds(s.mapInfo), s.vvNew.Keys);
    GridSize(NEW_BUCKET_COUNT, BUCKET_SIZE);
    SubsetSize(s.vvNew.Keys, news);
    var tried := Grid(TRIED_BUCKET_COUNT, BUCKET_SIZE);
    forall k | k in s.vvTried ensures k in tried { assert TriedSlotOk(h, s.mapInfo, k, s.vvTried[k]); }
    SlotsBoundIds(s.vvTried, TriedIds(s.mapInfo), s.vvTried.Keys);
    GridSize(TRIED_BUCKET_COUNT, BUCKET_SIZE);
    SubsetSize(s.vvTried.Keys, tried);
  }

  // ---------------------------------------------------------------- what has been read so far

  // i is the entry read back for src, at position pos, without its reference count.
  ghost predicate EntryLoaded(i: AddrInfo, src: AddrInfo, pos: nat, tried: bool) {
    i == Restore(Persist(src)).(nRandomPos := pos, fInTried := tried, nRefCount := i.nRefCount)
  }

  // The first n entries of the file are back: entry x of the file under id x. `all` lists the ids of s in file
  // order, the first nn of them new, the others tried.
  ghost predicate Loaded(s: State, all: seq<int>, nn: nat, n: nat, m: Infos, mapAddr: map<NetAddr, int>,
      vRandom: seq<int>)
    requires forall i :: 0 <= i < |all| ==> all[i] in s.mapInfo
  {
    && n <= |all| && |vRandom| == n
    && (forall i :: i in m <==> 0 <= i < n)
    && (forall i :: 0 <= i < n ==> vRandom[i] == i)
    && (forall i :: 0 <= i < n ==> EntryLoaded(m[i], s.mapInfo[all[i]], i, i >= nn))
    && (forall i :: 0 <= i < n ==> NetOf(s, all[i]) in mapAddr && mapAddr[NetOf(s, all[i])] == i)
    && (forall x :: x in mapAddr ==> 0 <= mapAddr[x] < n && NetOf(s, all[mapAddr[x]]) == x)
  }

  ghost function NetOf(s: State, id: int): NetAddr
    requires id in s.mapInfo
  {
    s.mapInfo[id].service.net
  }

  // The file order of a manager's entries: the new ones, then the tried ones.
  ghost predicate FileOrder(s: State, all: seq<int>, nn: nat) {
    && nn <= |all| && Lists(all, s.mapInfo.Keys)
    && (forall i :: 0 <= i < |all| ==> s.mapInfo[all[i]].fInTried == (i >= nn))
  }

  lemma FileOrderOf(s: State, news: seq<int>, tried: seq<int>)
    requires Lists(news, NewIds(s.mapInfo)) && Lists(tried, TriedIds(s.mapInfo))
    ensures FileOrder(s, news + tried, |news|)
  {
    var all := news + tried;
    forall i, j | 0 <= i < j < |all| ensures all[i] != all[j] {
      if i < |news| <= j {
        assert all[i] in NewIds(s.mapInfo) && all[j] in TriedIds(s.mapInfo);
      }
    }
    forall id | id in s.mapInfo.Keys ensures id in all {
      if s.mapInfo[id].fInTried {
        assert id in TriedIds(s.mapInfo);
      } else {
        assert id in NewIds(s.mapInfo);
      }
    }
  }

  lemma LoadedNext(s: State, all: seq<int>, nn: nat, n: nat, m: Infos, mapAddr: map<NetAddr, int>, vRandom: seq<int>,
      x: AddrInfo)
    requires AddrIndex(s.mapInfo, s.mapAddr) && FileOrder(s, all, nn)
    requires Loaded(s, all, nn, n, m, mapAddr, vRandom) && n < |all|
    requires EntryLoaded(x, s.mapInfo[all[n]], n, n >= nn)
    ensures Loaded(s, all, nn, n + 1, m[n := x], mapAddr[x.service.net := n], vRandom + [n])
  {
    assert x.service.net == NetOf(s, all[n]);
    forall i | 0 <= i < n ensures NetOf(s, all[i]) != NetOf(s, all[n]) {
      assert all[i] != all[n];
    }
  }

  // The tried slots filled so far: those of the first n entries, by file order.
  ghost predicate TriedLoaded(s: State, all: seq<int>, n: nat, vvTried: Table) {
    && (forall k :: k in vvTried ==>
        k in s.vvTried && 0 <= vvTried[k] < n && n <= |all| && all[vvTried[k]] == s.vvTried[k])
    && (forall k :: k in s.vvTried && s.vvTried[k] in all[..if n <= |all| then n else 0] ==> k in vvTried)
  }

  lemma TriedLoadedNext(h: Hashing, s: State, all: seq<int>, nn: nat, n: nat, vvTried: Table)
    requires TriedTable(h, s.mapInfo, s.vvTried) && FileOrder(s, all, nn) && nn <= n < |all|
    requires TriedLoaded(s, all, n, vvTried)
    ensures var k := h.TriedSlot(s.mapInfo[all[n]].service);
            k !in vvTried && TriedLoaded(s, all, n + 1, vvTried[k := n])
  {
    var k := h.TriedSlot(s.mapInfo[all[n]].service);
    var id := all[n];
    assert id in s.mapInfo && s.mapInfo[id].fInTried;
    assert k in s.vvTried && s.vvTried[k] == id;
    forall q | q in s.vvTried && s.vvTried[q] in all[..n + 1] ensures q in vvTried[k := n] {
      if s.vvTried[q] == all[n] {
        assert TriedSlotOk(h, s.mapInfo, q, s.vvTried[q]);
      } else {
        var i :| 0 <= i < n + 1 && all[..n + 1][i] == s.vvTried[q];
        assert all[..n][i] == s.vvTried[q];
      }
    }
  }

  // The new slots filled so far, those before position p of bucket b, and the reference counts they give.
  ghost predicate NewLoaded(s: State, all: seq<int>, nn: nat, b: nat, p: nat, m: Infos, vvNew: Table)
    requires nn <= |all|
  {
    && (forall k :: k in vvNew ==> k in s.vvNew && Before(k, b, p) && 0 <= vvNew[k] < nn && all[vvNew[k]] == s.vvNew[k])
    && (forall k :: k in s.vvNew && Before(k, b, p) ==> k in vvNew)
    && (forall i :: 0 <= i < nn ==> i in m && m[i].nRefCount == |RefsBefore(s.vvNew, all[i], b, p)|)
    && (forall i :: nn <= i < |all| ==> i in m && m[i].nRefCount == 0)
  }

  lemma NewLoadedStart(s: State, all: seq<int>, nn: nat, m: Infos)
    requires nn <= |all| && forall i :: 0 <= i < |all| ==> i in m && m[i].nRefCount == 0
    ensures NewLoaded(s, all, nn, 0, 0, m, map[])
  {
    forall id ensures RefsBefore(s.vvNew, id, 0, 0) == {} {}
  }

  lemma NewLoadedSkip(s: State, all: seq<int>, nn: nat, b: nat, p: nat, m: Infos, vvNew: Table)
    requires nn <= |all| && NewLoaded(s, all, nn, b, p, m, vvNew) && Slot(b, p) !in s.vvNew
    ensures NewLoaded(s, all, nn, b, p + 1, m, vvNew)
  {
    forall id ensures RefsBefore(s.vvNew, id, b, p + 1) == RefsBefore(s.vvNew, id, b, p)
        { RefsBeforeNext(s.vvNew, id, b, p); }
  }

  lemma NewLoadedWrap(h: Hashing, s: State, all: seq<int>, nn: nat, b: nat, m: Infos, vvNew: Table)
    requires nn <= |all| && NewLoaded(s, all, nn, b, BUCKET_SIZE, m, vvNew) && NewTable(h, s.mapInfo, s.vvNew)
    ensures NewLoaded(s, all, nn, b + 1, 0, m, vvNew)
  {
    forall k | k in s.vvNew ensures Before(k, b, BUCKET_SIZE) <==> Before(k, b + 1, 0) {
      assert NewSlotOk(h, s.mapInfo, k, s.vvNew[k]);
    }
    forall id ensures RefsBefore(s.vvNew, id, b, BUCKET_SIZE) == RefsBefore(s.vvNew, id, b + 1, 0) {}
  }

  lemma CountNext(s: State, all: seq<int>, nn: nat, b: nat, p: nat, m: Infos, x: nat)
    requires FileOrder(s, all, nn) && x < nn
    requires forall i :: 0 <= i < nn ==> i in m && m[i].nRefCount == |RefsBefore(s.vvNew, all[i], b, p)|
    requires Slot(b, p) in s.vvNew && all[x] == s.vvNew[Slot(b, p)]
    ensures var m2 := WithRefCount(m, x, m[x].nRefCount + 1);
            forall i :: 0 <= i < nn ==> i in m2 && m2[i].nRefCount == |RefsBefore(s.vvNew, all[i], b, p + 1)|
    ensures m[x].nRefCount < |Refs(s.vvNew, all[x])|
  {
    var m2 := WithRefCount(m, x, m[x].nRefCount + 1);
    forall i | 0 <= i < nn ensures m2[i].nRefCount == |RefsBefore(s.vvNew, all[i], b, p + 1)| {
      RefsBeforeNext(s.vvNew, all[i], b, p);
      assert all[i] == all[x] <==> i == x;
    }
    SubsetSize(RefsBefore(s.vvNew, all[x], b, p + 1), Refs(s.vvNew, all[x]));
  }

  // The next index of bucket b is for slot (b, p): its entry's position there is p, the slot is free, and the
  // entry's count is still below its final value.
  lemma NewLoadedNext(h: Hashing, s: State, all: seq<int>, nn: nat, b: nat, p: nat, m: Infos, vvNew: Table, x: nat)
    requires FileOrder(s, all, nn) && NewLoaded(s, all, nn, b, p, m, vvNew)
    requires NewTable(h, s.mapInfo, s.vvNew) && RefBounds(s.mapInfo, {})
    requires Slot(b, p) in s.vvNew && x < nn && all[x] == s.vvNew[Slot(b, p)]
    ensures var k := Slot(b, p);
            && all[x] in s.mapInfo && h.NewSlotIn(b, s.mapInfo[all[x]].service) == k
            && k !in vvNew && m[x].nRefCount < NEW_BUCKETS_PER_ADDRESS
            && NewLoaded(s, all, nn, b, p + 1, WithRefCount(m, x, m[x].nRefCount + 1), vvNew[k := x])
  {
    hide RefsBefore, Refs, NewSlotOk;
    var k := Slot(b, p);
    OccupantHere(h, s, k);
    CountNext(s, all, nn, b, p, m, x);
    assert k !in vvNew;
  }

  lemma OccupantHere(h: Hashing, s: State, k: Slot)
    requires NewTable(h, s.mapInfo, s.vvNew) && k in s.vvNew
    ensures s.vvNew[k] in s.mapInfo && h.NewSlotIn(k.bucket, s.mapInfo[s.vvNew[k]].service) == k
    ensures !s.mapInfo[s.vvNew[k]].fInTried
  {
    assert NewSlotOk(h, s.mapInfo, k, s.vvNew[k]);
  }

  // Skipping free slots: the next occupied one, if the bucket has indexes left.
  lemma {:induction false} NextOccupied(s: State, news: seq<int>, all: seq<int>, nn: nat, b: nat, p: nat, m: Infos,
      vvNew: Table)
      returns (q: nat)
    requires nn <= |all| && NewLoaded(s, all, nn, b, p, m, vvNew) && p <= BUCKET_SIZE
    requires forall k :: k in s.vvNew ==> s.vvNew[k] in news
    ensures p <= q <= BUCKET_SIZE && NewLoaded(s, all, nn, b, q, m, vvNew)
    ensures Indexes(s.vvNew, news, b, q) == Indexes(s.vvNew, news, b, p)
    ensures q == BUCKET_SIZE || Slot(b, q) in s.vvNew
    decreases BUCKET_SIZE - p
  {
    if p == BUCKET_SIZE || Slot(b, p) in s.vvNew {
      q := p;
    } else {
      NewLoadedSkip(s, all, nn, b, p, m, vvNew);
      q := NextOccupied(s, news, all, nn, b, p + 1, m, vvNew);
    }
  }

  // ---------------------------------------------------------------- Unserialize

  const HEADER_SIZE := 6

  // The entries stand on the stream after the header, in file order.
  ghost predicate HasEntries(s: State, all: seq<int>, stream: seq<Token>)
    requires forall i :: 0 <= i < |all| ==> all[i] in s.mapInfo
  {
    && HEADER_SIZE + |all| <= |stream|
    && forall i :: 0 <= i < |all| ==> stream[HEADER_SIZE + i] == Entry(Persist(s.mapInfo[all[i]]))
  }

  ghost predicate NoRefs(m: Infos) {
    forall id :: id in m ==> m[id].nRefCount == 0
  }

  // The loop over the new entries.
  method ReadNew(a: AddrMan, stream: seq<Token>, ghost s: State, ghost all: seq<int>)
    requires a.nNew >= 0 && FileOrder(s, all, a.nNew) && HasEntries(s, all, stream) && AddrIndex(s.mapInfo, s.mapAddr)
    requires Loaded(s, all, a.nNew, 0, a.mapInfo, a.mapAddr, a.vRandom)
    modifies a`mapInfo, a`mapAddr, a`vRandom
    ensures Loaded(s, all, a.nNew, a.nNew, a.mapInfo, a.mapAddr, a.vRandom) && NoRefs(a.mapInfo)
  {
    hide Loaded, AddrIndex, FileOrder;
    FileOrderFacts(s, all, a.nNew);
    LoadedNone(s, all, a.nNew, a.mapInfo, a.mapAddr, a.vRandom);
    for n := 0 to a.nNew
      invariant Loaded(s, all, a.nNew, n, a.mapInfo, a.mapAddr, a.vRandom) && NoRefs(a.mapInfo)
    {
      LoadedSize(s, all, a.nNew, n, a.mapInfo, a.mapAddr, a.vRandom);
      assert stream[HEADER_SIZE + n] == Entry(Persist(s.mapInfo[all[n]]));
      var info := Restore(stream[HEADER_SIZE + n].p).(nRandomPos := |a.vRandom|);
      LoadedNext(s, all, a.nNew, n, a.mapInfo, a.mapAddr, a.vRandom, info);
      a.mapInfo := a.mapInfo[n := info];
      a.mapAddr := a.mapAddr[info.service.net := n];
      a.vRandom := a.vRandom + [n];
    }
  }

  lemma FileOrderFacts(s: State, all: seq<int>, nn: nat)
    requires FileOrder(s, all, nn)
    ensures nn <= |all| && forall i :: 0 <= i < |all| ==> all[i] in s.mapInfo
  {}

  lemma LoadedSize(s: State, all: seq<int>, nn: nat, n: nat, m: Infos, mapAddr: map<NetAddr, int>, vRandom: seq<int>)
    requires forall i :: 0 <= i < |all| ==> all[i] in s.mapInfo
    requires Loaded(s, all, nn, n, m, mapAddr, vRandom)
    ensures |vRandom| == n
  {}

  lemma LoadedNone(s: State, all: seq<int>, nn: nat, m: Infos, mapAddr: map<NetAddr, int>, vRandom: seq<int>)
    requires forall i :: 0 <= i < |all| ==> all[i] in s.mapInfo
    requires Loaded(s, all, nn, 0, m, mapAddr, vRandom)
    ensures NoRefs(m)
  {}

  // The loop over the tried entries: every slot it needs is free, so no entry is lost.
  method ReadTried(a: AddrMan, stream: seq<Token>, ghost s: State, ghost all: seq<int>)
    requires a.Shape() && a.nNew >= 0 && a.nNew + a.nTried == |all|
    requires FileOrder(s, all, a.nNew) && HasEntries(s, all, stream) && AddrIndex(s.mapInfo, s.mapAddr)
    requires TriedTable(a.h, s.mapInfo, s.vvTried)
    requires Loaded(s, all, a.nNew, a.nNew, a.mapInfo, a.mapAddr, a.vRandom) && NoRefs(a.mapInfo)
    requires TriedLoaded(s, all, a.nNew, Occupied(a.vvTried)) && a.nIdCount == a.nNew
    modifies a`mapInfo, a`mapAddr, a`vRandom, a`nIdCount, a.vvTried
    ensures Loaded(s, all, a.nNew, |all|, a.mapInfo, a.mapAddr, a.vRandom) && NoRefs(a.mapInfo)
    ensures TriedLoaded(s, all, |all|, Occupied(a.vvTried)) && a.nIdCount == |all|
  {
    hide Loaded, AddrIndex, FileOrder, TriedTable, TriedLoaded, Occupied;
    FileOrderFacts(s, all, a.nNew);
    for n := 0 to a.nTried
      modifies a`mapInfo, a`mapAddr, a`vRandom, a`nIdCount, a.vvTried
      invariant a.nIdCount == a.nNew + n
      invariant Loaded(s, all, a.nNew, a.nNew + n, a.mapInfo, a.mapAddr, a.vRandom) && NoRefs(a.mapInfo)
      invariant TriedLoaded(s, all, a.nNew + n, Occupied(a.vvTried))
    {
      LoadedSize(s, all, a.nNew, a.nNew + n, a.mapInfo, a.mapAddr, a.vRandom);
      var next := a.nNew + n;
      assert stream[HEADER_SIZE + next] == Entry(Persist(s.mapInfo[all[next]]));
      var info := Restore(stream[HEADER_SIZE + next].p);
      var k := a.h.TriedSlot(info.service);
      TriedLoadedNext(a.h, s, all, a.nNew, a.nNew + n, Occupied(a.vvTried));
      var occupant := At(a.vvTried, k);
      if occupant == -1 {
        info := info.(nRandomPos := |a.vRandom|, fInTried := true);
        LoadedNext(s, all, a.nNew, a.nNew + n, a.mapInfo, a.mapAddr, a.vRandom, info);
        a.vRandom := a.vRandom + [a.nIdCount];
        a.mapInfo := a.mapInfo[a.nIdCount := info];
        a.mapAddr := a.mapAddr[info.service.net := a.nIdCount];
        Put(a.vvTried, k, a.nIdCount);
        a.nIdCount := a.nIdCount + 1;
      } else {
        assert false;
      }
    }
  }

  // The entries are back, and the new table up to position p of bucket b.
  ghost predicate Reading(a: AddrMan, s: State, news: seq<int>, all: seq<int>, b: nat, p: nat)
    reads a, a.vvNew
  {
    && a.Shape() && a.nNew == |news| && news <= all
    && FileOrder(s, all, |news|)
    && Loaded(s, all, |news|, |all|, a.mapInfo, a.mapAddr, a.vRandom)
    && NewLoaded(s, all, |news|, b, p, a.mapInfo, Occupied(a.vvNew))
  }

  // What reading the new table relies on.
  ghost predicate Source(h: Hashing, s: State, news: seq<int>) {
    && NewTable(h, s.mapInfo, s.vvNew) && RefBounds(s.mapInfo, {})
    && (forall k :: k in s.vvNew ==> s.vvNew[k] in news)
  }

  // One index of a bucket's list.
  method ReadIndex(a: AddrMan, b: nat, index: int, ghost s: State, ghost news: seq<int>, ghost all: seq<int>,
      ghost p: nat)
    requires Reading(a, s, news, all, b, p) && Source(a.h, s, news) && b < NEW_BUCKET_COUNT
    requires Slot(b, p) in s.vvNew && 0 <= index < |news| && news[index] == s.vvNew[Slot(b, p)]
    modifies a`mapInfo, a.vvNew
    ensures Reading(a, s, news, all, b, p + 1)
  {
    hide Loaded, NewLoaded, FileOrder, NewTable, Occupied;
    FileOrderFacts(s, all, |news|);
    NewLoadedNext(a.h, s, all, |news|, b, p, a.mapInfo, Occupied(a.vvNew), index);
    LoadedEntry(s, all, |news|, a.mapInfo, a.mapAddr, a.vRandom, index);
    var k := a.h.NewSlotIn(b, a.mapInfo[index].service);
    var occupant := At(a.vvNew, k);
    if occupant == -1 && a.mapInfo[index].nRefCount < NEW_BUCKETS_PER_ADDRESS {
      a.mapInfo := WithRefCount(a.mapInfo, index, a.mapInfo[index].nRefCount + 1);
      Put(a.vvNew, k, index);
    } else {
      assert false;
    }
  }

  // Entry i carries the service it had, and changing its reference count does not change what is loaded.
  lemma LoadedEntry(s: State, all: seq<int>, nn: nat, m: Infos, mapAddr: map<NetAddr, int>, vRandom: seq<int>, i: nat)
    requires FileOrder(s, all, nn) && Loaded(s, all, nn, |all|, m, mapAddr, vRandom) && i < |all|
    ensures i in m && m[i].service == s.mapInfo[all[i]].service
    ensures forall c :: Loaded(s, all, nn, |all|, WithRefCount(m, i, c), mapAddr, vRandom)
  {}

  lemma ReadingSkips(a: AddrMan, s: State, news: seq<int>, all: seq<int>, b: nat, p: nat) returns (q: nat)
    requires Reading(a, s, news, all, b, p) && Source(a.h, s, news) && p <= BUCKET_SIZE
    ensures p <= q <= BUCKET_SIZE && Reading(a, s, news, all, b, q)
    ensures Indexes(s.vvNew, news, b, q) == Indexes(s.vvNew, news, b, p)
    ensures q == BUCKET_SIZE || (Slot(b, q) in s.vvNew && s.vvNew[Slot(b, q)] in news)
  {
    hide Loaded, NewLoaded, FileOrder, NewTable, Occupied, Indexes;
    FileOrderFacts(s, all, |news|);
    q := NextOccupied(s, news, all, |news|, b, p, a.mapInfo, Occupied(a.vvNew));
  }

  lemma ReadingWraps(a: AddrMan, s: State, news: seq<int>, all: seq<int>, b: nat)
    requires Reading(a, s, news, all, b, BUCKET_SIZE) && Source(a.h, s, news)
    ensures Reading(a, s, news, all, b + 1, 0)
  {
    hide Loaded, NewLoaded, FileOrder, NewTable, Occupied;
    FileOrderFacts(s, all, |news|);
    NewLoadedWrap(a.h, s, all, |news|, b, a.mapInfo, Occupied(a.vvNew));
  }

  // The list of one bucket; pos is where it starts on the stream.
  method ReadBucket(a: AddrMan, stream: seq<Token>, pos: nat, b: nat, ghost s: State, ghost news: seq<int>,
      ghost all: seq<int>)
      returns (end: nat)
    requires Reading(a, s, news, all, b, 0) && Source(a.h, s, news) && b < NEW_BUCKET_COUNT
    requires pos <= |stream| && stream[pos..] == Buckets(s.vvNew, news, b)
    modifies a`mapInfo, a.vvNew
    ensures Reading(a, s, news, all, b + 1, 0)
    ensures end <= |stream| && stream[end..] == Buckets(s.vvNew, news, b + 1)
  {
    hide Reading, Source, Indexes;
    ghost var indexes := Indexes(s.vvNew, news, b, 0);
    ghost var after := Buckets(s.vvNew, news, b + 1);
    assert stream[pos..] == [Num(|indexes|)] + indexes + after;
    assert stream[pos] == stream[pos..][0];
    var nSize := stream[pos].n;
    end := pos + 1;
    assert stream[end..] == indexes + after;
    ghost var p := ReadingSkips(a, s, news, all, b, 0);
    for n := 0 to nSize
      modifies a`mapInfo, a.vvNew
      invariant p <= BUCKET_SIZE && (p == BUCKET_SIZE || (Slot(b, p) in s.vvNew && s.vvNew[Slot(b, p)] in news))
      invariant nSize - n == |Indexes(s.vvNew, news, b, p)|
      invariant end <= |stream| && stream[end..] == Indexes(s.vvNew, news, b, p) + after
      invariant Reading(a, s, news, all, b, p)
    {
      IndexesAt(s.vvNew, news, b, p);
      assert stream[end] == stream[end..][0];
      var nIndex := stream[end].n;
      end := end + 1;
      assert stream[end..] == Indexes(s.vvNew, news, b, p + 1) + after;
      assert a.nNew == |news| by { ReadingSize(a, s, news, all, b, p); }
      if 0 <= nIndex < a.nNew {
        ReadIndex(a, b, nIndex, s, news, all, p);
        p := ReadingSkips(a, s, news, all, b, p + 1);
      } else {
        assert false;
      }
    }
    IndexesEnd(s.vvNew, news, b, p);
    assert Indexes(s.vvNew, news, b, p) + after == after;
    ReadingWraps(a, s, news, all, b);
  }

  lemma ReadingSize(a: AddrMan, s: State, news: seq<int>, all: seq<int>, b: nat, p: nat)
    requires Reading(a, s, news, all, b, p)
    ensures a.nNew == |news|
  {}

  lemma IndexesAt(vvNew: Table, news: seq<int>, b: nat, p: nat)
    requires p <= BUCKET_SIZE && (p == BUCKET_SIZE || (Slot(b, p) in vvNew && vvNew[Slot(b, p)] in news))
    requires |Indexes(vvNew, news, b, p)| > 0
    ensures p < BUCKET_SIZE && Slot(b, p) in vvNew && vvNew[Slot(b, p)] in news
    ensures Indexes(vvNew, news, b, p) == [Num(IndexIn(news, vvNew[Slot(b, p)]))] + Indexes(vvNew, news, b, p + 1)
  {}

  lemma IndexesEnd(vvNew: Table, news: seq<int>, b: nat, p: nat)
    requires p <= BUCKET_SIZE && (p == BUCKET_SIZE || (Slot(b, p) in vvNew && vvNew[Slot(b, p)] in news))
    requires |Indexes(vvNew, news, b, p)| == 0
    ensures p == BUCKET_SIZE
  {}

  // t is s under other ids: rename is one-to-one and onto, and carries entries, reference counts, tables, counters and
  // the address index of s to those of t. The statistics kept in memory only start again from zero.
  ghost predicate SameUpToIds(s: State, t: State, rename: map<int, int>) {
    && rename.Keys == s.mapInfo.Keys
    && OneToOneOnto(rename, t.mapInfo)
    && (forall id :: id in rename ==> SameEntry(s, t, id, rename[id]))
    && Renamed(s.vvTried, t.vvTried, rename)
    && Renamed(s.vvNew, t.vvNew, rename)
    && Renamed(s.mapAddr, t.mapAddr, rename)
    && t.nNew == s.nNew && t.nTried == s.nTried
  }

  ghost predicate OneToOneOnto(rename: map<int, int>, m: Infos) {
    && (forall i :: i in m ==> exists id :: id in rename && rename[id] == i)
    && (forall x, y :: x in rename && y in rename && rename[x] == rename[y] ==> x == y)
  }

  // The same keys, with values renamed.
  ghost predicate Renamed<K(!new)>(a: map<K, int>, b: map<K, int>, rename: map<int, int>) {
    && (forall k :: k in a <==> k in b)
    && (forall k :: k in a ==> a[k] in rename && b[k] == rename[a[k]])
  }

  ghost predicate SameEntry(s: State, t: State, id: int, i: int) {
    && id in s.mapInfo && i in t.mapInfo
    && t.mapInfo[i] ==
       s.mapInfo[id].(nLastTry := 0, nLastCountAttempt := 0, nRandomPos := t.mapInfo[i].nRandomPos)
  }

  // Everything is read.
  ghost predicate Complete(h: Hashing, s: State, t: State, all: seq<int>) {
    && Core(h, s, {}, 0) && s.nNew >= 0 && FileOrder(s, all, s.nNew)
    && Loaded(s, all, s.nNew, |all|, t.mapInfo, t.mapAddr, t.vRandom)
    && TriedLoaded(s, all, |all|, t.vvTried)
    && NewLoaded(s, all, s.nNew, NEW_BUCKET_COUNT, 0, t.mapInfo, t.vvNew)
    && t.nNew == s.nNew && t.nTried == s.nTried && t.nIdCount == |all|
  }

  ghost function Renaming(s: State, all: seq<int>): map<int, int>
    requires Lists(all, s.mapInfo.Keys)
  {
    map id | id in s.mapInfo :: IndexIn(all, id)
  }

  lemma IndexOf(all: seq<int>, i: nat)
    requires Distinct(all) && i < |all|
    ensures IndexIn(all, all[i]) == i
  {
    var j := IndexIn(all, all[i]);
  }

  lemma CompleteEntries(h: Hashing, s: State, t: State, all: seq<int>)
    requires Complete(h, s, t, all)
    ensures forall id :: id in s.mapInfo ==> SameEntry(s, t, id, Renaming(s, all)[id])
  {
    hide AddrIndex, TriedTable, RandomIndex, StatsOk, IdsBelow, Counters;
    forall id | id in s.mapInfo ensures SameEntry(s, t, id, Renaming(s, all)[id]) {
      assert id in s.mapInfo.Keys;
      var i := IndexIn(all, id);
      assert EntryLoaded(t.mapInfo[i], s.mapInfo[all[i]], i, i >= s.nNew);
      if i < s.nNew {
        AllRefsBefore(h, s, id);
      } else {
        TriedUnreferenced(h, s.mapInfo, s.vvNew, id);
      }
    }
  }

  lemma AllRefsBefore(h: Hashing, s: State, id: int)
    requires NewTable(h, s.mapInfo, s.vvNew)
    ensures RefsBefore(s.vvNew, id, NEW_BUCKET_COUNT, 0) == Refs(s.vvNew, id)
    ensures forall k :: k in s.vvNew ==> Before(k, NEW_BUCKET_COUNT, 0)
  {
    forall k | k in s.vvNew ensures Before(k, NEW_BUCKET_COUNT, 0) {
      assert NewSlotOk(h, s.mapInfo, k, s.vvNew[k]);
    }
  }

  lemma CompleteTried(h: Hashing, s: State, t: State, all: seq<int>)
    requires Complete(h, s, t, all)
    ensures Renamed(s.vvTried, t.vvTried, Renaming(s, all))
  {
    hide AddrIndex, NewTable, RandomIndex, StatsOk, IdsBelow, Counters, Loaded, NewLoaded;
    forall k | k in s.vvTried
      ensures k in t.vvTried && s.vvTried[k] in s.mapInfo && t.vvTried[k] == Renaming(s, all)[s.vvTried[k]]
    {
      assert TriedSlotOk(h, s.mapInfo, k, s.vvTried[k]);
      assert s.vvTried[k] in s.mapInfo.Keys;
      assert all[..|all|] == all;
      IndexOf(all, t.vvTried[k]);
    }
  }

  lemma CompleteNew(h: Hashing, s: State, t: State, all: seq<int>)
    requires Complete(h, s, t, all)
    ensures Renamed(s.vvNew, t.vvNew, Renaming(s, all))
  {
    hide AddrIndex, TriedTable, RandomIndex, StatsOk, IdsBelow, Counters, Loaded, TriedLoaded;
    AllRefsBefore(h, s, 0);
    forall k | k in s.vvNew ensures k in t.vvNew && s.vvNew[k] in s.mapInfo
        && t.vvNew[k] == Renaming(s, all)[s.vvNew[k]] {
      assert NewSlotOk(h, s.mapInfo, k, s.vvNew[k]);
      IndexOf(all, t.vvNew[k]);
    }
  }

  lemma CompleteAddr(h: Hashing, s: State, t: State, all: seq<int>)
    requires Complete(h, s, t, all)
    ensures Renamed(s.mapAddr, t.mapAddr, Renaming(s, all))
  {
    hide TriedTable, NewTable, RandomIndex, StatsOk, IdsBelow, Counters, NewLoaded, TriedLoaded, AddrIndex, Loaded;
    forall x | x in s.mapAddr
      ensures x in t.mapAddr && s.mapAddr[x] in s.mapInfo && t.mapAddr[x] == Renaming(s, all)[s.mapAddr[x]]
    {
      AddrLoaded(h, s, t, all, x);
    }
    forall x | x in t.mapAddr ensures x in s.mapAddr {
      AddrLoadedBack(h, s, t, all, x);
    }
  }

  lemma AddrLoaded(h: Hashing, s: State, t: State, all: seq<int>, x: NetAddr)
    requires Complete(h, s, t, all) && x in s.mapAddr
    ensures x in t.mapAddr && s.mapAddr[x] in s.mapInfo && t.mapAddr[x] == Renaming(s, all)[s.mapAddr[x]]
  {
    hide TriedTable, NewTable, RandomIndex, StatsOk, IdsBelow, Counters, NewLoaded, TriedLoaded;
    var id := s.mapAddr[x];
    assert id in s.mapInfo.Keys;
    var i := IndexIn(all, id);
    assert NetOf(s, all[i]) == x;
  }

  lemma AddrLoadedBack(h: Hashing, s: State, t: State, all: seq<int>, x: NetAddr)
    requires Complete(h, s, t, all) && x in t.mapAddr
    ensures x in s.mapAddr
  {
    hide TriedTable, NewTable, RandomIndex, StatsOk, IdsBelow, Counters, NewLoaded, TriedLoaded;
    assert all[t.mapAddr[x]] in s.mapInfo;
  }

  lemma RenamingOnto(s: State, all: seq<int>, m: Infos)
    requires Lists(all, s.mapInfo.Keys) && forall i :: i in m <==> 0 <= i < |all|
    ensures OneToOneOnto(Renaming(s, all), m)
  {
    var rename := Renaming(s, all);
    forall i | i in m ensures exists id :: id in rename && rename[id] == i {
      IndexOf(all, i);
      assert all[i] in rename && rename[all[i]] == i;
    }
    forall x | x in s.mapInfo ensures all[rename[x]] == x {
      assert x in s.mapInfo.Keys;
    }
  }

  // The manager read back is the one written, under the ids of the file order.
  lemma CompleteSame(h: Hashing, s: State, t: State, all: seq<int>)
    requires Complete(h, s, t, all)
    ensures SameUpToIds(s, t, Renaming(s, all))
  {
    hide Core, NewLoaded, TriedLoaded, SameEntry, Renaming, Renamed, OneToOneOnto;
    CompleteEntries(h, s, t, all);
    CompleteTried(h, s, t, all);
    CompleteNew(h, s, t, all);
    CompleteAddr(h, s, t, all);
    RenamingOnto(s, all, t.mapInfo);
    RenamingKeys(s, all);
  }

  lemma RenamingKeys(s: State, all: seq<int>)
    requires Lists(all, s.mapInfo.Keys)
    ensures Renaming(s, all).Keys == s.mapInfo.Keys
  {}

  lemma CompleteCounters(h: Hashing, s: State, t: State, all: seq<int>)
    requires Complete(h, s, t, all)
    ensures Counters(t.mapInfo, t.nTried, t.nNew, 0)
  {
    hide AddrIndex, TriedTable, NewTable, RandomIndex, StatsOk, IdsBelow, NewLoaded, TriedLoaded, NewIds, TriedIds;
    assert forall i :: i in t.mapInfo ==> EntryLoaded(t.mapInfo[i], s.mapInfo[all[i]], i, i >= s.nNew);
    CountSplit(t.mapInfo, s.nNew, |all|);
    ListsSize(all, s.mapInfo.Keys);
    CountParts(s.mapInfo);
  }

  lemma CountParts(m: Infos)
    ensures |m.Keys| == |NewIds(m)| + |TriedIds(m)|
  {
    assert m.Keys == NewIds(m) + TriedIds(m);
    assert NewIds(m) !! TriedIds(m);
  }

  lemma CountSplit(m: Infos, n: nat, total: nat)
    requires n <= total && (forall i :: i in m <==> 0 <= i < total)
    requires forall i :: i in m ==> (m[i].fInTried <==> i >= n)
    ensures |NewIds(m)| == n && |TriedIds(m)| == total - n
  {
    var news := seq(n, i => i);
    var tried := seq(total - n, i => n + i);
    assert forall id :: id in NewIds(m) ==> news[id] == id;
    assert forall id :: id in TriedIds(m) ==> tried[id - n] == id;
    ListsSize(news, NewIds(m));
    ListsSize(tried, TriedIds(m));
  }

  lemma RenamedTried(h: Hashing, s: State, t: State, rename: map<int, int>)
    requires SameUpToIds(s, t, rename) && TriedTable(h, s.mapInfo, s.vvTried)
    ensures TriedTable(h, t.mapInfo, t.vvTried)
  {
    forall k | k in t.vvTried ensures TriedSlotOk(h, t.mapInfo, k, t.vvTried[k]) {
      assert TriedSlotOk(h, s.mapInfo, k, s.vvTried[k]);
      assert SameEntry(s, t, s.vvTried[k], t.vvTried[k]);
    }
    forall i | i in t.mapInfo && t.mapInfo[i].fInTried
      ensures h.TriedSlot(t.mapInfo[i].service) in t.vvTried && t.vvTried[h.TriedSlot(t.mapInfo[i].service)] == i
    {
      var id :| id in rename && rename[id] == i;
      assert SameEntry(s, t, id, i);
      assert t.mapInfo[i].service == s.mapInfo[id].service;
    }
  }

  lemma RenamedRefs(s: State, t: State, rename: map<int, int>, id: int)
    requires Renamed(s.vvNew, t.vvNew, rename) && id in rename
    requires forall x, y :: x in rename && y in rename && rename[x] == rename[y] ==> x == y
    ensures Refs(t.vvNew, rename[id]) == Refs(s.vvNew, id)
  {}

  lemma RenamedNew(h: Hashing, s: State, t: State, rename: map<int, int>)
    requires SameUpToIds(s, t, rename) && NewTable(h, s.mapInfo, s.vvNew)
    ensures NewTable(h, t.mapInfo, t.vvNew)
  {
    hide Refs;
    forall k | k in t.vvNew ensures NewSlotOk(h, t.mapInfo, k, t.vvNew[k]) {
      assert NewSlotOk(h, s.mapInfo, k, s.vvNew[k]);
      assert SameEntry(s, t, s.vvNew[k], t.vvNew[k]);
      assert t.mapInfo[t.vvNew[k]].service == s.mapInfo[s.vvNew[k]].service;
    }
    forall i | i in t.mapInfo ensures t.mapInfo[i].nRefCount == |Refs(t.vvNew, i)| {
      var id :| id in rename && rename[id] == i;
      assert SameEntry(s, t, id, i);
      RenamedRefs(s, t, rename, id);
    }
  }

  lemma OriginOf(s: State, t: State, rename: map<int, int>, i: int) returns (id: int)
    requires SameUpToIds(s, t, rename) && i in t.mapInfo
    ensures id in s.mapInfo && SameEntry(s, t, id, i)
  {
    id :| id in rename && rename[id] == i;
    assert SameEntry(s, t, id, rename[id]);
  }

  lemma RenamedStats(s: State, t: State, rename: map<int, int>)
    requires SameUpToIds(s, t, rename) && StatsOk(s.mapInfo) && RefBounds(s.mapInfo, {})
    ensures StatsOk(t.mapInfo) && RefBounds(t.mapInfo, {})
  {
    hide SameUpToIds;
    forall i | i in t.mapInfo ensures t.mapInfo[i].nLastTry >= 0 && t.mapInfo[i].nLastSuccess >= 0
                                      && (t.mapInfo[i].fInTried ==> t.mapInfo[i].nLastSuccess > 0) {
      var id := OriginOf(s, t, rename, i);
      assert t.mapInfo[i].nLastSuccess == s.mapInfo[id].nLastSuccess;
    }
    forall i | i in t.mapInfo && !t.mapInfo[i].fInTried ensures 1 <= t.mapInfo[i].nRefCount <= NEW_BUCKETS_PER_ADDRESS {
      var id := OriginOf(s, t, rename, i);
    }
  }

  lemma LoadedIndexes(s: State, all: seq<int>, nn: nat, m: Infos, mapAddr: map<NetAddr, int>, vRandom: seq<int>)
    requires FileOrder(s, all, nn) && Loaded(s, all, nn, |all|, m, mapAddr, vRandom)
    ensures AddrIndex(m, mapAddr) && RandomIndex(m, vRandom) && IdsBelow(m, |all|)
  {
    assert forall i :: i in m ==>
        EntryLoaded(m[i], s.mapInfo[all[i]], i, i >= nn) && m[i].service.net == NetOf(s, all[i]);
  }

  // The manager read back satisfies the invariant.
  lemma CompleteCore(h: Hashing, s: State, t: State, all: seq<int>)
    requires Complete(h, s, t, all)
    ensures Core(h, t, {}, 0)
  {
    hide AddrIndex, RandomIndex, TriedTable, NewTable, StatsOk, RefBounds, IdsBelow, Counters, Loaded, TriedLoaded,
        NewLoaded, SameUpToIds;
    CompleteSame(h, s, t, all);
    RenamedTried(h, s, t, Renaming(s, all));
    RenamedNew(h, s, t, Renaming(s, all));
    RenamedStats(s, t, Renaming(s, all));
    LoadedIndexes(s, all, s.nNew, t.mapInfo, t.mapAddr, t.vRandom);
    CompleteCounters(h, s, t, all);
  }

  // The stream after its header, cut where the readers start.
  lemma WrittenParts(s: State, key: nat, news: seq<int>, tried: seq<int>)
    requires Lists(news, NewIds(s.mapInfo)) && Lists(tried, TriedIds(s.mapInfo))
    ensures var stream := Written(s, key, news, tried);
            && stream[..HEADER_SIZE] == Header(key, s.nNew, s.nTried)
            && (forall i :: 0 <= i < |news + tried| ==> (news + tried)[i] in s.mapInfo)
            && HasEntries(s, news + tried, stream)
            && stream[HEADER_SIZE + |news + tried|..] == Buckets(s.vvNew, news, 0)
  {
    hide Buckets;
    var all := news + tried;
    forall i | 0 <= i < |all| ensures all[i] in s.mapInfo {
      if i < |news| { assert news[i] in NewIds(s.mapInfo); } else { assert tried[i - |news|] in TriedIds(s.mapInfo); }
    }
    var head := Header(key, s.nNew, s.nTried);
    var body := Entries(s.mapInfo, news) + Entries(s.mapInfo, tried);
    assert body == Entries(s.mapInfo, all);
    var stream := Written(s, key, news, tried);
    assert stream == head + body + Buckets(s.vvNew, news, 0);
    assert forall i :: 0 <= i < |all| ==> stream[HEADER_SIZE + i] == body[i];
  }

  // The loop over the buckets of the new table.
  method ReadBuckets(a: AddrMan, stream: seq<Token>, start: nat, nUBuckets: int, ghost s: State, ghost news: seq<int>,
      ghost all: seq<int>)
    requires Reading(a, s, news, all, 0, 0) && Source(a.h, s, news) && nUBuckets == NEW_BUCKET_COUNT
    requires start <= |stream| && stream[start..] == Buckets(s.vvNew, news, 0)
    modifies a`mapInfo, a.vvNew
    ensures Reading(a, s, news, all, NEW_BUCKET_COUNT, 0)
  {
    hide Reading, Source, Buckets;
    var pos: nat := start;
    for b := 0 to nUBuckets
      modifies a`mapInfo, a.vvNew
      invariant Reading(a, s, news, all, b, 0)
      invariant pos <= |stream| && stream[pos..] == Buckets(s.vvNew, news, b)
    {
      pos := ReadBucket(a, stream, pos, b, s, news, all);
    }
  }

  // Reading what Serialize wrote for s. `hashing` gives the hashing under a key; the new manager has the key of the
  // file.
  method Unserialize(hashing: nat -> Hashing, stream: seq<Token>, ghost s: State, ghost key: nat, ghost news: seq<int>,
      ghost tried: seq<int>)
      returns (a: AddrMan)
    requires Core(hashing(key), s, {}, 0)
    requires Lists(news, NewIds(s.mapInfo)) && Lists(tried, TriedIds(s.mapInfo))
    requires stream == Written(s, key, news, tried)
    ensures fresh(a) && a.Shape() && a.h == hashing(key)
    ensures FileOrder(s, news + tried, |news|)
    ensures SameUpToIds(s, a.View(), Renaming(s, news + tried))
    ensures a.Valid() && a.triedCollisions == {}
  {
    hide AddrIndex, RandomIndex, TriedTable, NewTable, StatsOk, RefBounds, IdsBelow, Loaded, TriedLoaded, NewLoaded,
        SameUpToIds,
      Occupied, FileOrder, Buckets, CollisionsOk, Renaming, TriedIds, NewIds;
    ghost var all := news + tried;
    WrittenParts(s, key, news, tried);
    assert stream[0] == Num(1) && stream[1] == Num(32) && stream[2] == Key(key) && stream[3] == Num(s.nNew)
           && stream[4] == Num(s.nTried) && stream[5] == Num(FlipBit30(NEW_BUCKET_COUNT)) by {
      assert forall i :: 0 <= i < HEADER_SIZE ==> stream[i] == stream[..HEADER_SIZE][i];
    }
    var nVersion := stream[0].n;
    if stream[1].n != 32 { assert false; }
    a := new AddrMan(hashing(stream[2].k));
    a.nNew := stream[3].n;
    a.nTried := stream[4].n;
    var nUBuckets := stream[5].n;
    if nVersion != 0 { nUBuckets := FlipBit30(nUBuckets); }
    CountsWithinLimits(hashing(key), s);
    if a.nNew > NEW_BUCKET_COUNT * BUCKET_SIZE { assert false; }
    if a.nTried > TRIED_BUCKET_COUNT * BUCKET_SIZE { assert false; }
    if nVersion != 1 || nUBuckets != NEW_BUCKET_COUNT { assert false; }
    FileOrderOf(s, news, tried);
    ListsSize(news, NewIds(s.mapInfo));
    ListsSize(tried, TriedIds(s.mapInfo));
    StartsEmpty(s, all, |news|);
    ReadNew(a, stream, s, all);
    a.nIdCount := a.nNew;
    TriedStarts(a.h, s, all, |news|);
    ReadTried(a, stream, s, all);
    NewStarts(s, all, |news|, a.mapInfo, a.mapAddr, a.vRandom);
    AllListed(a.h, s, news);
    ReadBuckets(a, stream, HEADER_SIZE + a.nNew + a.nTried, nUBuckets, s, news, all);
    assert Complete(a.h, s, a.View(), all);
    CompleteSame(a.h, s, a.View(), all);
    CompleteCore(a.h, s, a.View(), all);
    NonePending(a.h, a.View());
    Prune(a);
  }

  lemma NonePending(h: Hashing, s: State)
    requires s.collisions == {}
    ensures CollisionsOk(h, s)
  {}

  // The last loop of Unserialize deletes new entries without references: there are none.
  method Prune(a: AddrMan)
    requires Core(a.h, a.View(), {}, 0)
  {
    hide AddrIndex, RandomIndex, TriedTable, NewTable, StatsOk, IdsBelow, Counters, Occupied;
    var order := Ascending(a.mapInfo.Keys);
    for x := 0 to |order| {
      var id := order[x];
      assert id in a.mapInfo;
      if !a.mapInfo[id].fInTried && a.mapInfo[id].nRefCount == 0 { assert false; }
    }
  }

  lemma StartsEmpty(s: State, all: seq<int>, nn: nat)
    requires forall i :: 0 <= i < |all| ==> all[i] in s.mapInfo
    ensures Loaded(s, all, nn, 0, map[], map[], [])
  {}

  lemma TriedStarts(h: Hashing, s: State, all: seq<int>, nn: nat)
    requires FileOrder(s, all, nn) && TriedTable(h, s.mapInfo, s.vvTried)
    ensures TriedLoaded(s, all, nn, map[])
  {
    forall k | k in s.vvTried ensures s.vvTried[k] !in all[..nn] {
      assert TriedSlotOk(h, s.mapInfo, k, s.vvTried[k]);
    }
  }

  lemma NewStarts(s: State, all: seq<int>, nn: nat, m: Infos, mapAddr: map<NetAddr, int>, vRandom: seq<int>)
    requires FileOrder(s, all, nn) && Loaded(s, all, nn, |all|, m, mapAddr, vRandom) && NoRefs(m)
    ensures NewLoaded(s, all, nn, 0, 0, m, map[])
  {
    NewLoadedStart(s, all, nn, m);
  }

  // Writing a manager and reading it back loses nothing.
  method RoundTrip(a: AddrMan, hashing: nat -> Hashing, key: nat) returns (b: AddrMan, ghost rename: map<int, int>)
    requires a.Valid() && a.h == hashing(key)
    ensures fresh(b) && b.h == a.h
    ensures SameUpToIds(a.View(), b.View(), rename) && b.Valid()
  {
    hide Core, CollisionsOk, SameUpToIds, Occupied, Written, Lists;
    var stream, news, tried := Serialize(a, key);
    b := Unserialize(hashing, stream, a.View(), key, news, tried);
    rename := Renaming(a.View(), news + tried) by { FileOrderLists(a.View(), news + tried, |news|); }
  }

  lemma FileOrderLists(s: State, all: seq<int>, nn: nat)
    requires FileOrder(s, all, nn)
    ensures Lists(all, s.mapInfo.Keys)
  {}
}
