/** The file format of the address manager: what Serialize writes and Unserialize rebuilds. */
module AddrManFile {
  import opened AddrManState
  import opened AddrManSteps
  import opened AddrManOps
  import opened AddrMan

  // The fields of an entry that are written.
  datatype Persisted = Persisted(
    service: Service, nServices: set<nat>, nTime: int, source: NetAddr, nLastSuccess: int, nAttempts: int)

  // One value on the stream.
  datatype Token = Num(n: int) | Key(k: nat) | Entry(p: Persisted)

  function Persist(i: AddrInfo): Persisted {
    Persisted(i.service, i.nServices, i.nTime, i.source, i.nLastSuccess, i.nAttempts)
  }

  function Restore(p: Persisted): AddrInfo {
    AddrInfo(p.service, p.nServices, p.nTime, p.source, 0, 0, p.nLastSuccess, p.nAttempts, 0, false, -1)
  }

  // x ^ (1 << 30) for a non-negative 31-bit x.
  function FlipBit30(x: int): int {
    if x / 0x4000_0000 % 2 == 1 then x - 0x4000_0000 else x + 0x4000_0000
  }

  ghost predicate Distinct(ids: seq<int>) {
    forall i, j :: 0 <= i < j < |ids| ==> ids[i] != ids[j]
  }

  // ids lists the set all, each member once.
  ghost predicate Lists(ids: seq<int>, all: set<int>) {
    && Distinct(ids)
    && (forall i :: 0 <= i < |ids| ==> ids[i] in all)
    && (forall id :: id in all ==> id in ids)
  }

  ghost function IndexIn(ids: seq<int>, id: int): (i: nat)
    requires id in ids
    ensures i < |ids| && ids[i] == id
  {
    var i: nat :| i < |ids| && ids[i] == id; i
  }

  lemma {:induction false} ListsSize(ids: seq<int>, all: set<int>)
    requires Lists(ids, all)
    ensures |ids| == |all|
    decreases |ids|
  {
    if ids == [] {
      if all != {} { var x := Pick(all); }
    } else {
      var n := |ids| - 1;
      assert forall id :: id in all - {ids[n]} ==> id in ids[..n] by {
        forall id | id in all - {ids[n]} ensures id in ids[..n] {
          var i := IndexIn(ids, id);
          assert ids[..n][i] == id;
        }
      }
      ListsSize(ids[..n], all - {ids[n]});
    }
  }

  // ---------------------------------------------------------------- the stream

  function Entries(m: Infos, ids: seq<int>): seq<Token>
    requires forall i :: 0 <= i < |ids| ==> ids[i] in m
  {
    seq(|ids|, i requires 0 <= i < |ids| => Entry(Persist(m[ids[i]])))
  }

  // The indexes written for the occupied slots of bucket b from position p on.
  ghost function Indexes(vvNew: Table, ids: seq<int>, b: nat, p: nat): seq<Token>
    decreases BUCKET_SIZE - p
  {
    if p >= BUCKET_SIZE then []
    else if Slot(b, p) in vvNew && vvNew[Slot(b, p)] in ids
    then [Num(IndexIn(ids, vvNew[Slot(b, p)]))] + Indexes(vvNew, ids, b, p + 1)
    else Indexes(vvNew, ids, b, p + 1)
  }

  ghost function Bucket(vvNew: Table, ids: seq<int>, b: nat): seq<Token> {
    [Num(|Indexes(vvNew, ids, b, 0)|)] + Indexes(vvNew, ids, b, 0)
  }

  ghost function Buckets(vvNew: Table, ids: seq<int>, b: nat): seq<Token>
    decreases NEW_BUCKET_COUNT - b
  {
    if b >= NEW_BUCKET_COUNT then [] else Bucket(vvNew, ids, b) + Buckets(vvNew, ids, b + 1)
  }

  function Header(key: nat, nNew: int, nTried: int): seq<Token> {
    [Num(1), Num(32), Key(key), Num(nNew), Num(nTried), Num(FlipBit30(NEW_BUCKET_COUNT))]
  }

  // The whole file, with the new entries in the order news and the tried ones in the order tried.
  ghost function Written(s: State, key: nat, news: seq<int>, tried: seq<int>): seq<Token>
    requires Lists(news, NewIds(s.mapInfo)) && Lists(tried, TriedIds(s.mapInfo))
  {
    Header(key, s.nNew, s.nTried) + Entries(s.mapInfo, news) + Entries(s.mapInfo, tried) + Buckets(s.vvNew, news, 0)
  }

  // ---------------------------------------------------------------- Serialize

  // The order in which std::map lists its keys.
  method Ascending(all: set<int>) returns (ids: seq<int>)
    ensures Lists(ids, all) && forall i, j :: 0 <= i < j < |ids| ==> ids[i] < ids[j]
  {
    ids := [];
    var rest := all;
    while rest != {}
      invariant rest <= all
      invariant forall i :: 0 <= i < |ids| ==> ids[i] in all - rest
      invariant forall id :: id in all - rest ==> id in ids
      invariant forall i, j :: 0 <= i < j < |ids| ==> ids[i] < ids[j]
      invariant forall i, x :: 0 <= i < |ids| && x in rest ==> ids[i] < x
      decreases |rest|
    {
      ghost var least := MinExists(rest);
      var id :| id in rest && forall x :: x in rest ==> id <= x;
      ids := ids + [id];
      rest := rest - {id};
    }
  }

  method SerializeBucket(a: AddrMan, b: nat, unkIds: map<int, int>, ghost news: seq<int>) returns (out: seq<Token>)
    requires a.Shape() && b < NEW_BUCKET_COUNT
    requires forall k :: k in Occupied(a.vvNew) ==> Occupied(a.vvNew)[k] in news && Occupied(a.vvNew)[k] in unkIds
    requires forall id :: id in news ==> id in unkIds && unkIds[id] == IndexIn(news, id)
    ensures out == Bucket(Occupied(a.vvNew), news, b)
  {
    hide Occupied;
    ghost var t := Occupied(a.vvNew);
    var nSize := 0;
    for i := 0 to BUCKET_SIZE
      invariant nSize + |Indexes(t, news, b, i)| == |Indexes(t, news, b, 0)|
    {
      var id := At(a.vvNew, Slot(b, i));
      if id != -1 { nSize := nSize + 1; }
    }
    out := [Num(nSize)];
    for i := 0 to BUCKET_SIZE
      invariant out + Indexes(t, news, b, i) == Bucket(t, news, b)
    {
      var id := At(a.vvNew, Slot(b, i));
      if id != -1 { out := out + [Num(unkIds[id])]; }
    }
  }

  // ids lists the entries among `order` that are tried, or those that are not.
  ghost predicate Filtered(m: Infos, order: seq<int>, tried: bool, ids: seq<int>) {
    && Distinct(ids)
    && (forall i :: 0 <= i < |ids| ==> ids[i] in m && m[ids[i]].fInTried == tried && ids[i] in order)
    && (forall i :: 0 <= i < |order| && order[i] in m && m[order[i]].fInTried == tried ==> order[i] in ids)
  }

  lemma FilteredNext(m: Infos, order: seq<int>, n: nat, tried: bool, ids: seq<int>)
    requires n < |order| && Distinct(order) && Filtered(m, order[..n], tried, ids) && order[n] in m
    ensures m[order[n]].fInTried == tried ==> order[n] !in ids && Filtered(m, order[..n + 1], tried, ids + [order[n]])
    ensures m[order[n]].fInTried != tried ==> Filtered(m, order[..n + 1], tried, ids)
  {
    var next := order[..n + 1];
    assert forall i :: 0 <= i < n ==> next[i] == order[..n][i];
    assert next[n] == order[n];
    forall i | 0 <= i < |ids| ensures ids[i] in next && ids[i] != order[n] {
      var j :| 0 <= j < n && order[..n][j] == ids[i];
      assert next[j] == ids[i];
    }
  }

  lemma FilteredLists(m: Infos, order: seq<int>, tried: bool, ids: seq<int>)
    requires Lists(order, m.Keys) && Filtered(m, order, tried, ids)
    ensures Lists(ids, if tried then TriedIds(m) else NewIds(m))
  {
    forall id | id in m && m[id].fInTried == tried ensures id in ids {
      assert id in m.Keys;
      var i := IndexIn(order, id);
    }
  }

  // A distinct list of some members of a set, but not of x, is shorter than the set.
  lemma ShorterThan(ids: seq<int>, all: set<int>, x: int)
    requires Distinct(ids) && (forall i :: 0 <= i < |ids| ==> ids[i] in all) && x in all && x !in ids
    ensures |ids| < |all|
  {
    var some := set i | 0 <= i < |ids| :: ids[i];
    assert Lists(ids, some);
    ListsSize(ids, some);
    SubsetSize(some + {x}, all);
  }

  lemma EntriesNext(m: Infos, ids: seq<int>, x: int)
    requires (forall i :: 0 <= i < |ids| ==> ids[i] in m) && x in m
    ensures forall i :: 0 <= i < |ids + [x]| ==> (ids + [x])[i] in m
    ensures Entries(m, ids + [x]) == Entries(m, ids) + [Entry(Persist(m[x]))]
  {}

  // The first loop of Serialize: the new entries, and their indexes.
  method SerializeNew(a: AddrMan, order: seq<int>) returns (out: seq<Token>, unkIds: map<int, int>,
      ghost news: seq<int>)
    requires a.Valid() && Lists(order, a.mapInfo.Keys)
    ensures Lists(news, NewIds(a.mapInfo))
    ensures out == Entries(a.mapInfo, news)
    ensures forall i :: 0 <= i < |news| ==> news[i] in unkIds && unkIds[news[i]] == i
  {
    hide AddrIndex, TriedTable, NewTable, RandomIndex, CollisionsOk, StatsOk, IdsBelow, Occupied;
    out, unkIds, news := [], map[], [];
    var nIds := 0;
    for x := 0 to |order|
      invariant Filtered(a.mapInfo, order[..x], false, news) && nIds == |news|
      invariant out == Entries(a.mapInfo, news)
      invariant forall i :: 0 <= i < |news| ==> news[i] in unkIds && unkIds[news[i]] == i
      invariant forall id :: id in unkIds ==> id in order[..x]
    {
      var id := order[x];
      FilteredNext(a.mapInfo, order, x, false, news);
      assert order[..x + 1] == order[..x] + [id];
      assert id !in order[..x];
      unkIds := unkIds[id := nIds];
      Referenced(a.h, a.View(), id);
      if a.mapInfo[id].nRefCount != 0 {
        ShorterThan(news, NewIds(a.mapInfo), id);
        assert nIds != a.nNew;
        EntriesNext(a.mapInfo, news, id);
        out := out + [Entry(Persist(a.mapInfo[id]))];
        news := news + [id];
        nIds := nIds + 1;
      }
    }
    assert order[..|order|] == order;
    FilteredLists(a.mapInfo, order, false, news);
  }

  // A referenced entry is one that is not tried.
  lemma Referenced(h: Hashing, s: State, id: int)
    requires Core(h, s, {}, 0) && id in s.mapInfo
    ensures s.mapInfo[id].nRefCount != 0 <==> !s.mapInfo[id].fInTried
  {
    hide AddrIndex, TriedTable, RandomIndex, StatsOk, IdsBelow, NewTable;
    if s.mapInfo[id].fInTried { TriedUnreferenced(h, s.mapInfo, s.vvNew, id); }
  }

  // The second loop of Serialize: the tried entries.
  method SerializeTried(a: AddrMan, order: seq<int>) returns (out: seq<Token>, ghost tried: seq<int>)
    requires a.Valid() && Lists(order, a.mapInfo.Keys)
    ensures Lists(tried, TriedIds(a.mapInfo))
    ensures out == Entries(a.mapInfo, tried)
  {
    hide AddrIndex, TriedTable, NewTable, RandomIndex, CollisionsOk, StatsOk, IdsBelow, Occupied;
    out, tried := [], [];
    var nIds := 0;
    for x := 0 to |order|
      invariant Filtered(a.mapInfo, order[..x], true, tried) && nIds == |tried|
      invariant out == Entries(a.mapInfo, tried)
    {
      var id := order[x];
      FilteredNext(a.mapInfo, order, x, true, tried);
      if a.mapInfo[id].fInTried {
        ShorterThan(tried, TriedIds(a.mapInfo), id);
        assert nIds != a.nTried;
        EntriesNext(a.mapInfo, tried, id);
        out := out + [Entry(Persist(a.mapInfo[id]))];
        tried := tried + [id];
        nIds := nIds + 1;
      }
    }
    assert order[..|order|] == order;
    FilteredLists(a.mapInfo, order, true, tried);
  }

  // The last loop of Serialize: the slots of the new table, bucket by bucket.
  method SerializeBuckets(a: AddrMan, unkIds: map<int, int>, ghost news: seq<int>) returns (out: seq<Token>)
    requires a.Shape()
    requires forall k :: k in Occupied(a.vvNew) ==> Occupied(a.vvNew)[k] in news && Occupied(a.vvNew)[k] in unkIds
    requires forall id :: id in news ==> id in unkIds && unkIds[id] == IndexIn(news, id)
    ensures out == Buckets(Occupied(a.vvNew), news, 0)
  {
    hide Occupied, Bucket;
    ghost var t := Occupied(a.vvNew);
    out := [];
    for b := 0 to NEW_BUCKET_COUNT
      invariant out + Buckets(t, news, b) == Buckets(t, news, 0)
    {
      var bucket := SerializeBucket(a, b, unkIds, news);
      out := out + bucket;
    }
  }

  method Serialize(a: AddrMan, key: nat) returns (out: seq<Token>, ghost news: seq<int>, ghost tried: seq<int>)
    requires a.Valid()
    ensures Lists(news, NewIds(a.mapInfo)) && Lists(tried, TriedIds(a.mapInfo))
    ensures out == Written(a.View(), key, news, tried)
  {
    hide AddrIndex, TriedTable, NewTable, RandomIndex, CollisionsOk, StatsOk, IdsBelow, Occupied, RefBounds, Counters,
        Buckets, Entries;
    var order := Ascending(a.mapInfo.Keys);
    var newEntries, unkIds; newEntries, unkIds, news := SerializeNew(a, order);
    var triedEntries; triedEntries, tried := SerializeTried(a, order);
    AllListed(a.h, a.View(), news);
    var buckets := SerializeBuckets(a, unkIds, news);
    out := Header(key, a.nNew, a.nTried) + newEntries + triedEntries + buckets;
  }

  lemma AllListed(h: Hashing, s: State, news: seq<int>)
    requires NewTable(h, s.mapInfo, s.vvNew) && Lists(news, NewIds(s.mapInfo))
    ensures forall k :: k in s.vvNew ==> s.vvNew[k] in news
    ensures forall id :: id in news ==> exists i :: 0 <= i < |news| && news[i] == id
  {
    forall k | k in s.vvNew ensures s.vvNew[k] in news {
      assert NewSlotOk(h, s.mapInfo, k, s.vvNew[k]);
    }
  }
}
