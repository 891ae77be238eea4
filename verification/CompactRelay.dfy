/**
 * The differential coding of the request for missing transactions, and a whole relay of one
 * block: compact message, slots, request, answer, reassembled block.
 */
module CompactRelay {
  import opened CompactBlock
  import opened Options

  // ---- BlockTransactionsRequest ------------------------------------------------------------

  const CHUNK := 1000
  const MAX_SIZE := 0x02000000

  ghost predicate Increasing(x: seq<Index>) {
    forall i :: 0 < i < |x| ==> x[i - 1] < x[i]
  }

  /** The value written for entry i, as a 64-bit word. */
  function Difference(x: seq<Index>, i: nat): nat
    requires i < |x|
  {
    var previous: int := if i == 0 then -1 else x[i - 1];
    var step: int := x[i];
    (step - previous - 1) % 0x1_0000_0000_0000_0000
  }

  /** The stream holds the count and the differences of x, possibly followed by other data. */
  ghost predicate EncodedIn(x: seq<Index>, stream: seq<nat>) {
    && |x| < |stream|
    && stream[0] == |x|
    && forall i :: 0 <= i < |x| ==> stream[1 + i] == Difference(x, i)
  }

  method WriteRequest(x: seq<Index>) returns (stream: seq<nat>)
    ensures EncodedIn(x, stream) && |stream| == |x| + 1
  {
    stream := [|x|];
    for i := 0 to |x|
      invariant |stream| == i + 1 && stream[0] == |x|
      invariant forall j :: 0 <= j < i ==> stream[1 + j] == Difference(x, j)
    {
      stream := stream + [Difference(x, i)];
    }
  }

  /** The running index behind the first i + 1 differences. */
  ghost function Running(raw: seq<nat>, i: nat): (r: nat)
    requires i < |raw|
    ensures i <= r
  {
    if i == 0 then raw[0] else Running(raw, i - 1) + 1 + raw[i]
  }

  lemma {:induction false} RunningEncoded(x: seq<Index>, raw: seq<nat>, i: nat)
    requires i < |x| == |raw| && Increasing(x)
    requires forall j :: 0 <= j < |x| ==> raw[j] == Difference(x, j)
    ensures Running(raw, i) == x[i] && raw[i] <= MAX_INDEX
  {
    if i > 0 {
      RunningEncoded(x, raw, i - 1);
      assert x[i - 1] < x[i];
    }
  }

  lemma {:induction false} RunningIncreasing(raw: seq<nat>, x: seq<Index>)
    requires |x| == |raw| && forall i :: 0 <= i < |x| ==> x[i] == Running(raw, i)
    ensures Increasing(x) && forall i :: 0 <= i < |x| ==> raw[i] == Difference(x, i)
  {
    forall i | 0 <= i < |x|
      ensures raw[i] == Difference(x, i) && (i > 0 ==> x[i - 1] < x[i])
    {
      assert x[i] == Running(raw, i);
      if i > 0 {
        assert x[i - 1] == Running(raw, i - 1);
      }
    }
  }

  /** Accepts exactly the encodings of strictly increasing lists, and returns the list. */
  method ReadRequest(stream: seq<nat>) returns (r: Option<seq<Index>>)
    ensures r.Some? ==> Increasing(r.value) && EncodedIn(r.value, stream)
    ensures forall x :: Increasing(x) && EncodedIn(x, stream) ==> r == Some(x)
  {
    hide Increasing, EncodedIn, Running;
    forall x | Increasing(x) && EncodedIn(x, stream)
      ensures Readable(x, stream)
    {
      EncodedReadable(x, stream);
    }
    if stream == [] {
      return None;
    }
    var count := stream[0];
    if count > MAX_SIZE {
      return None;
    }
    var indexes := ReadRaw(stream, count);
    if indexes.None? {
      return None;
    }
    var raw := indexes.value;
    r := RunningSums(raw);
    if r.Some? {
      RunningIncreasing(raw, r.value);
      ReadBack(stream, raw, r.value);
    }
    forall x | Increasing(x) && EncodedIn(x, stream)
      ensures r == Some(x)
    {
      assert Readable(x, stream);
      assert forall i :: 0 <= i < |raw| ==> Running(raw, i) == x[i];
      assert r.Some?;
      assert r.value == x;
    }
  }

  ghost predicate Readable(x: seq<Index>, stream: seq<nat>) {
    && |x| <= MAX_INDEX + 1 && |x| < |stream| && stream[0] == |x|
    && (forall i :: 1 <= i <= |x| ==> stream[i] <= MAX_INDEX)
    && (forall i :: 0 <= i < |x| ==> Running(stream[1..1 + |x|], i) == x[i])
  }

  lemma EncodedReadable(x: seq<Index>, stream: seq<nat>)
    requires Increasing(x) && EncodedIn(x, stream)
    ensures Readable(x, stream)
  {
    var raw := stream[1..1 + |x|];
    assert forall j :: 0 <= j < |x| ==> raw[j] == stream[1 + j];
    forall i | 0 <= i < |x|
      ensures Running(raw, i) == x[i]
    {
      RunningEncoded(x, raw, i);
    }
    forall i | 1 <= i <= |x|
      ensures stream[i] <= MAX_INDEX
    {
      RunningEncoded(x, raw, i - 1);
      assert raw[i - 1] == stream[i];
    }
    if |x| > 0 {
      assert Running(raw, |x| - 1) == x[|x| - 1];
    }
  }

  lemma ReadBack(stream: seq<nat>, raw: seq<nat>, x: seq<Index>)
    requires |x| == |raw| < |stream| && stream[0] == |x| && raw == stream[1..1 + |x|]
    requires forall i :: 0 <= i < |x| ==> raw[i] == Difference(x, i)
    ensures EncodedIn(x, stream)
  {
    forall i | 0 <= i < |x|
      ensures stream[1 + i] == Difference(x, i)
    {
      assert raw[i] == stream[1 + i];
    }
  }

  /** Reads the differences in chunks, so that the buffer never runs far ahead of the data. */
  method ReadRaw(stream: seq<nat>, count: nat) returns (raw: Option<seq<nat>>)
    requires stream != [] && count == stream[0]
    ensures raw.Some? ==> count < |stream| && raw.value == stream[1..1 + count]
    ensures raw.Some? <==> count < |stream| && forall i :: 1 <= i <= count ==> stream[i] <= MAX_INDEX
  {
    var indexes: seq<nat> := [];
    var i := 0;
    while |indexes| < count
      invariant i == |indexes| <= count && i < |stream|
      invariant indexes == stream[1..1 + i]
      invariant forall j :: 1 <= j <= i ==> stream[j] <= MAX_INDEX
      decreases count - |indexes|
    {
      var size := if CHUNK + |indexes| < count then CHUNK + |indexes| else count;
      while i < size
        invariant i == |indexes| <= size <= count && i < |stream|
        invariant indexes == stream[1..1 + i]
        invariant forall j :: 1 <= j <= i ==> stream[j] <= MAX_INDEX
      {
        if 1 + i >= |stream| || stream[1 + i] > MAX_INDEX {
          return None;
        }
        indexes := indexes + [stream[1 + i]];
        i := i + 1;
      }
    }
    raw := Some(indexes);
  }

  /** Replaces each difference by its running index, in place. */
  method RunningSums(raw: seq<nat>) returns (r: Option<seq<Index>>)
    ensures r.Some? <==> forall i :: 0 <= i < |raw| ==> Running(raw, i) <= MAX_INDEX
    ensures r.Some? ==> |r.value| == |raw| && forall i :: 0 <= i < |raw| ==> r.value[i] == Running(raw, i)
  {
    var indexes := raw;
    var offset := 0;
    for j := 0 to |raw|
      invariant |indexes| == |raw|
      invariant offset == if j == 0 then 0 else Running(raw, j - 1) + 1
      invariant forall i :: 0 <= i < j ==> indexes[i] == Running(raw, i) <= MAX_INDEX
      invariant forall i :: j <= i < |raw| ==> indexes[i] == raw[i]
    {
      if indexes[j] + offset > MAX_INDEX {
        assert Running(raw, j) > MAX_INDEX;
        return None;
      }
      indexes := indexes[j := indexes[j] + offset];
      offset := indexes[j] + 1;
    }
    r := Some(indexes);
  }

  /** A stream encodes at most one list. */
  lemma {:induction false} EncodedOnce(x: seq<Index>, y: seq<Index>, stream: seq<nat>, i: nat)
    requires EncodedIn(x, stream) && EncodedIn(y, stream) && i < |x|
    ensures x[i] == y[i]
  {
    if i > 0 { EncodedOnce(x, y, stream, i - 1); }
    assert Difference(x, i) == stream[1 + i] == Difference(y, i);
    SameDifference(if i == 0 then -1 else x[i - 1], x[i], y[i]);
  }

  lemma SameDifference(previous: int, a: Index, b: Index)
    requires -1 <= previous <= MAX_INDEX
    requires (a - previous - 1) % 0x1_0000_0000_0000_0000 == (b - previous - 1) % 0x1_0000_0000_0000_0000
    ensures a == b
  {}

  /** A list survives the request message exactly when it is strictly increasing; any other list is refused. */
  method RequestRoundTrip(x: seq<Index>) returns (r: Option<seq<Index>>)
    ensures r == if Increasing(x) then Some(x) else None
  {
    var stream := WriteRequest(x);
    r := ReadRequest(stream);
    if r.Some? {
      forall i | 0 <= i < |x| ensures x[i] == r.value[i] { EncodedOnce(x, r.value, stream, i); }
      assert r.value == x;
    }
  }

  // ---- One relayed block -------------------------------------------------------------------

  method MakeCompact(header: Header, vtx: seq<Tx>, shortId: Hasher) returns (m: Message)
    requires vtx != []
    ensures Compact(m, header, vtx, shortId)
  {
    var ids := [];
    for i := 1 to |vtx|
      invariant |ids| == i - 1
      invariant forall j :: 0 <= j < i - 1 ==> ids[j] == shortId(vtx[j + 1].hash)
    {
      ids := ids + [shortId(vtx[i].hash)];
    }
    m := Message(header, ids, [Prefilled(0, vtx[0])]);
  }

  /** Only the first transaction is sent along; the others are named by their short ids. */
  ghost predicate Compact(m: Message, header: Header, vtx: seq<Tx>, shortId: Hasher) {
    && vtx != []
    && m.header == header && m.prefilled == [Prefilled(0, vtx[0])]
    && |m.shortIds| == |vtx| - 1
    && forall j :: 0 <= j < |m.shortIds| ==> m.shortIds[j] == shortId(vtx[j + 1].hash)
  }

  /** A candidate that looks like a transaction of the block is that transaction. */
  ghost predicate NoFalseMatch(shortId: Hasher, vtx: seq<Tx>, cands: seq<Candidate>) {
    forall c, i :: c in cands && 1 <= i < |vtx| && Matches(shortId, c, shortId(vtx[i].hash)) ==> c.tx == vtx[i]
  }

  lemma CompactPlaced(m: Message, header: Header, vtx: seq<Tx>, shortId: Hasher)
    requires Compact(m, header, vtx, shortId)
    ensures WellPlaced(m) <==> !vtx[0].isNull
    ensures PrefilledSlot(m.prefilled, 0) == 0
  {
    assert PrefilledSlot(m.prefilled, 0) == PrefilledSlot(m.prefilled, -1) + 1;
    assert Placed(m, 0) <==> !vtx[0].isNull;
  }

  lemma {:induction false} FreeRun(first: Slots, from: nat)
    requires from <= |first| && forall q :: from <= q < |first| ==> first[q].None?
    ensures |FreeSlots(first, from)| == |first| - from
    ensures forall i :: 0 <= i < |first| - from ==> FreeSlots(first, from)[i] == from + i
    decreases |first| - from
  {
    hide FreeSlots;
    FreeStep(first, from);
    if from < |first| {
      FreeRun(first, from + 1);
    }
  }

  lemma CompactFirst(m: Message, header: Header, vtx: seq<Tx>, shortId: Hasher, first: Slots)
    requires Compact(m, header, vtx, shortId) && HoldsPrefilled(m, 1, first)
    ensures |first| == |vtx| && first[0] == Some(vtx[0])
    ensures |FreeSlots(first, 0)| == |vtx| - 1
    ensures forall i :: 0 <= i < |vtx| - 1 ==> FreeSlots(first, 0)[i] == 1 + i
  {
    hide FreeSlots;
    CompactPlaced(m, header, vtx, shortId);
    FreeRun(first, 1);
    FreeStep(first, 0);
  }

  /** With no false match every slot holds the block's own transaction, or waits for it. */
  ghost predicate HonestSlots(shortId: Hasher, vtx: seq<Tx>, cands: seq<Candidate>, slots: Slots) {
    && |slots| == |vtx| > 0
    && slots[0] == Some(vtx[0])
    && (forall q :: 0 <= q < |slots| && slots[q].Some? ==> slots[q].value == vtx[q])
    && (forall q :: 1 <= q < |slots| ==> (slots[q].None? <==> !Offered(shortId, cands, shortId(vtx[q].hash))))
  }

  lemma FilledHonest(m: Message, header: Header, vtx: seq<Tx>, shortId: Hasher, first: Slots,
                     cands: seq<Candidate>, slots: Slots)
    requires Compact(m, header, vtx, shortId) && HoldsPrefilled(m, 1, first)
    requires Filled(shortId, m.shortIds, first, cands, slots, true)
    requires NoFalseMatch(shortId, vtx, cands)
    ensures HonestSlots(shortId, vtx, cands, slots)
  {
    hide FreeSlots, HoldsPrefilled, Matches;
    CompactFirst(m, header, vtx, shortId, first);
    forall q | 1 <= q < |slots|
      ensures slots[q].Some? ==> slots[q].value == vtx[q]
      ensures slots[q].None? <==> !Offered(shortId, cands, shortId(vtx[q].hash))
    {
      assert FreeSlots(first, 0)[q - 1] == q;
      assert SlotFilled(shortId, cands, m.shortIds[q - 1], slots[q], true);
    }
  }

  /** The peer's answer to a request, which must name existing positions. */
  method Answer(vtx: seq<Tx>, indexes: seq<Index>) returns (r: Option<seq<Tx>>)
    ensures r.Some? <==> forall i :: 0 <= i < |indexes| ==> indexes[i] < |vtx|
    ensures r.Some? ==>
      |r.value| == |indexes| && forall i :: 0 <= i < |indexes| ==> r.value[i] == vtx[indexes[i]]
  {
    var txn := [];
    for i := 0 to |indexes|
      invariant |txn| == i
      invariant forall j :: 0 <= j < i ==> indexes[j] < |vtx| && txn[j] == vtx[indexes[j]]
    {
      if indexes[i] >= |vtx| {
        return None;
      }
      txn := txn + [vtx[indexes[i]]];
    }
    r := Some(txn);
  }

  /** Filling the requested positions of honest slots gives back the block. */
  lemma HonestReassembled(shortId: Hasher, vtx: seq<Tx>, cands: seq<Candidate>, slots: Slots,
                          missing: seq<Tx>, received: seq<Tx>)
    requires HonestSlots(shortId, vtx, cands, slots) && Reassembled(slots, missing, received)
    requires forall i :: 0 <= i < |missing| ==> missing[i] == vtx[FreeSlots(slots, 0)[i]]
    ensures received == vtx
  {
    FreeShape(slots, 0);
    forall q | 0 <= q < |vtx|
      ensures received[q] == vtx[q]
    {
      if slots[q].None? {
        assert q in FreeSlots(slots, 0);
      }
    }
  }

  /** When the message is accepted at all. */
  ghost predicate Relayable(header: Header, vtx: seq<Tx>, shortId: Hasher, maxBlockSize: nat) {
    && header != NullHeader
    && vtx != []
    && |vtx| <= maxBlockSize / MIN_SERIALIZABLE_TRANSACTION_SIZE
    && !vtx[0].isNull
    && forall i, j :: 1 <= i < j < |vtx| ==> shortId(vtx[i].hash) != shortId(vtx[j].hash)
  }

  lemma DistinctIds(m: Message, header: Header, vtx: seq<Tx>, shortId: Hasher)
    requires Compact(m, header, vtx, shortId)
    ensures Distinct(m.shortIds) <==>
      forall i, j :: 1 <= i < j < |vtx| ==> shortId(vtx[i].hash) != shortId(vtx[j].hash)
  {
    if Distinct(m.shortIds) {
      forall i, j | 1 <= i < j < |vtx|
        ensures shortId(vtx[i].hash) != shortId(vtx[j].hash)
      {
        assert m.shortIds[i - 1] != m.shortIds[j - 1];
      }
    }
  }

  lemma HonestRequest(shortId: Hasher, vtx: seq<Tx>, cands: seq<Candidate>, slots: Slots)
    requires HonestSlots(shortId, vtx, cands, slots)
    ensures forall i :: i in FreeSlots(slots, 0) <==>
      1 <= i < |vtx| && !Offered(shortId, cands, shortId(vtx[i].hash))
  {
    hide Offered;
    FreeShape(slots, 0);
  }

  /**
   * One block over the wire to a peer with an empty partial block. When the short ids are
   * distinct and no mempool or extra transaction falsely matches one of them, the peer asks for
   * exactly the transactions it was not offered and ends with the sender's transaction list.
   */
  method Relay(header: Header, vtx: seq<Tx>, shortId: Hasher, pool: seq<Tx>, extra: seq<Candidate>,
               maxBlockSize: nat, crowded: (map<ShortId, nat>, ShortId) -> bool,
               checkBlock: seq<Tx> -> CheckOutcome)
    returns (status: ReadStatus, requested: seq<Index>, received: seq<Tx>)
    requires vtx != [] && |vtx| <= MAX_INDEX
    requires DistinctHashes(pool)
    requires NoFalseMatch(shortId, vtx, PoolCandidates(pool) + extra)
    ensures status == Ok ==> Relayable(header, vtx, shortId, maxBlockSize) && received == vtx
    ensures status == Ok ==> forall i :: i in requested <==>
      1 <= i < |vtx| && !Offered(shortId, PoolCandidates(pool) + extra, shortId(vtx[i].hash))
    ensures
      && Relayable(header, vtx, shortId, maxBlockSize)
      && (forall table, s :: !crowded(table, s))
      && checkBlock(vtx) == Passed
      ==> status == Ok
  {
    hide FreeSlots, HoldsPrefilled, Filled, HonestSlots, Reassembled, NoFalseMatch, DistinctHashes, PoolCandidates,
      Compact, Distinct, Offered, Increasing;
    ghost var cands := PoolCandidates(pool) + extra;
    requested, received := [], [];
    var m := MakeCompact(header, vtx, shortId);
    CompactSizes(m, header, vtx, shortId);
    CompactPlaced(m, header, vtx, shortId);
    DistinctIds(m, header, vtx, shortId);
    var partial := new PartiallyDownloadedBlock();
    ghost var first;
    status, first := partial.InitData(m, shortId, pool, extra, maxBlockSize, crowded);
    if status != Ok {
      return;
    }
    FilledHonest(m, header, vtx, shortId, first, cands, partial.txnAvailable);
    ghost var slots := partial.txnAvailable;
    var indexes := partial.MissingIndexes();
    MissingIncreasing(shortId, vtx, cands, slots);
    var sent := RequestRoundTrip(indexes);
    requested := indexes;
    var missing := Answer(vtx, sent.value);
    HonestRequest(shortId, vtx, cands, slots);
    status, received := partial.FillBlock(missing.value, checkBlock);
    HonestReassembled(shortId, vtx, cands, slots, missing.value, received);
  }

  lemma CompactSizes(m: Message, header: Header, vtx: seq<Tx>, shortId: Hasher)
    requires Compact(m, header, vtx, shortId)
    ensures m.header == header && |m.shortIds| == |vtx| - 1 && |m.prefilled| == 1
  {
  }

  lemma MissingIncreasing(shortId: Hasher, vtx: seq<Tx>, cands: seq<Candidate>, slots: Slots)
    requires HonestSlots(shortId, vtx, cands, slots) && |vtx| <= MAX_INDEX
    ensures forall i :: 0 <= i < FreeCount(slots) ==> FreeSlots(slots, 0)[i] < |vtx| <= MAX_INDEX
    ensures Increasing(FreeSlots(slots, 0))
  {
    FreeShape(slots, 0);
  }
}
