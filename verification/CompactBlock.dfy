/**
 * Compact block relay: the short-id message, the slots of a partially downloaded block,
 * filling them from the mempool and the extra transactions, and the request for the rest.
 */
module CompactBlock {
  import opened Options

  const MAX_INDEX := 0xFFFF
  const MIN_SERIALIZABLE_TRANSACTION_SIZE := 10

  datatype TxHash = TxHash(n: nat)
  datatype ShortId = ShortId(n: nat)

  /** hash is what GetHashMalFix returns; isNull holds of a transaction without inputs and outputs. */
  datatype Tx = Tx(hash: TxHash, content: nat, isNull: bool)

  type Index = i: nat | i <= MAX_INDEX

  /** index counts the slots skipped since the previous prefilled transaction. */
  datatype Prefilled = Prefilled(index: Index, tx: Tx)

  datatype Header = NullHeader | Header(content: nat)

  datatype Message = Message(header: Header, shortIds: seq<ShortId>, prefilled: seq<Prefilled>)

  /** A transaction on offer and the hash it is looked up by. */
  datatype Candidate = Candidate(hash: TxHash, tx: Tx)

  datatype ReadStatus = Ok | Invalid | Failed | CheckBlockFailed

  type Slots = seq<Option<Tx>>

  // ---- Slots -------------------------------------------------------------------------------

  /** The empty slots from `from` on, in order. */
  ghost function FreeSlots(slots: Slots, from: nat): (r: seq<nat>)
    requires from <= |slots|
    ensures forall i :: 0 <= i < |r| ==> from <= r[i] < |slots| && slots[r[i]].None?
    ensures |r| <= |slots| - from
    decreases |slots| - from
  {
    if from == |slots| then []
    else if slots[from].None? then [from] + FreeSlots(slots, from + 1)
    else FreeSlots(slots, from + 1)
  }

  /** They are listed in increasing order, and none is left out. */
  lemma {:induction false} FreeShape(slots: Slots, from: nat)
    requires from <= |slots|
    ensures forall i, j :: 0 <= i < j < |FreeSlots(slots, from)| ==>
        FreeSlots(slots, from)[i] < FreeSlots(slots, from)[j]
    ensures forall q :: from <= q < |slots| && slots[q].None? ==> q in FreeSlots(slots, from)
    decreases |slots| - from
  {
    if from < |slots| {
      FreeShape(slots, from + 1);
    }
  }

  lemma FreeStep(slots: Slots, q: nat)
    requires q <= |slots|
    ensures q == |slots| ==> FreeSlots(slots, q) == []
    ensures q < |slots| && slots[q].None? ==> FreeSlots(slots, q) == [q] + FreeSlots(slots, q + 1)
    ensures q < |slots| && slots[q].Some? ==> FreeSlots(slots, q) == FreeSlots(slots, q + 1)
  {
  }

  ghost function FreeCount(slots: Slots): nat { |FreeSlots(slots, 0)| }

  lemma {:induction false} AllFree(n: nat, slots: Slots, from: nat)
    requires from <= |slots| == n && forall q :: 0 <= q < n ==> slots[q].None?
    ensures |FreeSlots(slots, from)| == n - from
    decreases n - from
  {
    if from < n {
      AllFree(n, slots, from + 1);
    }
  }

  lemma {:induction false} SetSlot(slots: Slots, q: nat, value: Option<Tx>, from: nat)
    requires from <= |slots| && q < |slots|
    ensures |FreeSlots(slots[q := value], from)|
         == |FreeSlots(slots, from)|
            + (if q < from || slots[q].None? == value.None? then 0 else if value.None? then 1 else -1)
    decreases |slots| - from
  {
    hide FreeSlots;
    FreeStep(slots, from);
    FreeStep(slots[q := value], from);
    if from < |slots| {
      SetSlot(slots, q, value, from + 1);
    }
  }

  lemma {:induction false} NoneFree(slots: Slots, q: nat)
    requires FreeCount(slots) == 0 && q < |slots|
    ensures slots[q].Some?
  {
    FreeShape(slots, 0);
  }

  // ---- Prefilled transactions --------------------------------------------------------------

  /** The slot of the j-th prefilled transaction. */
  ghost function PrefilledSlot(prefilled: seq<Prefilled>, j: int): (r: int)
    requires -1 <= j < |prefilled|
    ensures j <= r
  {
    if j < 0 then -1 else PrefilledSlot(prefilled, j - 1) + prefilled[j].index + 1
  }

  ghost predicate Placed(m: Message, j: nat)
    requires j < |m.prefilled|
  {
    && !m.prefilled[j].tx.isNull
    && PrefilledSlot(m.prefilled, j) <= |m.shortIds| + j
  }

  /** No slot is left with neither a prefilled transaction nor a short id. */
  ghost predicate WellPlaced(m: Message) {
    forall j :: 0 <= j < |m.prefilled| ==> Placed(m, j)
  }

  /** The first n prefilled transactions stand at their slots and nothing else is set. */
  ghost predicate HoldsPrefilled(m: Message, n: nat, slots: Slots)
    requires n <= |m.prefilled|
  {
    && |slots| == |m.shortIds| + |m.prefilled|
    && FreeCount(slots) == |slots| - n
    && (forall j :: 0 <= j < n ==>
          && PrefilledSlot(m.prefilled, j) < |slots|
          && slots[PrefilledSlot(m.prefilled, j)] == Some(m.prefilled[j].tx))
    && (forall q :: 0 <= q < |slots| && slots[q].Some? ==>
          exists j :: 0 <= j < n && PrefilledSlot(m.prefilled, j) == q)
    && (forall j :: 0 <= j < n ==> PrefilledSlot(m.prefilled, j) <= PrefilledSlot(m.prefilled, n - 1))
  }

  lemma PrefilledStart(m: Message, slots: Slots)
    requires |slots| == |m.shortIds| + |m.prefilled| && forall q :: 0 <= q < |slots| ==> slots[q].None?
    ensures HoldsPrefilled(m, 0, slots)
  {
    AllFree(|slots|, slots, 0);
  }

  lemma PrefilledNext(m: Message, n: nat, slots: Slots)
    requires n < |m.prefilled| && HoldsPrefilled(m, n, slots)
    requires PrefilledSlot(m.prefilled, n) < |slots|
    ensures HoldsPrefilled(m, n + 1, slots[PrefilledSlot(m.prefilled, n) := Some(m.prefilled[n].tx)])
  {
    hide FreeSlots;
    var q := PrefilledSlot(m.prefilled, n);
    SetSlot(slots, q, Some(m.prefilled[n].tx), 0);
  }

  // ---- Short ids ---------------------------------------------------------------------------

  ghost predicate Distinct(ids: seq<ShortId>) {
    forall i, j :: 0 <= i < j < |ids| ==> ids[i] != ids[j]
  }

  /** Short id number i stands for the i-th free slot. */
  ghost predicate Assigned(slotOf: map<ShortId, nat>, ids: seq<ShortId>, free: seq<nat>) {
    && |ids| == |free|
    && Distinct(ids)
    && (forall i :: 0 <= i < |ids| ==> ids[i] in slotOf && slotOf[ids[i]] == free[i])
    && (forall s :: s in slotOf ==> s in ids)
    && |slotOf| == |ids|
  }

  /** A repeated short id leaves the map smaller than the list of ids seen. */
  ghost predicate KeysAre(slotOf: map<ShortId, nat>, seen: seq<ShortId>) {
    && (forall s :: s in slotOf <==> s in seen)
    && |slotOf| <= |seen|
    && (Distinct(seen) <==> |slotOf| == |seen|)
  }

  ghost predicate ValuesAre(slotOf: map<ShortId, nat>, seen: seq<ShortId>, free: seq<nat>) {
    && |seen| <= |free|
    && (Distinct(seen) ==> forall i :: 0 <= i < |seen| ==> seen[i] in slotOf && slotOf[seen[i]] == free[i])
  }

  lemma KeysNext(slotOf: map<ShortId, nat>, seen: seq<ShortId>, s: ShortId, q: nat)
    requires KeysAre(slotOf, seen)
    ensures KeysAre(slotOf[s := q], seen + [s])
  {
    hide Distinct;
    DistinctNext(seen, s);
    assert slotOf[s := q].Keys == slotOf.Keys + {s};
  }

  lemma ValuesNext(slotOf: map<ShortId, nat>, seen: seq<ShortId>, free: seq<nat>, s: ShortId)
    requires |seen| < |free| && ValuesAre(slotOf, seen, free)
    ensures ValuesAre(slotOf[s := free[|seen|]], seen + [s], free)
  {
    hide Distinct;
    DistinctNext(seen, s);
  }

  lemma DistinctNext(seen: seq<ShortId>, s: ShortId)
    ensures Distinct(seen + [s]) <==> Distinct(seen) && s !in seen
  {
    var more := seen + [s];
    assert more[|seen|] == s && forall i :: 0 <= i < |seen| ==> more[i] == seen[i];
    if s in seen {
      var i :| 0 <= i < |seen| && seen[i] == s;
      assert more[i] == more[|seen|];
    }
  }

  lemma AssignedAll(slotOf: map<ShortId, nat>, ids: seq<ShortId>, free: seq<nat>)
    requires |ids| == |free| && KeysAre(slotOf, ids) && ValuesAre(slotOf, ids, free)
    ensures |slotOf| == |ids| <==> Distinct(ids)
    ensures Distinct(ids) ==> Assigned(slotOf, ids, free)
  {
    hide Distinct;
  }

  // ---- Matching candidates -----------------------------------------------------------------

  type Hasher = TxHash -> ShortId

  ghost predicate Matches(shortId: Hasher, c: Candidate, s: ShortId) { shortId(c.hash) == s }

  ghost predicate Offered(shortId: Hasher, cands: seq<Candidate>, s: ShortId) {
    exists c :: c in cands && Matches(shortId, c, s)
  }

  ghost predicate OfferedAs(shortId: Hasher, cands: seq<Candidate>, s: ShortId, tx: Tx) {
    exists c :: c in cands && Matches(shortId, c, s) && c.tx == tx
  }

  /** Two different transactions are on offer for one short id. */
  ghost predicate Conflict(shortId: Hasher, cands: seq<Candidate>, s: ShortId) {
    exists c, d :: c in cands && d in cands
      && Matches(shortId, c, s) && Matches(shortId, d, s) && c.tx.hash != d.tx.hash
  }

  /** What the candidates seen so far have made of one slot. */
  ghost predicate SlotOk(shortId: Hasher, cands: seq<Candidate>, s: ShortId, slot: Option<Tx>, have: bool) {
    && (have <==> Offered(shortId, cands, s))
    && (slot.Some? ==> OfferedAs(shortId, cands, s, slot.value))
    && (slot.None? && have ==> Conflict(shortId, cands, s))
  }

  ghost predicate Within(done: seq<Candidate>, cands: seq<Candidate>) {
    forall c :: c in done ==> c in cands
  }

  lemma WithinOffered(shortId: Hasher, done: seq<Candidate>, cands: seq<Candidate>, s: ShortId)
    requires Within(done, cands)
    ensures Offered(shortId, done, s) ==> Offered(shortId, cands, s)
    ensures forall tx :: OfferedAs(shortId, done, s, tx) ==> OfferedAs(shortId, cands, s, tx)
    ensures Conflict(shortId, done, s) ==> Conflict(shortId, cands, s)
  {
    hide Matches;
  }

  lemma Unmatched(shortId: Hasher, cands: seq<Candidate>, c: Candidate, s: ShortId, slot: Option<Tx>, have: bool)
    requires SlotOk(shortId, cands, s, slot, have) && !Matches(shortId, c, s)
    ensures SlotOk(shortId, cands + [c], s, slot, have)
  {
    hide Matches;
    WithinOffered(shortId, cands, cands + [c], s);
    assert forall d :: d in cands + [c] ==> d in cands || d == c;
  }

  /** A first match fills the slot; a later one leaves it, or empties it when it conflicts. */
  lemma Matched(shortId: Hasher, cands: seq<Candidate>, c: Candidate, s: ShortId,
                slot: Option<Tx>, have: bool, slot': Option<Tx>)
    requires SlotOk(shortId, cands, s, slot, have) && Matches(shortId, c, s)
    requires Resolves(c, slot, have, slot')
    ensures SlotOk(shortId, cands + [c], s, slot', true)
  {
    hide Matches;
    WithinOffered(shortId, cands, cands + [c], s);
    assert c in cands + [c];
  }

  /** The state while the candidates seen so far are `cands`. */
  ghost predicate Matching(shortId: Hasher, ids: seq<ShortId>, free: seq<nat>, first: Slots,
                           cands: seq<Candidate>, slots: Slots, have: seq<bool>, gained: int) {
    && |slots| == |first| == |have|
    && |ids| == |free|
    && free == FreeSlots(first, 0)
    && (forall q :: 0 <= q < |slots| && first[q].Some? ==> slots[q] == first[q])
    && (forall i :: 0 <= i < |ids| ==> SlotOk(shortId, cands, ids[i], slots[free[i]], have[free[i]]))
    && gained == FreeCount(first) - FreeCount(slots)
  }

  lemma AssignedIndex(slotOf: map<ShortId, nat>, ids: seq<ShortId>, free: seq<nat>, s: ShortId) returns (k: nat)
    requires Assigned(slotOf, ids, free) && s in slotOf
    ensures k < |ids| == |free| && ids[k] == s && free[k] == slotOf[s]
  {
    k :| 0 <= k < |ids| && ids[k] == s;
  }

  /** What a match with candidate c makes of a slot. */
  ghost predicate Resolves(c: Candidate, slot: Option<Tx>, have: bool, slot': Option<Tx>) {
    if !have then slot' == Some(c.tx)
    else slot' == slot || (slot.Some? && slot'.None? && slot.value.hash != c.tx.hash)
  }

  ghost function Gain(slot: Option<Tx>, slot': Option<Tx>): int {
    if slot'.None? == slot.None? then 0 else if slot'.None? then -1 else 1
  }

  /** Only the slot of the candidate's short id changes. */
  lemma MatchingNext(shortId: Hasher, ids: seq<ShortId>, free: seq<nat>, first: Slots,
                     cands: seq<Candidate>, slots: Slots, have: seq<bool>, gained: int,
                     c: Candidate, k: nat, slot': Option<Tx>)
    requires Matching(shortId, ids, free, first, cands, slots, have, gained)
    requires k < |ids| && shortId(c.hash) == ids[k]
    requires forall i :: 0 <= i < |ids| && i != k ==> ids[i] != ids[k]
    requires Resolves(c, slots[free[k]], have[free[k]], slot')
    ensures Matching(shortId, ids, free, first, cands + [c],
                     slots[free[k] := slot'], have[free[k] := true], gained + Gain(slots[free[k]], slot'))
  {
    hide FreeSlots, SlotOk, Matches, Resolves;
    var q := free[k];
    SetSlot(slots, q, slot', 0);
    FreeMember(first, k);
    MatchesOwn(shortId, c);
    forall i | 0 <= i < |ids|
      ensures SlotOk(shortId, cands + [c], ids[i], slots[q := slot'][free[i]], have[q := true][free[i]])
    {
      FreeMember(first, i);
      if i == k {
        Matched(shortId, cands, c, ids[k], slots[q], have[q], slot');
      } else {
        FreeDistinct(first, i, k);
        MatchesOther(shortId, c, ids[i]);
        Unmatched(shortId, cands, c, ids[i], slots[free[i]], have[free[i]]);
      }
    }
  }

  lemma MatchesOwn(shortId: Hasher, c: Candidate)
    ensures Matches(shortId, c, shortId(c.hash))
  {
  }

  lemma MatchesOther(shortId: Hasher, c: Candidate, s: ShortId)
    requires s != shortId(c.hash)
    ensures !Matches(shortId, c, s)
  {
  }

  lemma FreeDistinct(first: Slots, i: nat, k: nat)
    requires i < |FreeSlots(first, 0)| && k < |FreeSlots(first, 0)| && i != k
    ensures FreeSlots(first, 0)[i] != FreeSlots(first, 0)[k]
  {
    FreeShape(first, 0);
  }

  lemma FreeMember(first: Slots, k: nat)
    requires k < |FreeSlots(first, 0)|
    ensures FreeSlots(first, 0)[k] < |first| && first[FreeSlots(first, 0)[k]].None?
  {
  }

  lemma MatchingSkips(shortId: Hasher, slotOf: map<ShortId, nat>, ids: seq<ShortId>, free: seq<nat>, first: Slots,
                      cands: seq<Candidate>, slots: Slots, have: seq<bool>, gained: int, c: Candidate)
    requires Assigned(slotOf, ids, free) && Matching(shortId, ids, free, first, cands, slots, have, gained)
    requires shortId(c.hash) !in slotOf
    ensures Matching(shortId, ids, free, first, cands + [c], slots, have, gained)
  {
    hide FreeSlots, SlotOk, Distinct;
    forall i | 0 <= i < |ids|
      ensures SlotOk(shortId, cands + [c], ids[i], slots[free[i]], have[free[i]])
    {
      FreeMember(first, i);
      assert ids[i] in slotOf;
      Unmatched(shortId, cands, c, ids[i], slots[free[i]], have[free[i]]);
    }
  }

  // ---- A partially downloaded block --------------------------------------------------------

  ghost function SlotMap(ids: seq<ShortId>, free: seq<nat>, n: nat): map<ShortId, nat>
    requires n <= |ids| == |free|
  {
    if n == 0 then map[] else SlotMap(ids, free, n - 1)[ids[n - 1] := free[n - 1]]
  }

  lemma {:induction false} SlotMapAssigned(ids: seq<ShortId>, free: seq<nat>, n: nat)
    requires n <= |ids| == |free|
    ensures KeysAre(SlotMap(ids, free, n), ids[..n]) && ValuesAre(SlotMap(ids, free, n), ids[..n], free)
  {
    if n > 0 {
      hide KeysAre, ValuesAre;
      SlotMapAssigned(ids, free, n - 1);
      assert ids[..n] == ids[..n - 1] + [ids[n - 1]];
      KeysNext(SlotMap(ids, free, n - 1), ids[..n - 1], ids[n - 1], free[n - 1]);
      ValuesNext(SlotMap(ids, free, n - 1), ids[..n - 1], free, ids[n - 1]);
    }
  }

  /** Some insertion into the short-id table overfills its bucket. */
  ghost predicate Overfull(crowded: (map<ShortId, nat>, ShortId) -> bool, ids: seq<ShortId>, free: seq<nat>, n: nat)
    requires n <= |ids| == |free|
  {
    exists i :: 0 <= i < n && crowded(SlotMap(ids, free, i + 1), ids[i])
  }

  ghost predicate Refused(m: Message, maxBlockSize: nat) {
    || m.header.NullHeader?
    || (m.shortIds == [] && m.prefilled == [])
    || |m.shortIds| + |m.prefilled| > maxBlockSize / MIN_SERIALIZABLE_TRANSACTION_SIZE
    || !WellPlaced(m)
  }

  /**
   * Prefilled slots are kept. Any other slot holds only a transaction offered for its short id;
   * when `complete`, it stays empty only if none, or two different ones, were offered.
   */
  ghost predicate Filled(shortId: Hasher, ids: seq<ShortId>, first: Slots, cands: seq<Candidate>,
                         slots: Slots, complete: bool) {
    && |slots| == |first|
    && |ids| == FreeCount(first)
    && (forall q :: 0 <= q < |slots| && first[q].Some? ==> slots[q] == first[q])
    && (forall i :: 0 <= i < |ids| ==> SlotFilled(shortId, cands, ids[i], slots[FreeSlots(first, 0)[i]], complete))
  }

  ghost predicate SlotFilled(shortId: Hasher, cands: seq<Candidate>, s: ShortId, slot: Option<Tx>, complete: bool) {
    && (slot.Some? ==> OfferedAs(shortId, cands, s, slot.value))
    && (slot.None? && complete ==> !Offered(shortId, cands, s) || Conflict(shortId, cands, s))
  }

  ghost predicate AllOffered(shortId: Hasher, ids: seq<ShortId>, cands: seq<Candidate>) {
    forall i :: 0 <= i < |ids| ==> Offered(shortId, cands, ids[i])
  }

  /** Every slot has been matched when no slot is free. */
  lemma FullMatching(shortId: Hasher, ids: seq<ShortId>, free: seq<nat>, first: Slots, done: seq<Candidate>,
                     slots: Slots, have: seq<bool>, gained: int)
    requires Matching(shortId, ids, free, first, done, slots, have, gained)
    requires FreeCount(slots) == 0
    ensures AllOffered(shortId, ids, done)
  {
    hide FreeSlots, Matches;
    forall i | 0 <= i < |ids|
      ensures Offered(shortId, done, ids[i])
    {
      FreeMember(first, i);
      NoneFree(slots, free[i]);
    }
  }

  lemma MatchingFilled(shortId: Hasher, ids: seq<ShortId>, first: Slots, done: seq<Candidate>,
                       cands: seq<Candidate>, slots: Slots, have: seq<bool>, gained: int, complete: bool)
    requires Matching(shortId, ids, FreeSlots(first, 0), first, done, slots, have, gained)
    requires Within(done, cands)
    requires complete ==> Within(cands, done) || AllOffered(shortId, ids, done) || FreeCount(slots) == 0
    ensures Filled(shortId, ids, first, cands, slots, complete)
  {
    hide FreeSlots, Offered, OfferedAs, Conflict, Within;
    forall i | 0 <= i < |ids|
      ensures SlotFilled(shortId, cands, ids[i], slots[FreeSlots(first, 0)[i]], complete)
    {
      FreeMember(first, i);
      var q := FreeSlots(first, 0)[i];
      assert SlotOk(shortId, done, ids[i], slots[q], have[q]);
      WithinOffered(shortId, done, cands, ids[i]);
      if Within(cands, done) {
        WithinOffered(shortId, cands, done, ids[i]);
      }
      if FreeCount(slots) == 0 {
        NoneFree(slots, q);
      }
    }
  }

  lemma PrefilledCount(m: Message, slots: Slots)
    requires HoldsPrefilled(m, |m.prefilled|, slots)
    ensures |slots| == |m.shortIds| + |m.prefilled| && FreeCount(slots) == |m.shortIds|
  {
  }

  lemma AssignedOthers(slotOf: map<ShortId, nat>, ids: seq<ShortId>, free: seq<nat>, k: nat)
    requires Assigned(slotOf, ids, free) && k < |ids|
    ensures forall i :: 0 <= i < |ids| && i != k ==> ids[i] != ids[k]
  {
  }

  lemma MatchingSlot(shortId: Hasher, ids: seq<ShortId>, free: seq<nat>, first: Slots,
                     cands: seq<Candidate>, slots: Slots, have: seq<bool>, gained: int, k: nat)
    requires Matching(shortId, ids, free, first, cands, slots, have, gained) && k < |ids|
    ensures |ids| == |free| && free[k] < |slots| == |have|
    ensures SlotOk(shortId, cands, ids[k], slots[free[k]], have[free[k]])
    ensures slots[free[k]].Some? ==> have[free[k]]
  {
    hide FreeSlots;
    FreeMember(first, k);
  }

  /** A second mempool match is a different transaction. */
  lemma PoolResolves(shortId: Hasher, pool: seq<Tx>, i: nat, s: ShortId, slot: Option<Tx>, have: bool)
    requires i < |pool| && DistinctHashes(pool)
    requires SlotOk(shortId, PoolCandidates(pool)[..i], s, slot, have)
    ensures slot.Some? ==> slot.value.hash != pool[i].hash
  {
    hide Matches;
    if slot.Some? {
      var c :| c in PoolCandidates(pool)[..i] && Matches(shortId, c, s) && c.tx == slot.value;
    }
  }

  lemma CountFull(shortId: Hasher, slotOf: map<ShortId, nat>, ids: seq<ShortId>, free: seq<nat>, first: Slots,
                  done: seq<Candidate>, slots: Slots, have: seq<bool>, gained: int)
    requires Assigned(slotOf, ids, free) && Matching(shortId, ids, free, first, done, slots, have, gained)
    requires gained == |slotOf|
    ensures FreeCount(slots) == 0
  {
  }

  lemma PoolThenExtra(shortId: Hasher, ids: seq<ShortId>, fromPool: seq<Candidate>, pool: seq<Tx>,
                      extra: seq<Candidate>, done: seq<Candidate>, i: nat)
    requires i <= |extra| && done == fromPool + extra[..i]
    requires Within(fromPool, PoolCandidates(pool))
    ensures Within(done, PoolCandidates(pool) + extra)
    ensures i == |extra| && Within(PoolCandidates(pool), fromPool) ==> Within(PoolCandidates(pool) + extra, done)
    ensures AllOffered(shortId, ids, fromPool) ==> AllOffered(shortId, ids, done)
  {
    hide Matches, PoolCandidates;
    if AllOffered(shortId, ids, fromPool) {
      forall j | 0 <= j < |ids|
        ensures Offered(shortId, done, ids[j])
      {
        WithinOffered(shortId, fromPool, done, ids[j]);
      }
    }
  }

  lemma MatchingStart(shortId: Hasher, ids: seq<ShortId>, first: Slots, have: seq<bool>)
    requires |ids| == FreeCount(first) && |have| == |first|
    requires forall q :: 0 <= q < |have| ==> !have[q]
    ensures Matching(shortId, ids, FreeSlots(first, 0), first, [], first, have, 0)
  {
    hide FreeSlots;
    forall i | 0 <= i < |ids|
      ensures SlotOk(shortId, [], ids[i], first[FreeSlots(first, 0)[i]], have[FreeSlots(first, 0)[i]])
    {
      FreeMember(first, i);
    }
  }

  ghost function PoolCandidates(pool: seq<Tx>): seq<Candidate> {
    seq(|pool|, i requires 0 <= i < |pool| => Candidate(pool[i].hash, pool[i]))
  }

  ghost predicate DistinctHashes(pool: seq<Tx>) {
    forall i, j :: 0 <= i < j < |pool| ==> pool[i].hash != pool[j].hash
  }

  /** Block positions filled in order: held transactions stay, the others take the missing ones. */
  ghost predicate Reassembled(slots: Slots, missing: seq<Tx>, vtx: seq<Tx>) {
    && |vtx| == |slots|
    && |missing| == FreeCount(slots)
    && (forall q :: 0 <= q < |slots| && slots[q].Some? ==> vtx[q] == slots[q].value)
    && (forall i :: 0 <= i < |missing| ==> vtx[FreeSlots(slots, 0)[i]] == missing[i])
  }

  /** The slots before i have been moved out. */
  ghost predicate MovedOut(slots: Slots, now: Slots, i: nat) {
    && |now| == |slots|
    && forall q :: 0 <= q < |slots| ==> now[q] == if q < i then None else slots[q]
  }

  lemma MovedAt(slots: Slots, now: Slots, i: nat)
    requires i < |slots| && MovedOut(slots, now, i)
    ensures now[i] == slots[i] && MovedOut(slots, now[i := None], i + 1)
  {
  }

  /** The first i positions are filled, using the first `used` missing transactions. */
  ghost predicate TakenTo(slots: Slots, missing: seq<Tx>, i: nat, used: nat, vtx: seq<Tx>) {
    && i <= |slots| && |vtx| == i
    && used <= FreeCount(slots) && used <= |missing|
    && FreeSlots(slots, 0)[used..] == FreeSlots(slots, i)
    && (forall q :: 0 <= q < i && slots[q].Some? ==> vtx[q] == slots[q].value)
    && (forall j :: 0 <= j < used ==> FreeSlots(slots, 0)[j] < i && vtx[FreeSlots(slots, 0)[j]] == missing[j])
  }

  lemma TakenStart(slots: Slots, missing: seq<Tx>)
    ensures TakenTo(slots, missing, 0, 0, []) && MovedOut(slots, slots, 0)
  {
    hide FreeSlots;
  }

  lemma TakenHeld(slots: Slots, missing: seq<Tx>, i: nat, used: nat, vtx: seq<Tx>)
    requires i < |slots| && slots[i].Some? && TakenTo(slots, missing, i, used, vtx)
    ensures TakenTo(slots, missing, i + 1, used, vtx + [slots[i].value])
  {
    hide FreeSlots;
    FreeStep(slots, i);
  }

  lemma TakenFree(slots: Slots, missing: seq<Tx>, i: nat, used: nat, vtx: seq<Tx>)
    requires i < |slots| && slots[i].None? && TakenTo(slots, missing, i, used, vtx)
    ensures used < FreeCount(slots) && FreeSlots(slots, 0)[used] == i && used <= |missing|
    ensures FreeSlots(slots, 0)[used + 1..] == FreeSlots(slots, i + 1)
  {
    hide FreeSlots;
    FreeStep(slots, i);
    SuffixStep(FreeSlots(slots, 0), used, i, FreeSlots(slots, i + 1));
  }

  lemma TakenMissing(slots: Slots, missing: seq<Tx>, i: nat, used: nat, vtx: seq<Tx>)
    requires i < |slots| && slots[i].None? && TakenTo(slots, missing, i, used, vtx) && used < |missing|
    ensures TakenTo(slots, missing, i + 1, used + 1, vtx + [missing[used]])
  {
    hide FreeSlots;
    TakenFree(slots, missing, i, used, vtx);
  }

  lemma SuffixStep(free: seq<nat>, used: nat, i: nat, rest: seq<nat>)
    requires used <= |free| && free[used..] == [i] + rest
    ensures used < |free| && free[used] == i && free[used + 1..] == rest
  {
    assert free[used..][0] == i;
    assert free[used..][1..] == free[used + 1..];
  }

  lemma TakenAll(slots: Slots, missing: seq<Tx>, used: nat, vtx: seq<Tx>)
    requires TakenTo(slots, missing, |slots|, used, vtx)
    ensures used == FreeCount(slots) <= |missing| && Reassembled(slots, missing[..used], vtx)
  {
    hide FreeSlots;
    FreeStep(slots, |slots|);
    assert |FreeSlots(slots, 0)[used..]| == 0;
  }

  datatype CheckOutcome = Passed | Corrupted | Rejected

  class PartiallyDownloadedBlock {
    var header: Header
    var txnAvailable: Slots
    var prefilledCount: nat
    var mempoolCount: int

    constructor ()
      ensures header == NullHeader && txnAvailable == [] && mempoolCount == 0
    {
      header, txnAvailable, prefilledCount, mempoolCount := NullHeader, [], 0, 0;
    }

    /**
     * The message obeys the 16-bit limit on its transaction count that deserialization enforces;
     * the mempool holds one transaction per hash.
     */
    method InitData(m: Message, shortId: Hasher, pool: seq<Tx>, extra: seq<Candidate>, maxBlockSize: nat,
                    crowded: (map<ShortId, nat>, ShortId) -> bool)
      returns (status: ReadStatus, ghost first: Slots)
      requires |m.shortIds| + |m.prefilled| <= MAX_INDEX
      requires DistinctHashes(pool)
      modifies this
      ensures status == Invalid <==>
        Refused(m, maxBlockSize) || old(header) != NullHeader || old(txnAvailable) != []
      ensures status != Invalid ==>
        && HoldsPrefilled(m, |m.prefilled|, first)
        && header == m.header
        && (status == Failed <==>
              !Distinct(m.shortIds) || Overfull(crowded, m.shortIds, FreeSlots(first, 0), |m.shortIds|))
      ensures status == Ok ==>
        Filled(shortId, m.shortIds, first, PoolCandidates(pool) + extra, txnAvailable, old(mempoolCount) == 0)
      ensures status != CheckBlockFailed
    {
      hide HoldsPrefilled, FreeSlots, Filled, Matching, Distinct, Overfull, WellPlaced, DistinctHashes, Assigned;
      first := [];
      if m.header.NullHeader? || (m.shortIds == [] && m.prefilled == []) {
        return Invalid, first;
      }
      if |m.shortIds| + |m.prefilled| > maxBlockSize / MIN_SERIALIZABLE_TRANSACTION_SIZE {
        return Invalid, first;
      }
      if !header.NullHeader? || txnAvailable != [] {
        return Invalid, first;
      }
      header := m.header;
      var placed := PlacePrefilled(m);
      if !placed {
        return Invalid, first;
      }
      prefilledCount := |m.prefilled|;
      first := txnAvailable;
      PrefilledCount(m, first);
      status := FillSlots(m, shortId, pool, extra, crowded);
    }

    method FillSlots(m: Message, shortId: Hasher, pool: seq<Tx>, extra: seq<Candidate>,
                     crowded: (map<ShortId, nat>, ShortId) -> bool)
      returns (status: ReadStatus)
      requires |m.shortIds| == FreeCount(txnAvailable)
      requires DistinctHashes(pool)
      modifies this`txnAvailable, this`mempoolCount
      ensures status == Ok || status == Failed
      ensures status == Failed <==>
        || !Distinct(m.shortIds)
        || Overfull(crowded, m.shortIds, FreeSlots(old(txnAvailable), 0), |m.shortIds|)
      ensures status == Ok ==>
        Filled(shortId, m.shortIds, old(txnAvailable), PoolCandidates(pool) + extra, txnAvailable,
               old(mempoolCount) == 0)
    {
      hide FreeSlots, Filled, Matching, Distinct, Overfull, DistinctHashes, Assigned, KeysAre, ValuesAre, SlotMap,
        PoolCandidates;
      ghost var first := txnAvailable;
      ghost var free := FreeSlots(first, 0);
      var ok, slotOf := AssignSlots(m, crowded);
      if !ok {
        return Failed;
      }
      SlotMapAssigned(m.shortIds, free, |m.shortIds|);
      assert m.shortIds[..|m.shortIds|] == m.shortIds;
      AssignedAll(slotOf, m.shortIds, free);
      if |slotOf| != |m.shortIds| {
        return Failed;
      }
      var have := seq(|txnAvailable|, i => false);
      MatchingStart(shortId, m.shortIds, first, have);
      TakeMatching(shortId, m.shortIds, slotOf, first, pool, extra, have);
      status := Ok;
    }

    method PlacePrefilled(m: Message) returns (placed: bool)
      requires |m.shortIds| + |m.prefilled| <= MAX_INDEX
      modifies this`txnAvailable
      ensures placed <==> WellPlaced(m)
      ensures placed ==> HoldsPrefilled(m, |m.prefilled|, txnAvailable)
    {
      hide HoldsPrefilled;
      txnAvailable := seq(|m.shortIds| + |m.prefilled|, i => None);
      PrefilledStart(m, txnAvailable);
      var last := -1;
      for i := 0 to |m.prefilled|
        invariant last == PrefilledSlot(m.prefilled, i - 1)
        invariant forall j :: 0 <= j < i ==> Placed(m, j)
        invariant HoldsPrefilled(m, i, txnAvailable) && |txnAvailable| == |m.shortIds| + |m.prefilled|
      {
        if m.prefilled[i].tx.isNull {
          assert !Placed(m, i);
          return false;
        }
        last := last + m.prefilled[i].index + 1;
        assert last == PrefilledSlot(m.prefilled, i);
        if last > MAX_INDEX {
          assert !Placed(m, i);
          return false;
        }
        if last > |m.shortIds| + i {
          assert !Placed(m, i);
          return false;
        }
        PrefilledNext(m, i, txnAvailable);
        txnAvailable := txnAvailable[last := Some(m.prefilled[i].tx)];
      }
      placed := true;
    }

    /** The scan stays within the slots and gives short id i the i-th free one. */
    method AssignSlots(m: Message, crowded: (map<ShortId, nat>, ShortId) -> bool)
      returns (ok: bool, slotOf: map<ShortId, nat>)
      requires |m.shortIds| == FreeCount(txnAvailable)
      ensures ok <==> !Overfull(crowded, m.shortIds, FreeSlots(txnAvailable, 0), |m.shortIds|)
      ensures ok ==> slotOf == SlotMap(m.shortIds, FreeSlots(txnAvailable, 0), |m.shortIds|)
    {
      hide FreeSlots;
      slotOf := map[];
      var offset: nat := 0;
      ghost var free := FreeSlots(txnAvailable, 0);
      for i := 0 to |m.shortIds|
        invariant i + offset <= |txnAvailable| && FreeSlots(txnAvailable, i + offset) == free[i..]
        invariant slotOf == SlotMap(m.shortIds, free, i)
        invariant !Overfull(crowded, m.shortIds, free, i)
      {
        offset := SkipTaken(i, offset);
        assert FreeSlots(txnAvailable, i + offset + 1) == free[i..][1..];
        slotOf := slotOf[m.shortIds[i] := i + offset];
        if crowded(slotOf, m.shortIds[i]) {
          return false, slotOf;
        }
      }
      ok := true;
    }

    /** Advances to the first free slot from i + start on. */
    method SkipTaken(i: nat, start: nat) returns (offset: nat)
      requires i + start <= |txnAvailable| && FreeSlots(txnAvailable, i + start) != []
      ensures i + offset < |txnAvailable| && txnAvailable[i + offset].None?
      ensures FreeSlots(txnAvailable, i + start) == [i + offset] + FreeSlots(txnAvailable, i + offset + 1)
    {
      hide FreeSlots;
      offset := start;
      FreeStep(txnAvailable, i + offset);
      while txnAvailable[i + offset].Some?
        invariant i + offset < |txnAvailable|
        invariant FreeSlots(txnAvailable, i + offset) == FreeSlots(txnAvailable, i + start)
        decreases |txnAvailable| - offset
      {
        FreeStep(txnAvailable, i + offset);
        offset := offset + 1;
        FreeStep(txnAvailable, i + offset);
      }
      FreeStep(txnAvailable, i + offset);
    }

    method TakeMatching(shortId: Hasher, ids: seq<ShortId>, slotOf: map<ShortId, nat>, ghost first: Slots,
                        pool: seq<Tx>, extra: seq<Candidate>, none: seq<bool>)
      requires DistinctHashes(pool) && Assigned(slotOf, ids, FreeSlots(first, 0))
      requires Matching(shortId, ids, FreeSlots(first, 0), first, [], txnAvailable, none, 0)
      modifies this`txnAvailable, this`mempoolCount
      ensures Filled(shortId, ids, first, PoolCandidates(pool) + extra, txnAvailable, old(mempoolCount) == 0)
    {
      hide FreeSlots, Filled, Matching, DistinctHashes, Assigned, AllOffered;
      ghost var base := mempoolCount;
      var have := none;
      ghost var free := FreeSlots(first, 0);
      ghost var all := PoolCandidates(pool) + extra;
      ghost var done := [];
      have, done := TakeFromPool(shortId, ids, slotOf, first, pool, have);
      ghost var fromPool := done;
      var i := 0;
      ghost var full := false;
      while i < |extra|
        invariant 0 <= i <= |extra|
        invariant done == fromPool + extra[..i]
        invariant Matching(shortId, ids, free, first, done, txnAvailable, have, mempoolCount - base)
      {
        have := OfferExtra(shortId, ids, slotOf, first, done, extra[i], have, base);
        done := done + [extra[i]];
        i := i + 1;
        if mempoolCount == |slotOf| {
          full := true;
          break;
        }
      }
      PoolThenExtra(shortId, ids, fromPool, pool, extra, done, i);
      if full && base == 0 {
        CountFull(shortId, slotOf, ids, free, first, done, txnAvailable, have, mempoolCount);
      }
      MatchingFilled(shortId, ids, first, done, all, txnAvailable, have, mempoolCount - base, base == 0);
    }

    method TakeFromPool(shortId: Hasher, ids: seq<ShortId>, slotOf: map<ShortId, nat>, ghost first: Slots,
                        pool: seq<Tx>, none: seq<bool>)
      returns (have: seq<bool>, ghost done: seq<Candidate>)
      requires DistinctHashes(pool) && Assigned(slotOf, ids, FreeSlots(first, 0))
      requires Matching(shortId, ids, FreeSlots(first, 0), first, [], txnAvailable, none, 0)
      modifies this`txnAvailable, this`mempoolCount
      ensures Matching(shortId, ids, FreeSlots(first, 0), first, done, txnAvailable, have,
                       mempoolCount - old(mempoolCount))
      ensures Within(done, PoolCandidates(pool))
      ensures old(mempoolCount) == 0 ==> Within(PoolCandidates(pool), done) || AllOffered(shortId, ids, done)
    {
      hide FreeSlots, Matching, DistinctHashes, Assigned, AllOffered;
      have := none;
      ghost var all := PoolCandidates(pool);
      ghost var free := FreeSlots(first, 0);
      var i := 0;
      while i < |pool|
        invariant 0 <= i <= |pool|
        invariant Matching(shortId, ids, free, first, all[..i], txnAvailable, have, mempoolCount - old(mempoolCount))
      {
        have := OfferPool(shortId, ids, slotOf, first, pool, i, have, old(mempoolCount));
        i := i + 1;
        if mempoolCount == |slotOf| {
          done := all[..i];
          if old(mempoolCount) == 0 {
            CountFull(shortId, slotOf, ids, free, first, done, txnAvailable, have, mempoolCount);
            FullMatching(shortId, ids, free, first, done, txnAvailable, have, mempoolCount);
          }
          return;
        }
      }
      done := all[..i];
      assert done == all;
    }

    method OfferPool(shortId: Hasher, ids: seq<ShortId>, slotOf: map<ShortId, nat>, ghost first: Slots,
                     pool: seq<Tx>, i: nat, was: seq<bool>, ghost base: int)
      returns (have: seq<bool>)
      requires i < |pool| && DistinctHashes(pool) && Assigned(slotOf, ids, FreeSlots(first, 0))
      requires Matching(shortId, ids, FreeSlots(first, 0), first, PoolCandidates(pool)[..i], txnAvailable, was,
                        mempoolCount - base)
      modifies this`txnAvailable, this`mempoolCount
      ensures Matching(shortId, ids, FreeSlots(first, 0), first, PoolCandidates(pool)[..i + 1], txnAvailable, have,
                       mempoolCount - base)
      ensures shortId(pool[i].hash) !in slotOf ==> txnAvailable == old(txnAvailable) && have == was
      ensures shortId(pool[i].hash) in slotOf ==>
        var q := slotOf[shortId(pool[i].hash)];
        && q < |was| == |old(txnAvailable)| && have == was[q := true]
        && txnAvailable == old(txnAvailable)[q := if was[q] then None else Some(pool[i])]
    {
      hide FreeSlots, Matching, DistinctHashes, Assigned;
      have := was;
      ghost var free := FreeSlots(first, 0);
      ghost var done, c := PoolCandidates(pool)[..i], Candidate(pool[i].hash, pool[i]);
      assert PoolCandidates(pool)[..i + 1] == done + [c];
      var s := shortId(pool[i].hash);
      if s in slotOf {
        var q := slotOf[s];
        ghost var k := AssignedIndex(slotOf, ids, free, s);
        MatchingSlot(shortId, ids, free, first, done, txnAvailable, was, mempoolCount - base, k);
        AssignedOthers(slotOf, ids, free, k);
        PoolResolves(shortId, pool, i, s, txnAvailable[q], have[q]);
        ghost var slot' := if !have[q] then Some(c.tx) else None;
        MatchingNext(shortId, ids, free, first, done, txnAvailable, was, mempoolCount - base, c, k, slot');
        if !have[q] {
          txnAvailable := txnAvailable[q := Some(pool[i])];
          have := have[q := true];
          mempoolCount := mempoolCount + 1;
        } else if txnAvailable[q].Some? {
          txnAvailable := txnAvailable[q := None];
          mempoolCount := mempoolCount - 1;
        }
        assert have == was[q := true] && txnAvailable == old(txnAvailable)[q := slot'];
      } else {
        MatchingSkips(shortId, slotOf, ids, free, first, done, txnAvailable, was, mempoolCount - base, c);
      }
    }

    method OfferExtra(shortId: Hasher, ids: seq<ShortId>, slotOf: map<ShortId, nat>, ghost first: Slots,
                      ghost done: seq<Candidate>, c: Candidate, was: seq<bool>, ghost base: int)
      returns (have: seq<bool>)
      requires Assigned(slotOf, ids, FreeSlots(first, 0))
      requires Matching(shortId, ids, FreeSlots(first, 0), first, done, txnAvailable, was, mempoolCount - base)
      modifies this`txnAvailable, this`mempoolCount
      ensures Matching(shortId, ids, FreeSlots(first, 0), first, done + [c], txnAvailable, have, mempoolCount - base)
      ensures shortId(c.hash) !in slotOf ==> txnAvailable == old(txnAvailable) && have == was
      ensures shortId(c.hash) in slotOf ==>
        var q := slotOf[shortId(c.hash)];
        && q < |was| == |old(txnAvailable)| && have == was[q := true]
        && txnAvailable == old(txnAvailable)[q := if !was[q] then Some(c.tx)
                                                  else if old(txnAvailable)[q].Some?
                                                      && old(txnAvailable)[q].value.hash == c.tx.hash
                                                  then old(txnAvailable)[q] else None]
    {
      hide FreeSlots, Matching, Assigned;
      have := was;
      ghost var free := FreeSlots(first, 0);
      var s := shortId(c.hash);
      if s in slotOf {
        var q := slotOf[s];
        ghost var k := AssignedIndex(slotOf, ids, free, s);
        MatchingSlot(shortId, ids, free, first, done, txnAvailable, was, mempoolCount - base, k);
        AssignedOthers(slotOf, ids, free, k);
        ghost var slot' := if !have[q] then Some(c.tx)
          else if txnAvailable[q].Some? && txnAvailable[q].value.hash != c.tx.hash then None
          else txnAvailable[q];
        MatchingNext(shortId, ids, free, first, done, txnAvailable, was, mempoolCount - base, c, k, slot');
        if !have[q] {
          txnAvailable := txnAvailable[q := Some(c.tx)];
          have := have[q := true];
          mempoolCount := mempoolCount + 1;
        } else if txnAvailable[q].Some? && txnAvailable[q].value.hash != c.tx.hash {
          txnAvailable := txnAvailable[q := None];
          mempoolCount := mempoolCount - 1;
        }
        assert have == was[q := true] && txnAvailable == old(txnAvailable)[q := slot'];
      } else {
        MatchingSkips(shortId, slotOf, ids, free, first, done, txnAvailable, was, mempoolCount - base, c);
      }
    }

    /** The indexes still to be requested, as the message handler collects them. */
    method MissingIndexes() returns (indexes: seq<nat>)
      ensures indexes == FreeSlots(txnAvailable, 0)
    {
      hide FreeSlots;
      indexes := [];
      FreeStep(txnAvailable, |txnAvailable|);
      for i := 0 to |txnAvailable|
        invariant indexes + FreeSlots(txnAvailable, i) == FreeSlots(txnAvailable, 0)
      {
        FreeStep(txnAvailable, i);
        if txnAvailable[i].None? {
          assert indexes + ([i] + FreeSlots(txnAvailable, i + 1)) == (indexes + [i]) + FreeSlots(txnAvailable, i + 1);
          indexes := indexes + [i];
        }
      }
      assert indexes + [] == indexes;
    }

    /** A call that runs out of missing transactions has already moved the earlier slots out. */
    method FillBlock(missing: seq<Tx>, checkBlock: seq<Tx> -> CheckOutcome)
      returns (status: ReadStatus, vtx: seq<Tx>)
      modifies this`header, this`txnAvailable
      ensures old(header) == NullHeader ==> status == Invalid && unchanged(this)
      ensures old(header) != NullHeader && |missing| < FreeCount(old(txnAvailable)) ==>
        && status == Invalid && header == old(header)
        && MovedOut(old(txnAvailable), txnAvailable, FreeSlots(old(txnAvailable), 0)[|missing|])
      ensures old(header) != NullHeader && |missing| >= FreeCount(old(txnAvailable)) ==>
        header == NullHeader && txnAvailable == []
      ensures old(header) != NullHeader && |missing| > FreeCount(old(txnAvailable)) ==> status == Invalid
      ensures old(header) != NullHeader && |missing| == FreeCount(old(txnAvailable)) ==>
        && Reassembled(old(txnAvailable), missing, vtx)
        && status == match checkBlock(vtx) {
             case Passed => Ok
             case Corrupted => Failed
             case Rejected => CheckBlockFailed
           }
    {
      hide FreeSlots, Reassembled, MovedOut;
      vtx := [];
      if header.NullHeader? {
        return Invalid, vtx;
      }
      var enough, used;
      enough, used, vtx := TakeAll(missing);
      if !enough {
        return Invalid, vtx;
      }
      header := NullHeader;
      txnAvailable := [];
      if |missing| != used {
        return Invalid, vtx;
      }
      assert missing[..used] == missing;
      match checkBlock(vtx) {
        case Passed => status := Ok;
        case Corrupted => status := Failed;
        case Rejected => status := CheckBlockFailed;
      }
    }

    method TakeAll(missing: seq<Tx>) returns (enough: bool, used: nat, vtx: seq<Tx>)
      modifies this`txnAvailable
      ensures |txnAvailable| == |old(txnAvailable)|
      ensures enough <==> |missing| >= FreeCount(old(txnAvailable))
      ensures enough ==>
        used == FreeCount(old(txnAvailable)) && Reassembled(old(txnAvailable), missing[..used], vtx)
      ensures !enough ==>
        MovedOut(old(txnAvailable), txnAvailable, FreeSlots(old(txnAvailable), 0)[|missing|])
    {
      hide FreeSlots, TakenTo, Reassembled, MovedOut;
      ghost var slots := txnAvailable;
      vtx := [];
      used := 0;
      TakenStart(slots, missing);
      for i := 0 to |txnAvailable|
        invariant |txnAvailable| == |slots|
        invariant TakenTo(slots, missing, i, used, vtx)
        invariant MovedOut(slots, txnAvailable, i)
      {
        MovedAt(slots, txnAvailable, i);
        if txnAvailable[i].None? {
          assert txnAvailable[i := None] == txnAvailable;
          TakenFree(slots, missing, i, used, vtx);
          if |missing| <= used {
            return false, used, vtx;
          }
          TakenMissing(slots, missing, i, used, vtx);
          vtx := vtx + [missing[used]];
          used := used + 1;
        } else {
          TakenHeld(slots, missing, i, used, vtx);
          vtx := vtx + [txnAvailable[i].value];
          txnAvailable := txnAvailable[i := None];
        }
      }
      enough := true;
      TakenAll(slots, missing, used, vtx);
    }
  }
}
