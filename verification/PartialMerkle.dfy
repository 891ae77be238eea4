/** Partial Merkle trees: the object that is built from a block, sent as bytes, and checked by its receiver. */
module PartialMerkle {
  import opened MerkleTree
  import opened Numbers

  // ---------------------------------------------------------------- bits in bytes

  function Mask(k: nat): bv8
    requires k < 8
  {
    (1 as bv8) << k
  }

  predicate BitSet(b: bv8, k: nat)
    requires k < 8
  {
    b & Mask(k) != 0
  }

  lemma SetBit(b: bv8, k: nat, j: nat)
    requires k < 8 && j < 8
    ensures BitSet(b | Mask(k), j) <==> k == j || BitSet(b, j)
  {
    MaskValue(k);
    MaskValue(j);
  }

  lemma MaskValue(k: nat)
    requires k < 8
    ensures Mask(k) == match k case 0 => 1 case 1 => 2 case 2 => 4 case 3 => 8
                       case 4 => 16 case 5 => 32 case 6 => 64 case _ => 128
  {
    match k
    case 0 => assert (1 as bv8) << 0 == 1;
    case 1 => assert (1 as bv8) << 1 == 2;
    case 2 => assert (1 as bv8) << 2 == 4;
    case 3 => assert (1 as bv8) << 3 == 8;
    case 4 => assert (1 as bv8) << 4 == 16;
    case 5 => assert (1 as bv8) << 5 == 32;
    case 6 => assert (1 as bv8) << 6 == 64;
    case _ => assert (1 as bv8) << 7 == 128;
  }

  // The bytes of the flag bits: bit p in byte p / 8, least significant bit first, padded with zero bits.
  method PackBits(bits: seq<bool>) returns (bytes: seq<bv8>)
    ensures |bytes| == (|bits| + 7) / 8
    ensures forall p :: 0 <= p < 8 * |bytes| ==> (BitSet(bytes[p / 8], p % 8) <==> p < |bits| && bits[p])
  {
    bytes := seq((|bits| + 7) / 8, _ => 0);
    for p := 0 to |bits|
      invariant |bytes| == (|bits| + 7) / 8
      invariant forall q :: 0 <= q < 8 * |bytes| ==> (BitSet(bytes[q / 8], q % 8) <==> q < p && bits[q])
    {
      if bits[p] {
        forall j: nat | j < 8 ensures BitSet(bytes[p / 8] | Mask(p % 8), j) <==> p % 8 == j || BitSet(bytes[p / 8], j) {
          SetBit(bytes[p / 8], p % 8, j);
        }
        bytes := bytes[p / 8 := bytes[p / 8] | Mask(p % 8)];
      }
    }
  }

  method UnpackBits(bytes: seq<bv8>) returns (bits: seq<bool>)
    ensures |bits| == 8 * |bytes|
    ensures forall p :: 0 <= p < |bits| ==> (bits[p] <==> BitSet(bytes[p / 8], p % 8))
  {
    bits := [];
    for p := 0 to 8 * |bytes|
      invariant |bits| == p
      invariant forall q :: 0 <= q < p ==> (bits[q] <==> BitSet(bytes[q / 8], q % 8))
    {
      bits := bits + [BitSet(bytes[p / 8], p % 8)];
    }
  }

  // ---------------------------------------------------------------- the object

  const NULL_HASH: Hash := 0

  // When ExtractMatches accepts its data, and the traversal it then makes; maxTransactions is the limit from the block
  // size.
  function Traversal(pair: PairHash, p: Partial, n: nat): Extraction {
    Extract(pair, p, n, TreeHeight(n), 0, 0, 0)
  }

  predicate Accepts(pair: PairHash, p: Partial, n: nat, maxTransactions: nat) {
    && 0 < n <= maxTransactions && |p.hashes| <= n && |p.hashes| <= |p.bits|
    && (var e := Traversal(pair, p, n);
        !e.bad && (e.bitsUsed + 7) / 8 == (|p.bits| + 7) / 8 && e.hashUsed == |p.hashes|)
  }

  class PartialMerkleTree {
    const pair: PairHash
    var nTransactions: nat
    var vBits: seq<bool>
    var vHash: seq<Hash>
    var fBad: bool

    function Data(): Partial
      reads this
    {
      Partial(vBits, vHash)
    }

    // The tree for a list of ids and the mask of the interesting ones.
    constructor (pair: PairHash, txids: seq<Hash>, vMatch: seq<bool>)
      requires |txids| > 0 && |vMatch| == |txids|
      ensures this.pair == pair && nTransactions == |txids| && !fBad
      ensures Node(|txids|, TreeHeight(|txids|), 0) && Data() == Build(pair, txids, vMatch, TreeHeight(|txids|), 0)
    {
      this.pair := pair;
      nTransactions, fBad := |txids|, false;
      vBits, vHash := [], [];
      new;
      var nHeight := CalcHeight();
      TraverseAndBuild(nHeight, 0, txids, vMatch);
    }

    // The tree read from its wire form.
    constructor Received(pair: PairHash, nTransactions: nat, vHash: seq<Hash>, bits: seq<bool>)
      ensures this.pair == pair && this.nTransactions == nTransactions && !fBad && Data() == Partial(bits, vHash)
    {
      this.pair := pair;
      this.nTransactions := nTransactions;
      this.vBits, this.vHash, fBad := bits, vHash, false;
    }

    method CalcHeight() returns (nHeight: nat)
      ensures nHeight == TreeHeight(nTransactions)
    {
      nHeight := 0;
      while CalcTreeWidth(nTransactions, nHeight) > 1
        invariant HeightFrom(nTransactions, nHeight) == TreeHeight(nTransactions)
        decreases TreeHeight(nTransactions) - nHeight
      {
        nHeight := nHeight + 1;
      }
    }

    method TraverseAndBuild(height: nat, pos: nat, txids: seq<Hash>, vMatch: seq<bool>)
      requires |txids| == nTransactions == |vMatch| && Node(|txids|, height, pos)
      modifies this`vBits, this`vHash
      ensures var b := Build(pair, txids, vMatch, height, pos);
              vBits == old(vBits) + b.bits && vHash == old(vHash) + b.hashes
      decreases height
    {
      hide CalcTreeWidth, CalcHash, Build, Node;
      var fParentOfMatch := AnyMatch(vMatch, pos * Pow2(height), (pos + 1) * Pow2(height));
      assert fParentOfMatch <==> ParentOfMatch(vMatch, height, pos);
      hide ParentOfMatch;
      vBits := vBits + [fParentOfMatch];
      if height == 0 || !fParentOfMatch {
        BuildStops(pair, txids, vMatch, height, pos);
        vHash := vHash + [CalcHash(pair, txids, height, pos)];
      } else {
        BuildDescends(pair, txids, vMatch, height, pos);
        TraverseAndBuild(height - 1, 2 * pos, txids, vMatch);
        if 2 * pos + 1 < CalcTreeWidth(nTransactions, height - 1) {
          TraverseAndBuild(height - 1, 2 * pos + 1, txids, vMatch);
        }
      }
    }

    // Returns the node's hash, how far it read, and the matches appended to those so far.
    method TraverseAndExtract(height: nat, pos: nat, bitsUsed: nat, hashUsed: nat, vMatch: seq<Hash>, vnIndex: seq<nat>)
        returns (hash: Hash, nBitsUsed: nat, nHashUsed: nat, vMatch': seq<Hash>, vnIndex': seq<nat>)
      modifies this`fBad
      ensures var e := Extract(pair, Data(), nTransactions, height, pos, bitsUsed, hashUsed);
              && hash == e.hash && nBitsUsed == e.bitsUsed && nHashUsed == e.hashUsed
              && vMatch' == vMatch + Hashes(e.matches) && vnIndex' == vnIndex + Indexes(e.matches)
              && fBad == (old(fBad) || e.bad)
      decreases height
    {
      hide CalcTreeWidth, Hashes, Indexes, Extract;
      ghost var data := Data();
      MatchLists([], []);
      ExtractStops(pair, data, nTransactions, height, pos, bitsUsed, hashUsed);
      nBitsUsed, nHashUsed, vMatch', vnIndex' := bitsUsed, hashUsed, vMatch, vnIndex;
      if nBitsUsed >= |vBits| {
        fBad := true;
        return NULL_HASH, nBitsUsed, nHashUsed, vMatch', vnIndex';
      }
      var fParentOfMatch := vBits[nBitsUsed];
      nBitsUsed := nBitsUsed + 1;
      if height == 0 || !fParentOfMatch {
        if nHashUsed >= |vHash| {
          fBad := true;
          return NULL_HASH, nBitsUsed, nHashUsed, vMatch', vnIndex';
        }
        hash := vHash[nHashUsed];
        nHashUsed := nHashUsed + 1;
        if height == 0 && fParentOfMatch {
          OneMatch(hash, pos);
          vMatch' := vMatch' + [hash];
          vnIndex' := vnIndex' + [pos];
        }
      } else {
        var left;
        ghost var l := Extract(pair, data, nTransactions, height - 1, 2 * pos, nBitsUsed, nHashUsed);
        left, nBitsUsed, nHashUsed, vMatch', vnIndex' := TraverseAndExtract(height - 1, 2 * pos, nBitsUsed, nHashUsed,
            vMatch', vnIndex');
        var right := left;
        if 2 * pos + 1 < CalcTreeWidth(nTransactions, height - 1) {
          MatchLists(l.matches, Extract(pair, data, nTransactions, height - 1, 2 * pos + 1, nBitsUsed,
              nHashUsed).matches);
          right, nBitsUsed, nHashUsed, vMatch', vnIndex' :=
            TraverseAndExtract(height - 1, 2 * pos + 1, nBitsUsed, nHashUsed, vMatch', vnIndex');
          if right == left { fBad := true; }
        }
        hash := pair(left, right);
        ExtractDescends(pair, data, nTransactions, height, pos, bitsUsed, hashUsed);
      }
    }

    // The root and the matches, or the null hash for invalid data.
    method ExtractMatches(maxTransactions: nat) returns (root: Hash, vMatch: seq<Hash>, vnIndex: seq<nat>)
      modifies this`fBad
      ensures root == if !old(fBad) && Accepts(pair, Data(), nTransactions, maxTransactions)
          then Traversal(pair, Data(), nTransactions).hash else NULL_HASH
      ensures Accepts(pair, Data(), nTransactions, maxTransactions) ==>
                var e := Traversal(pair, Data(), nTransactions);
                vMatch == Hashes(e.matches) && vnIndex == Indexes(e.matches)
    {
      hide Extract;
      vMatch, vnIndex := [], [];
      if nTransactions == 0 { return NULL_HASH, vMatch, vnIndex; }
      if nTransactions > maxTransactions { return NULL_HASH, vMatch, vnIndex; }
      if |vHash| > nTransactions { return NULL_HASH, vMatch, vnIndex; }
      if |vBits| < |vHash| { return NULL_HASH, vMatch, vnIndex; }
      var nHeight := CalcHeight();
      var hash, nBitsUsed, nHashUsed;
      hash, nBitsUsed, nHashUsed, vMatch, vnIndex := TraverseAndExtract(nHeight, 0, 0, 0, vMatch, vnIndex);
      if fBad { return NULL_HASH, vMatch, vnIndex; }
      if (nBitsUsed + 7) / 8 != (|vBits| + 7) / 8 { return NULL_HASH, vMatch, vnIndex; }
      if nHashUsed != |vHash| { return NULL_HASH, vMatch, vnIndex; }
      return hash, vMatch, vnIndex;
    }
  }

  function Hashes(ms: seq<Match>): seq<Hash> { seq(|ms|, i requires 0 <= i < |ms| => ms[i].hash) }

  function Indexes(ms: seq<Match>): seq<nat> { seq(|ms|, i requires 0 <= i < |ms| => ms[i].index) }

  // Extracting at a node that is not descended into, or past the end of the data.
  lemma ExtractStops(pair: PairHash, p: Partial, n: nat, height: nat, pos: nat, bitsUsed: nat, hashUsed: nat)
    ensures var e := Extract(pair, p, n, height, pos, bitsUsed, hashUsed);
            && (bitsUsed >= |p.bits| ==> e == Extraction(NULL_HASH, bitsUsed, hashUsed, [], true))
            && (bitsUsed < |p.bits| && (height == 0 || !p.bits[bitsUsed]) ==>
                  e == if hashUsed >= |p.hashes| then Extraction(NULL_HASH, bitsUsed + 1, hashUsed, [], true)
                       else Extraction(p.hashes[hashUsed], bitsUsed + 1, hashUsed + 1,
                                       if height == 0 && p.bits[bitsUsed] then [Match(p.hashes[hashUsed], pos)] else [],
                                           false))
  {}

  lemma MatchLists(a: seq<Match>, b: seq<Match>)
    ensures Hashes(a + b) == Hashes(a) + Hashes(b) && Indexes(a + b) == Indexes(a) + Indexes(b)
    ensures Hashes([]) == [] && Indexes([]) == []
  {}

  lemma OneMatch(hash: Hash, pos: nat)
    ensures Hashes([Match(hash, pos)]) == [hash] && Indexes([Match(hash, pos)]) == [pos]
  {}

  // The loop that decides whether a node is the parent of a match.
  method AnyMatch(vMatch: seq<bool>, lo: nat, hi: nat) returns (any: bool)
    ensures any <==> exists p :: lo <= p < hi && p < |vMatch| && vMatch[p]
  {
    any := false;
    var p := lo;
    while p < hi && p < |vMatch|
      invariant lo <= p && (p == lo || p <= hi)
      invariant any <==> exists q :: lo <= q < p && q < |vMatch| && vMatch[q]
    {
      any := any || vMatch[p];
      p := p + 1;
    }
  }

  // ---------------------------------------------------------------- the theorems

  // Whatever bits and hashes are presented for n transactions: if the answer is the non-null root of a list of n ids,
  // every match reported is the id at the reported position of that list, and the list does not repeat it beside it.
  lemma Soundness(pair: PairHash, p: Partial, txids: seq<Hash>, maxTransactions: nat)
    requires Injective(pair) && Accepts(pair, p, |txids|, maxTransactions)
    requires Node(|txids|, TreeHeight(|txids|), 0)
    requires Traversal(pair, p, |txids|).hash == CalcHash(pair, txids, TreeHeight(|txids|), 0)
    ensures forall m :: m in Traversal(pair, p, |txids|).matches ==>
      m.index < |txids| && m.hash == txids[m.index] && Apart(txids, m.index)
  {
    hide Extract, CalcHash, Injective, CalcTreeWidth;
    var h := TreeHeight(|txids|);
    ExtractSound(pair, txids, p, h, 0, 0, 0);
    ExtractApart(pair, txids, p, h, 0, 0, 0);
    if h == 0 { WidthOne(|txids|, 0); }
  }

  // One message for an answer. Of two accepted ones for n transactions with the same root, of which one has the bits of
  // the other and perhaps more: both carry the same hashes, so none can be added, dropped or replaced, and their bits
  // fill the same number of bytes.
  lemma HashesFixed(pair: PairHash, p: Partial, q: Partial, n: nat, maxTransactions: nat)
    requires Injective(pair) && Accepts(pair, p, n, maxTransactions) && Accepts(pair, q, n, maxTransactions)
    requires p.bits <= q.bits && Traversal(pair, p, n).hash == Traversal(pair, q, n).hash
    ensures p.hashes == q.hashes && (|p.bits| + 7) / 8 == (|q.bits| + 7) / 8
    ensures Traversal(pair, p, n).matches == Traversal(pair, q, n).matches
  {
    hide Extract, Injective;
    ExtractUnique(pair, p, q, n, TreeHeight(n), 0, 0, 0, 0);
    assert p.hashes == p.hashes[0..|p.hashes|] && q.hashes == q.hashes[0..|q.hashes|];
  }

  // p carries the bits of b followed by zero bits up to a whole byte, and the same hashes.
  ghost predicate Padded(p: Partial, b: Partial) {
    && |b.bits| <= |p.bits| && (|p.bits| + 7) / 8 == (|b.bits| + 7) / 8 && p.bits[..|b.bits|] == b.bits
    && p.hashes == b.hashes
  }

  // The tree built for distinct ids and any mask is accepted after its trip as bytes, and gives the root of the full
  // tree
  // and exactly the matched ids with their positions, in order; it stores at most min(n, 1 + matches * height) hashes.
  lemma Completeness(pair: PairHash, txids: seq<Hash>, vMatch: seq<bool>, p: Partial, maxTransactions: nat)
    requires Injective(pair) && Distinct(txids) && 0 < |txids| <= maxTransactions && |vMatch| == |txids|
    ensures Node(|txids|, TreeHeight(|txids|), 0)
    ensures var b := Build(pair, txids, vMatch, TreeHeight(|txids|), 0);
            var all := MatchesIn(txids, vMatch, 0, |txids|);
            && |b.hashes| <= |txids| && |b.hashes| <= 1 + |all| * TreeHeight(|txids|)
            && (Padded(p, b) ==>
                  && Accepts(pair, p, |txids|, maxTransactions)
                  && Traversal(pair, p, |txids|).hash == CalcHash(pair, txids, TreeHeight(|txids|), 0)
                  && Traversal(pair, p, |txids|).matches == all)
  {
    hide CalcHash, Build, Extract, MatchesIn, Distinct, Injective, CalcTreeWidth;
    var n, h := |txids|, TreeHeight(|txids|);
    RootSpansAll(n);
    HashCount(pair, txids, vMatch, h, 0);
    var b := Build(pair, txids, vMatch, h, 0);
    if Padded(p, b) {
      assert p.hashes[0..0 + |b.hashes|] == b.hashes;
      ExtractBuilt(pair, txids, vMatch, p, h, 0, 0, 0);
    }
  }

  lemma RootSpansAll(n: nat)
    requires n > 0
    ensures Node(n, TreeHeight(n), 0) && First(TreeHeight(n), 0) == 0 && Last(n, TreeHeight(n), 0) == n
  {
    WidthOne(n, TreeHeight(n));
  }

  // Build, send as bytes, receive and extract.
  method SendAndReceive(pair: PairHash, txids: seq<Hash>, vMatch: seq<bool>, maxTransactions: nat)
      returns (root: Hash, matched: seq<Hash>, indexes: seq<nat>)
    requires Injective(pair) && Distinct(txids) && 0 < |txids| <= maxTransactions && |vMatch| == |txids|
    ensures Node(|txids|, TreeHeight(|txids|), 0) && root == CalcHash(pair, txids, TreeHeight(|txids|), 0)
    ensures matched == Hashes(MatchesIn(txids, vMatch, 0, |txids|))
        && indexes == Indexes(MatchesIn(txids, vMatch, 0, |txids|))
  {
    hide CalcHash, Build, Extract, MatchesIn, Distinct, Injective, CalcTreeWidth, Accepts, Traversal, BitSet;
    var sent := new PartialMerkleTree(pair, txids, vMatch);
    var bytes := PackBits(sent.vBits);
    var bits := UnpackBits(bytes);
    var received := new PartialMerkleTree.Received(pair, sent.nTransactions, sent.vHash, bits);
    Completeness(pair, txids, vMatch, received.Data(), maxTransactions);
    assert bits[..|sent.vBits|] == sent.vBits;
    root, matched, indexes := received.ExtractMatches(maxTransactions);
  }
}
