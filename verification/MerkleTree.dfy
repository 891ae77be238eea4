/** Merkle trees over a list of transaction ids, and the traversals behind partial trees. */
module MerkleTree {
  import opened Numbers

  type Hash = nat

  // How two hashes are combined. The functions below take it as a parameter.
  type PairHash = (Hash, Hash) -> Hash

  ghost predicate Injective(pair: PairHash) {
    forall a, b, c, d :: pair(a, b) == pair(c, d) ==> a == c && b == d
  }

  // The number of nodes at a height of the tree over n transactions.
  function CalcTreeWidth(n: nat, height: nat): nat {
    (n + Pow2(height) - 1) / Pow2(height)
  }

  // Node pos exists at a height exactly when its leftmost leaf does.
  lemma WidthLeaf(n: nat, height: nat, pos: nat)
    ensures pos < CalcTreeWidth(n, height) <==> pos * Pow2(height) < n
  {
    var p := Pow2(height);
    var w := (n + p - 1) / p;
    assert w * p <= n + p - 1 < w * p + p by { DivBounds(n + p - 1, p); }
    if pos < w {
      assert (pos + 1) * p <= w * p by { MulMono(pos + 1, w, p); }
    } else {
      assert w * p <= pos * p by { MulMono(w, pos, p); }
    }
  }

  lemma DivBounds(a: nat, b: nat)
    requires b > 0
    ensures a / b * b <= a < a / b * b + b
  {}

  lemma MulMono(a: nat, b: nat, c: nat)
    requires a <= b
    ensures a * c <= b * c
  {}

  // A node exists at a height of the tree.
  predicate Node(n: nat, height: nat, pos: nat) {
    pos * Pow2(height) < n
  }

  lemma Children(n: nat, height: nat, pos: nat)
    requires height > 0 && Node(n, height, pos)
    ensures Node(n, height - 1, 2 * pos)
    ensures Node(n, height - 1, 2 * pos + 1) <==> 2 * pos + 1 < CalcTreeWidth(n, height - 1)
  {
    WidthLeaf(n, height - 1, 2 * pos + 1);
    assert (2 * pos) * Pow2(height - 1) == pos * Pow2(height);
  }

  function CalcHash(pair: PairHash, txids: seq<Hash>, height: nat, pos: nat): Hash
    requires Node(|txids|, height, pos)
    decreases height
  {
    if height == 0 then txids[pos] else
    Children(|txids|, height, pos);
    var left := CalcHash(pair, txids, height - 1, 2 * pos);
    if 2 * pos + 1 < CalcTreeWidth(|txids|, height - 1)
    then pair(left, CalcHash(pair, txids, height - 1, 2 * pos + 1))
    else pair(left, left)
  }

  // The height of the whole tree: the first one with at most one node.
  function HeightFrom(n: nat, h: nat): (r: nat)
    ensures r >= h && CalcTreeWidth(n, r) <= 1 && forall i :: h <= i < r ==> CalcTreeWidth(n, i) > 1
    decreases if n > Pow2(h) then n - Pow2(h) else 0
  {
    WidthOne(n, h);
    if CalcTreeWidth(n, h) > 1 then HeightFrom(n, h + 1) else h
  }

  lemma WidthOne(n: nat, h: nat)
    ensures CalcTreeWidth(n, h) > 1 <==> n > Pow2(h)
  {
    WidthLeaf(n, h, 1);
  }

  function TreeHeight(n: nat): nat { HeightFrom(n, 0) }

  // ---------------------------------------------------------------- building

  // Some leaf below the node is matched.
  predicate ParentOfMatch(vMatch: seq<bool>, height: nat, pos: nat) {
    exists p :: pos * Pow2(height) <= p < (pos + 1) * Pow2(height) && p < |vMatch| && vMatch[p]
  }

  datatype Partial = Partial(bits: seq<bool>, hashes: seq<Hash>)

  // What TraverseAndBuild appends for a node.
  function Build(pair: PairHash, txids: seq<Hash>, vMatch: seq<bool>, height: nat, pos: nat): Partial
    requires |vMatch| == |txids| && Node(|txids|, height, pos)
    decreases height
  {
    var matched := ParentOfMatch(vMatch, height, pos);
    if height == 0 || !matched then Partial([matched], [CalcHash(pair, txids, height, pos)]) else
    Children(|txids|, height, pos);
    var left := Build(pair, txids, vMatch, height - 1, 2 * pos);
    if 2 * pos + 1 < CalcTreeWidth(|txids|, height - 1) then
      var right := Build(pair, txids, vMatch, height - 1, 2 * pos + 1);
      Partial([matched] + left.bits + right.bits, left.hashes + right.hashes)
    else Partial([matched] + left.bits, left.hashes)
  }

  // A node without a match below, or a leaf, is one bit and one hash.
  lemma BuildStops(pair: PairHash, txids: seq<Hash>, vMatch: seq<bool>, height: nat, pos: nat)
    requires |vMatch| == |txids| && Node(|txids|, height, pos)
    requires height == 0 || !ParentOfMatch(vMatch, height, pos)
    ensures Build(pair, txids, vMatch, height, pos)
         == Partial([ParentOfMatch(vMatch, height, pos)], [CalcHash(pair, txids, height, pos)])
  {
    hide CalcHash, ParentOfMatch, CalcTreeWidth;
  }

  // Any other node is its bit and what its children append.
  lemma BuildDescends(pair: PairHash, txids: seq<Hash>, vMatch: seq<bool>, height: nat, pos: nat)
    requires |vMatch| == |txids| && Node(|txids|, height, pos) && height > 0 && ParentOfMatch(vMatch, height, pos)
    ensures Node(|txids|, height - 1, 2 * pos)
    ensures Node(|txids|, height - 1, 2 * pos + 1) <==> 2 * pos + 1 < CalcTreeWidth(|txids|, height - 1)
    ensures var b := Build(pair, txids, vMatch, height, pos);
            var left := Build(pair, txids, vMatch, height - 1, 2 * pos);
            if 2 * pos + 1 < CalcTreeWidth(|txids|, height - 1) then
              var right := Build(pair, txids, vMatch, height - 1, 2 * pos + 1);
              b.bits == [true] + left.bits + right.bits && b.hashes == left.hashes + right.hashes
            else b.bits == [true] + left.bits && b.hashes == left.hashes
  {
    hide CalcHash, ParentOfMatch, CalcTreeWidth, Node;
    Children(|txids|, height, pos);
  }

  // ---------------------------------------------------------------- extracting

  datatype Match = Match(hash: Hash, index: nat)

  // The state of a traversal: what it returned, how far it read, what it matched and whether it hit invalid data.
  datatype Extraction = Extraction(hash: Hash, bitsUsed: nat, hashUsed: nat, matches: seq<Match>, bad: bool)

  // What TraverseAndExtract does from a position on the bits and hashes.
  function Extract(pair: PairHash, p: Partial, n: nat, height: nat, pos: nat, bitsUsed: nat, hashUsed: nat): Extraction
    decreases height
  {
    if bitsUsed >= |p.bits| then Extraction(0, bitsUsed, hashUsed, [], true) else
    var matched := p.bits[bitsUsed];
    if height == 0 || !matched then
      if hashUsed >= |p.hashes| then Extraction(0, bitsUsed + 1, hashUsed, [], true)
      else
        var hash := p.hashes[hashUsed];
        Extraction(hash, bitsUsed + 1, hashUsed + 1, if height == 0 && matched then [Match(hash, pos)] else [], false)
    else
      var l := Extract(pair, p, n, height - 1, 2 * pos, bitsUsed + 1, hashUsed);
      if 2 * pos + 1 < CalcTreeWidth(n, height - 1) then
        var r := Extract(pair, p, n, height - 1, 2 * pos + 1, l.bitsUsed, l.hashUsed);
        Extraction(pair(l.hash, r.hash), r.bitsUsed, r.hashUsed, l.matches + r.matches, l.bad || r.bad
            || r.hash == l.hash)
      else Extraction(pair(l.hash, l.hash), l.bitsUsed, l.hashUsed, l.matches, l.bad)
  }

  // ---------------------------------------------------------------- soundness

  // Any traversal that ends in the hash of a node of the tree over txids, without meeting invalid data, matched only
  // transactions of the list, at their own positions.
  lemma {:induction false} ExtractSound(pair: PairHash, txids: seq<Hash>, p: Partial, height: nat, pos: nat,
      bitsUsed: nat, hashUsed: nat)
    requires Injective(pair) && Node(|txids|, height, pos)
    requires var e := Extract(pair, p, |txids|, height, pos, bitsUsed, hashUsed);
             !e.bad && e.hash == CalcHash(pair, txids, height, pos)
    ensures var e := Extract(pair, p, |txids|, height, pos, bitsUsed, hashUsed);
            forall i :: 0 <= i < |e.matches| ==>
                e.matches[i].index < |txids| && e.matches[i].hash == txids[e.matches[i].index]
    decreases height
  {
    if height > 0 && p.bits[bitsUsed] {
      Children(|txids|, height, pos);
      var l := Extract(pair, p, |txids|, height - 1, 2 * pos, bitsUsed + 1, hashUsed);
      ExtractSound(pair, txids, p, height - 1, 2 * pos, bitsUsed + 1, hashUsed);
      if 2 * pos + 1 < CalcTreeWidth(|txids|, height - 1) {
        ExtractSound(pair, txids, p, height - 1, 2 * pos + 1, l.bitsUsed, l.hashUsed);
      }
    }
  }

  // The leaf beside leaf i in the tree, if there is one, has another id.
  predicate Apart(txids: seq<Hash>, i: nat) {
    var s := if i % 2 == 0 then i + 1 else i - 1;
    i < |txids| && (s < |txids| ==> txids[s] != txids[i])
  }

  // No such traversal matches an id that the list repeats beside it: a list and the one with its last id repeated have
  // the same root, and the test for equal children tells them apart.
  lemma {:induction false} ExtractApart(pair: PairHash, txids: seq<Hash>, p: Partial, height: nat, pos: nat,
                                        bitsUsed: nat, hashUsed: nat)
    requires Injective(pair) && Node(|txids|, height, pos)
    requires var e := Extract(pair, p, |txids|, height, pos, bitsUsed, hashUsed);
             !e.bad && e.hash == CalcHash(pair, txids, height, pos)
    ensures var e := Extract(pair, p, |txids|, height, pos, bitsUsed, hashUsed);
            forall m :: m in e.matches ==> if height == 0 then m.index == pos else Apart(txids, m.index)
    decreases height
  {
    if height > 0 && p.bits[bitsUsed] {
      Children(|txids|, height, pos);
      var l := Extract(pair, p, |txids|, height - 1, 2 * pos, bitsUsed + 1, hashUsed);
      ExtractApart(pair, txids, p, height - 1, 2 * pos, bitsUsed + 1, hashUsed);
      if 2 * pos + 1 < CalcTreeWidth(|txids|, height - 1) {
        ExtractApart(pair, txids, p, height - 1, 2 * pos + 1, l.bitsUsed, l.hashUsed);
      }
      if height == 1 { WidthLeaf(|txids|, 0, 2 * pos + 1); }
    }
  }

  // Two traversals that read bits of which one list continues the other, end in the same hash and meet no invalid
  // data read the same hashes.
  lemma {:induction false} ExtractUnique(pair: PairHash, p: Partial, q: Partial, n: nat, height: nat, pos: nat,
                                         bitsUsed: nat, i: nat, j: nat)
    requires Injective(pair) && p.bits <= q.bits && i <= |p.hashes| && j <= |q.hashes|
    requires var e, f := Extract(pair, p, n, height, pos, bitsUsed, i), Extract(pair, q, n, height, pos, bitsUsed, j);
             !e.bad && !f.bad && e.hash == f.hash
    ensures var e, f := Extract(pair, p, n, height, pos, bitsUsed, i), Extract(pair, q, n, height, pos, bitsUsed, j);
            && e.bitsUsed == f.bitsUsed && e.matches == f.matches
            && i <= e.hashUsed <= |p.hashes| && j <= f.hashUsed <= |q.hashes|
            && p.hashes[i..e.hashUsed] == q.hashes[j..f.hashUsed]
    decreases height
  {
    if bitsUsed < |p.bits| && height > 0 && p.bits[bitsUsed] {
      DescendUnique(pair, p, q, n, height, pos, bitsUsed, i, j);
    }
  }

  lemma {:induction false} DescendUnique(pair: PairHash, p: Partial, q: Partial, n: nat, height: nat, pos: nat,
                                         bitsUsed: nat, i: nat, j: nat)
    requires Injective(pair) && p.bits <= q.bits && i <= |p.hashes| && j <= |q.hashes|
    requires bitsUsed < |p.bits| && height > 0 && p.bits[bitsUsed]
    requires var e, f := Extract(pair, p, n, height, pos, bitsUsed, i), Extract(pair, q, n, height, pos, bitsUsed, j);
             !e.bad && !f.bad && e.hash == f.hash
    ensures var e, f := Extract(pair, p, n, height, pos, bitsUsed, i), Extract(pair, q, n, height, pos, bitsUsed, j);
            && e.bitsUsed == f.bitsUsed && e.matches == f.matches
            && i <= e.hashUsed <= |p.hashes| && j <= f.hashUsed <= |q.hashes|
            && p.hashes[i..e.hashUsed] == q.hashes[j..f.hashUsed]
    decreases height, 0
  {
    hide Extract, CalcTreeWidth;
    ExtractDescends(pair, p, n, height, pos, bitsUsed, i);
    ExtractDescends(pair, q, n, height, pos, bitsUsed, j);
    var l := Extract(pair, p, n, height - 1, 2 * pos, bitsUsed + 1, i);
    var m := Extract(pair, q, n, height - 1, 2 * pos, bitsUsed + 1, j);
    ExtractUnique(pair, p, q, n, height - 1, 2 * pos, bitsUsed + 1, i, j);
    if 2 * pos + 1 < CalcTreeWidth(n, height - 1) {
      ExtractUnique(pair, p, q, n, height - 1, 2 * pos + 1, l.bitsUsed, l.hashUsed, m.hashUsed);
      var r := Extract(pair, p, n, height - 1, 2 * pos + 1, l.bitsUsed, l.hashUsed);
      var t := Extract(pair, q, n, height - 1, 2 * pos + 1, m.bitsUsed, m.hashUsed);
      assert p.hashes[i..r.hashUsed] == p.hashes[i..l.hashUsed] + p.hashes[l.hashUsed..r.hashUsed];
      assert q.hashes[j..t.hashUsed] == q.hashes[j..m.hashUsed] + q.hashes[m.hashUsed..t.hashUsed];
    }
  }

  // ---------------------------------------------------------------- completeness

  // The matched transactions of the list from lo up to hi, in order.
  function MatchesIn(txids: seq<Hash>, vMatch: seq<bool>, lo: nat, hi: nat): seq<Match>
    requires |vMatch| == |txids| && lo <= hi <= |txids|
    decreases hi - lo
  {
    if lo == hi then []
    else (if vMatch[lo] then [Match(txids[lo], lo)] else []) + MatchesIn(txids, vMatch, lo + 1, hi)
  }

  lemma {:induction false} MatchesSplit(txids: seq<Hash>, vMatch: seq<bool>, lo: nat, mid: nat, hi: nat)
    requires |vMatch| == |txids| && lo <= mid <= hi <= |txids|
    ensures MatchesIn(txids, vMatch, lo, hi) == MatchesIn(txids, vMatch, lo, mid) + MatchesIn(txids, vMatch, mid, hi)
    decreases mid - lo
  {
    if lo < mid { MatchesSplit(txids, vMatch, lo + 1, mid, hi); }
  }

  lemma {:induction false} NoMatches(txids: seq<Hash>, vMatch: seq<bool>, lo: nat, hi: nat)
    requires |vMatch| == |txids| && lo <= hi <= |txids|
    requires forall i :: lo <= i < hi ==> !vMatch[i]
    ensures MatchesIn(txids, vMatch, lo, hi) == []
    decreases hi - lo
  {
    if lo < hi { NoMatches(txids, vMatch, lo + 1, hi); }
  }

  // The leaves below a node are those from First to Last.
  function First(height: nat, pos: nat): nat { pos * Pow2(height) }

  function Last(n: nat, height: nat, pos: nat): nat {
    if (pos + 1) * Pow2(height) < n then (pos + 1) * Pow2(height) else n
  }

  lemma LeavesSplit(n: nat, height: nat, pos: nat)
    requires height > 0 && Node(n, height, pos)
    ensures First(height, pos) == First(height - 1, 2 * pos) < Last(n, height - 1, 2 * pos) <= Last(n, height, pos)
    ensures First(height, pos) < Last(n, height, pos)
    ensures if 2 * pos + 1 < CalcTreeWidth(n, height - 1)
            then Last(n, height - 1, 2 * pos) == First(height - 1, 2 * pos + 1)
                && Last(n, height - 1, 2 * pos + 1) == Last(n, height, pos)
            else Last(n, height - 1, 2 * pos) == Last(n, height, pos)
  {
    Children(n, height, pos);
    var p := Pow2(height - 1);
    assert Pow2(height) == 2 * p;
    assert (2 * pos) * p == pos * (2 * p);
    assert (2 * pos + 1) * p == pos * (2 * p) + p;
    assert (2 * pos + 2) * p == (pos + 1) * (2 * p);
  }

  // In a tree over distinct ids, nodes of one height have different hashes: equal ones would have equal first leaves.
  lemma {:induction false} FirstLeaves(pair: PairHash, txids: seq<Hash>, height: nat, a: nat, b: nat)
    requires Injective(pair) && Node(|txids|, height, a) && Node(|txids|, height, b)
    requires CalcHash(pair, txids, height, a) == CalcHash(pair, txids, height, b)
    ensures txids[First(height, a)] == txids[First(height, b)]
    decreases height
  {
    if height > 0 {
      Children(|txids|, height, a);
      Children(|txids|, height, b);
      LeavesSplit(|txids|, height, a);
      LeavesSplit(|txids|, height, b);
      FirstLeaves(pair, txids, height - 1, 2 * a, 2 * b);
    }
  }

  ghost predicate Distinct(txids: seq<Hash>) {
    forall i, j :: 0 <= i < j < |txids| ==> txids[i] != txids[j]
  }

  // The stored data of a node stands on p from the given positions on.
  ghost predicate Stands(p: Partial, b: Partial, bitsUsed: nat, hashUsed: nat) {
    && bitsUsed + |b.bits| <= |p.bits| && p.bits[bitsUsed..bitsUsed + |b.bits|] == b.bits
    && hashUsed + |b.hashes| <= |p.hashes| && p.hashes[hashUsed..hashUsed + |b.hashes|] == b.hashes
  }

  // Reading back what was built for a node gives its hash and exactly its matched leaves, in order.
  lemma {:induction false} ExtractBuilt(pair: PairHash, txids: seq<Hash>, vMatch: seq<bool>, p: Partial, height: nat,
      pos: nat, bitsUsed: nat, hashUsed: nat)
    requires Injective(pair) && Distinct(txids) && |vMatch| == |txids| && Node(|txids|, height, pos)
    requires Stands(p, Build(pair, txids, vMatch, height, pos), bitsUsed, hashUsed)
    ensures First(height, pos) <= Last(|txids|, height, pos) <= |txids|
    ensures var b := Build(pair, txids, vMatch, height, pos);
            Extract(pair, p, |txids|, height, pos, bitsUsed, hashUsed) ==
            Extraction(CalcHash(pair, txids, height, pos), bitsUsed + |b.bits|, hashUsed + |b.hashes|,
                       MatchesIn(txids, vMatch, First(height, pos), Last(|txids|, height, pos)), false)
    decreases height
  {
    hide First, Last, Pow2, CalcTreeWidth, ParentOfMatch, Distinct, MatchesIn, Stands, Injective, Node, CalcHash, Build,
        Extract;
    var n := |txids|;
    var b := Build(pair, txids, vMatch, height, pos);
    LeavesInside(n, height, pos);
    StandsHead(p, b, bitsUsed, hashUsed);
    if height == 0 || !ParentOfMatch(vMatch, height, pos) {
      LeafUnfolds(pair, txids, vMatch, p, height, pos, bitsUsed, hashUsed);
      LeafMatches(txids, vMatch, height, pos);
    } else {
      Children(n, height, pos);
      LeavesSplit(n, height, pos);
      var left := Build(pair, txids, vMatch, height - 1, 2 * pos);
      InnerUnfolds(pair, txids, vMatch, height, pos);
      CalcHashUnfolds(pair, txids, height, pos);
      ExtractDescends(pair, p, n, height, pos, bitsUsed, hashUsed);
      StandsLeft(p, b, left, bitsUsed, hashUsed);
      ExtractBuilt(pair, txids, vMatch, p, height - 1, 2 * pos, bitsUsed + 1, hashUsed);
      if 2 * pos + 1 < CalcTreeWidth(n, height - 1) {
        var right := Build(pair, txids, vMatch, height - 1, 2 * pos + 1);
        StandsRight(p, b, left, right, bitsUsed, hashUsed);
        ExtractBuilt(pair, txids, vMatch, p, height - 1, 2 * pos + 1, bitsUsed + 1 + |left.bits|,
            hashUsed + |left.hashes|);
        MatchesSplit(txids, vMatch, First(height, pos), Last(n, height - 1, 2 * pos), Last(n, height, pos));
        HalvesDiffer(pair, txids, height, pos);
      }
    }
  }

  // One level of building and extracting at a node that is not descended into.
  lemma LeafUnfolds(pair: PairHash, txids: seq<Hash>, vMatch: seq<bool>, p: Partial, height: nat, pos: nat,
      bitsUsed: nat, hashUsed: nat)
    requires |vMatch| == |txids| && Node(|txids|, height, pos) && (height == 0 || !ParentOfMatch(vMatch, height, pos))
    ensures var b := Build(pair, txids, vMatch, height, pos);
            && b == Partial([ParentOfMatch(vMatch, height, pos)], [CalcHash(pair, txids, height, pos)])
            && (bitsUsed < |p.bits| && hashUsed < |p.hashes| && p.bits[bitsUsed] == b.bits[0]
                && p.hashes[hashUsed] == b.hashes[0] ==>
                  Extract(pair, p, |txids|, height, pos, bitsUsed, hashUsed) ==
                  Extraction(b.hashes[0], bitsUsed + 1, hashUsed + 1,
                             if height == 0 && ParentOfMatch(vMatch, height, pos) then [Match(txids[pos], pos)] else [],
                                 false))
  {}

  // One level of building at a node with a matched leaf.
  lemma InnerUnfolds(pair: PairHash, txids: seq<Hash>, vMatch: seq<bool>, height: nat, pos: nat)
    requires |vMatch| == |txids| && height > 0 && Node(|txids|, height, pos) && Node(|txids|, height - 1, 2 * pos)
    requires Node(|txids|, height - 1, 2 * pos + 1) <==> 2 * pos + 1 < CalcTreeWidth(|txids|, height - 1)
    requires ParentOfMatch(vMatch, height, pos)
    ensures var b := Build(pair, txids, vMatch, height, pos);
            var left := Build(pair, txids, vMatch, height - 1, 2 * pos);
            && |b.bits| > 0 && b.bits[0]
            && if 2 * pos + 1 < CalcTreeWidth(|txids|, height - 1)
               then var right := Build(pair, txids, vMatch, height - 1, 2 * pos + 1);
                    b.bits[1..] == left.bits + right.bits && b.hashes == left.hashes + right.hashes
               else b.bits[1..] == left.bits && b.hashes == left.hashes
  {
    hide CalcTreeWidth, ParentOfMatch, Node, Build;
    BuildDescends(pair, txids, vMatch, height, pos);
    var b := Build(pair, txids, vMatch, height, pos);
    var left := Build(pair, txids, vMatch, height - 1, 2 * pos);
    if 2 * pos + 1 < CalcTreeWidth(|txids|, height - 1) {
      var right := Build(pair, txids, vMatch, height - 1, 2 * pos + 1);
      assert b.bits == [true] + (left.bits + right.bits);
    }
  }

  lemma CalcHashUnfolds(pair: PairHash, txids: seq<Hash>, height: nat, pos: nat)
    requires height > 0 && Node(|txids|, height, pos) && Node(|txids|, height - 1, 2 * pos)
    requires Node(|txids|, height - 1, 2 * pos + 1) <==> 2 * pos + 1 < CalcTreeWidth(|txids|, height - 1)
    ensures var left := CalcHash(pair, txids, height - 1, 2 * pos);
            CalcHash(pair, txids, height, pos) ==
            pair(left, if 2 * pos + 1 < CalcTreeWidth(|txids|, height - 1)
                then CalcHash(pair, txids, height - 1, 2 * pos + 1) else left)
  {
    hide CalcTreeWidth, Pow2, Node;
  }

  // One level of extracting at a node that is descended into.
  lemma ExtractDescends(pair: PairHash, p: Partial, n: nat, height: nat, pos: nat, bitsUsed: nat, hashUsed: nat)
    requires height > 0 && bitsUsed < |p.bits| && p.bits[bitsUsed]
    ensures var l := Extract(pair, p, n, height - 1, 2 * pos, bitsUsed + 1, hashUsed);
            Extract(pair, p, n, height, pos, bitsUsed, hashUsed) ==
            if 2 * pos + 1 < CalcTreeWidth(n, height - 1)
            then var r := Extract(pair, p, n, height - 1, 2 * pos + 1, l.bitsUsed, l.hashUsed);
                 Extraction(pair(l.hash, r.hash), r.bitsUsed, r.hashUsed, l.matches + r.matches, l.bad || r.bad
                     || r.hash == l.hash)
            else Extraction(pair(l.hash, l.hash), l.bitsUsed, l.hashUsed, l.matches, l.bad)
  {
    hide CalcTreeWidth;
  }

  lemma LeavesInside(n: nat, height: nat, pos: nat)
    requires Node(n, height, pos)
    ensures First(height, pos) <= Last(n, height, pos) <= n
  {
    MulMono(pos, pos + 1, Pow2(height));
  }

  lemma StandsHead(p: Partial, b: Partial, bitsUsed: nat, hashUsed: nat)
    requires Stands(p, b, bitsUsed, hashUsed)
    ensures |b.bits| > 0 ==> bitsUsed < |p.bits| && p.bits[bitsUsed] == b.bits[0]
    ensures |b.hashes| > 0 ==> hashUsed < |p.hashes| && p.hashes[hashUsed] == b.hashes[0]
  {
    if |b.bits| > 0 { assert p.bits[bitsUsed] == p.bits[bitsUsed..bitsUsed + |b.bits|][0]; }
    if |b.hashes| > 0 { assert p.hashes[hashUsed] == p.hashes[hashUsed..hashUsed + |b.hashes|][0]; }
  }

  lemma HalvesDiffer(pair: PairHash, txids: seq<Hash>, height: nat, pos: nat)
    requires Injective(pair) && Distinct(txids) && height > 0 && Node(|txids|, height, pos)
    requires 2 * pos + 1 < CalcTreeWidth(|txids|, height - 1)
    ensures Node(|txids|, height - 1, 2 * pos) && Node(|txids|, height - 1, 2 * pos + 1)
    ensures CalcHash(pair, txids, height - 1, 2 * pos) != CalcHash(pair, txids, height - 1, 2 * pos + 1)
  {
    Children(|txids|, height, pos);
    LeavesSplit(|txids|, height, pos);
    if CalcHash(pair, txids, height - 1, 2 * pos) == CalcHash(pair, txids, height - 1, 2 * pos + 1) {
      FirstLeaves(pair, txids, height - 1, 2 * pos, 2 * pos + 1);
    }
  }

  lemma LeafMatches(txids: seq<Hash>, vMatch: seq<bool>, height: nat, pos: nat)
    requires |vMatch| == |txids| && Node(|txids|, height, pos) && First(height, pos) <= Last(|txids|, height, pos)
    requires height == 0 || !ParentOfMatch(vMatch, height, pos)
    ensures MatchesIn(txids, vMatch, First(height, pos), Last(|txids|, height, pos)) ==
            if height == 0 && ParentOfMatch(vMatch, height, pos) then [Match(txids[pos], pos)] else []
  {
    if ParentOfMatch(vMatch, height, pos) {
      assert First(0, pos) == pos && Last(|txids|, 0, pos) == pos + 1;
      assert MatchesIn(txids, vMatch, pos + 1, pos + 1) == [];
    } else {
      NoMatches(txids, vMatch, First(height, pos), Last(|txids|, height, pos));
    }
  }

  lemma StandsLeft(p: Partial, b: Partial, left: Partial, bitsUsed: nat, hashUsed: nat)
    requires Stands(p, b, bitsUsed, hashUsed) && |b.bits| > 0 && left.bits <= b.bits[1..] && left.hashes <= b.hashes
    ensures Stands(p, left, bitsUsed + 1, hashUsed)
  {
    assert p.bits[bitsUsed + 1..bitsUsed + 1 + |left.bits|] == b.bits[1..1 + |left.bits|];
    assert p.hashes[hashUsed..hashUsed + |left.hashes|] == b.hashes[..|left.hashes|];
  }

  lemma StandsRight(p: Partial, b: Partial, left: Partial, right: Partial, bitsUsed: nat, hashUsed: nat)
    requires Stands(p, b, bitsUsed, hashUsed)
    requires |b.bits| > 0 && b.bits[1..] == left.bits + right.bits && b.hashes == left.hashes + right.hashes
    ensures Stands(p, right, bitsUsed + 1 + |left.bits|, hashUsed + |left.hashes|)
  {
    var i, j := 1 + |left.bits|, |left.hashes|;
    assert p.bits[bitsUsed + i..bitsUsed + i + |right.bits|] == b.bits[i..i + |right.bits|] == right.bits;
    assert p.hashes[hashUsed + j..hashUsed + j + |right.hashes|] == b.hashes[j..j + |right.hashes|] == right.hashes;
  }

  // ---------------------------------------------------------------- sizes

  lemma {:induction false} MatchFound(txids: seq<Hash>, vMatch: seq<bool>, lo: nat, hi: nat, i: nat)
    requires |vMatch| == |txids| && lo <= i < hi <= |txids| && vMatch[i]
    ensures |MatchesIn(txids, vMatch, lo, hi)| >= 1
    decreases hi - lo
  {
    if lo < i { MatchFound(txids, vMatch, lo + 1, hi, i); }
  }

  lemma MatchedNode(txids: seq<Hash>, vMatch: seq<bool>, height: nat, pos: nat)
    requires |vMatch| == |txids| && Node(|txids|, height, pos) && ParentOfMatch(vMatch, height, pos)
    ensures First(height, pos) <= Last(|txids|, height, pos) <= |txids|
    ensures |MatchesIn(txids, vMatch, First(height, pos), Last(|txids|, height, pos))| >= 1
  {
    LeavesInside(|txids|, height, pos);
    var i :| pos * Pow2(height) <= i < (pos + 1) * Pow2(height) && i < |vMatch| && vMatch[i];
    MatchFound(txids, vMatch, First(height, pos), Last(|txids|, height, pos), i);
  }

  lemma LevelBound(m1: nat, m2: nat, h: nat)
    requires h > 0 && m1 + m2 >= 1
    ensures (1 + m1 * (h - 1)) + (1 + m2 * (h - 1)) <= 1 + (m1 + m2) * h
    ensures 1 + m1 * (h - 1) <= 1 + m1 * h
  {
    assert m1 * (h - 1) + m2 * (h - 1) == (m1 + m2) * h - (m1 + m2);
    assert m1 * h == m1 * (h - 1) + m1;
  }

  // A node stores at most one hash per leaf, at most one per bit, and at most one plus matches times height.
  lemma {:induction false} HashCount(pair: PairHash, txids: seq<Hash>, vMatch: seq<bool>, height: nat, pos: nat)
    requires |vMatch| == |txids| && Node(|txids|, height, pos)
    ensures First(height, pos) <= Last(|txids|, height, pos) <= |txids|
    ensures var hashes := |Build(pair, txids, vMatch, height, pos).hashes|;
            && hashes <= Last(|txids|, height, pos) - First(height, pos)
            && hashes <= |Build(pair, txids, vMatch, height, pos).bits|
            && hashes <= 1 + |MatchesIn(txids, vMatch, First(height, pos), Last(|txids|, height, pos))| * height
    decreases height
  {
    hide First, Last, Pow2, CalcTreeWidth, ParentOfMatch, MatchesIn, Node, CalcHash, Build, Extract;
    var n := |txids|;
    LeavesInside(n, height, pos);
    var empty := Partial([], []);
    if height == 0 || !ParentOfMatch(vMatch, height, pos) {
      LeafUnfolds(pair, txids, vMatch, empty, height, pos, 0, 0);
      SomeLeaf(n, height, pos);
      assert |MatchesIn(txids, vMatch, First(height, pos), Last(n, height, pos))| * height >= 0;
    } else {
      Children(n, height, pos);
      LeavesSplit(n, height, pos);
      InnerUnfolds(pair, txids, vMatch, height, pos);
      MatchedNode(txids, vMatch, height, pos);
      HashCount(pair, txids, vMatch, height - 1, 2 * pos);
      var lo, mid, hi := First(height, pos), Last(n, height - 1, 2 * pos), Last(n, height, pos);
      var m1 := |MatchesIn(txids, vMatch, lo, mid)|;
      if 2 * pos + 1 < CalcTreeWidth(n, height - 1) {
        HashCount(pair, txids, vMatch, height - 1, 2 * pos + 1);
        MatchesSplit(txids, vMatch, lo, mid, hi);
        LevelBound(m1, |MatchesIn(txids, vMatch, mid, hi)|, height);
      } else {
        LevelBound(m1, 0, height);
      }
    }
  }

  lemma SomeLeaf(n: nat, height: nat, pos: nat)
    requires Node(n, height, pos)
    ensures First(height, pos) < Last(n, height, pos)
  {
    assert (pos + 1) * Pow2(height) == pos * Pow2(height) + Pow2(height);
  }
}
