/** The block assembler: package selection by ancestor score. */
module Miner {
  import opened MinerPool

  const COINBASE_SIZE := 1000
  const COINBASE_SIGOPS := 100
  const MAX_CONSECUTIVE_FAILURES := 1000

  type Modified = map<TxId, Totals>

  // ---------------------------------------------------------------- UpdatePackagesForAdded

  // What the totals of d were before any of the added transactions was subtracted.
  function Base(pool: Pool, modified: Modified, d: TxId): Totals
    requires d in pool
  {
    if d in modified then modified[d] else pool[d].withAncestors
  }

  // Entry d of m after the transactions in `part` of those added have been subtracted.
  ghost predicate Reduced(pool: Pool, modified: Modified, m: Modified, added: set<TxId>, part: set<TxId>, d: TxId)
    requires d in pool
  {
    && (d in m <==> d in modified || (d !in added && pool[d].ancestors * part != {}))
    && (d in m ==> forall kind :: Of(m[d], kind) == Of(Base(pool, modified, d), kind) - Sum(pool, kind,
        pool[d].ancestors * part))
    && (d in m ==> FeesLess(pool, Base(pool, modified, d).modFees, pool[d].ancestors * part, m[d].modFees))
  }

  // `left` is `fees` without the fees of the transactions in `gone`, plain or modified.
  ghost predicate FeesLess(pool: Pool, fees: int, gone: set<TxId>, left: int) {
    fees - FeeSum(pool, High, gone) <= left <= fees - FeeSum(pool, Low, gone)
  }

  ghost predicate AllReduced(pool: Pool, modified: Modified, m: Modified, added: set<TxId>, part: set<TxId>) {
    m.Keys <= pool.Keys && forall d :: d in pool ==> Reduced(pool, modified, m, added, part, d)
  }

  // The same inside the loop over the descendants of `it`, of which those in q are done.
  ghost predicate PartlyReduced(pool: Pool, modified: Modified, m: Modified, added: set<TxId>, part: set<TxId>,
      it: TxId, q: set<TxId>) {
    m.Keys <= pool.Keys && forall d :: d in pool ==> Reduced(pool, modified, m, added, if d in q then part + {it}
        else part, d)
  }

  // Subtracting `it` from the totals of one descendant: from the pool's totals, with the modified fee, if the entry is
  // new; otherwise from the entry, with the plain fee.
  function Subtract(pool: Pool, m: Modified, d: TxId, it: TxId): Modified
    requires d in pool && it in pool
  {
    var was := Base(pool, m, d);
    m[d := Totals(was.size - pool[it].size,
                  was.modFees - (if d in m then pool[it].fee else pool[it].modifiedFee),
                  was.sigOps - pool[it].sigOps)]
  }

  lemma SubtractReduces(pool: Pool, modified: Modified, m: Modified, added: set<TxId>, part: set<TxId>, it: TxId,
      d: TxId)
    requires d in pool && it in pool && it in pool[d].ancestors && it !in part && d !in added
    requires Reduced(pool, modified, m, added, part, d)
    ensures Reduced(pool, modified, Subtract(pool, m, d, it), added, part + {it}, d)
  {
    var s := pool[d].ancestors * part;
    assert pool[d].ancestors * (part + {it}) == s + {it};
    forall kind ensures Of(Subtract(pool, m, d, it)[d], kind) ==
                        Of(Base(pool, modified, d), kind) - Sum(pool, kind, pool[d].ancestors * (part + {it})) {
      SumAdd(pool, kind, s, it);
      if d !in m { assert s == {}; }
    }
    if d !in m { assert s == {}; }
    FeeAdd(pool, Low, s, it);
    FeeAdd(pool, High, s, it);
  }

  lemma UntouchedReduced(pool: Pool, modified: Modified, m: Modified, added: set<TxId>, part: set<TxId>, it: TxId,
      d: TxId)
    requires d in pool && (it !in pool[d].ancestors || d in added) && modified.Keys !! added
    requires Reduced(pool, modified, m, added, part, d)
    ensures Reduced(pool, modified, m, added, part + {it}, d)
  {
    if it !in pool[d].ancestors { assert pool[d].ancestors * (part + {it}) == pool[d].ancestors * part; }
  }

  // The inner loop: subtract `it` from every descendant of it that is not itself added.
  method SubtractFromDescendants(pool: Pool, added: set<TxId>, ghost modified: Modified, m0: Modified,
      ghost part: set<TxId>, it: TxId)
      returns (m: Modified)
    requires Exact(pool) && it in pool && it in added && it !in part && modified.Keys !! added
    requires AllReduced(pool, modified, m0, added, part)
    ensures AllReduced(pool, modified, m, added, part + {it})
  {
    hide Reduced, Exact, Descendants;
    m := m0;
    var todo := CalculateDescendants(pool, it);
    ghost var q: set<TxId> := {};
    while todo != {}
      invariant q + todo == Descendants(pool, it) + {it} && q !! todo
      invariant PartlyReduced(pool, modified, m, added, part, it, q)
      decreases |todo|
    {
      var desc :| desc in todo;
      SubtractStep(pool, modified, m, added, part, it, q, desc);
      if desc !in added {
        assert desc in pool by { DescendantsInPool(pool, it, desc); }
        m := Subtract(pool, m, desc, it);
      }
      q := q + {desc};
      todo := todo - {desc};
    }
    RoundReduced(pool, modified, m, added, part, it, q);
  }

  lemma DescendantsInPool(pool: Pool, it: TxId, d: TxId)
    requires it in pool && d in Descendants(pool, it) + {it}
    ensures d in pool
  {}

  // Every descendant, not itself added, of an added transaction gets an entry with the added ancestors subtracted.
  method UpdatePackagesForAdded(pool: Pool, added: set<TxId>, modified: Modified) returns (m: Modified)
    requires Exact(pool) && added <= pool.Keys && modified.Keys <= pool.Keys && modified.Keys !! added
    ensures AllReduced(pool, modified, m, added, added)
  {
    hide Reduced, Exact;
    m := modified;
    ghost var part: set<TxId> := {};
    var rest := added;
    StartReduced(pool, modified, added);
    while rest != {}
      invariant part + rest == added && part !! rest && AllReduced(pool, modified, m, added, part)
      decreases |rest|
    {
      var it :| it in rest;
      m := SubtractFromDescendants(pool, added, modified, m, part, it);
      part := part + {it};
      rest := rest - {it};
    }
    assert part == added;
  }

  lemma StartReduced(pool: Pool, modified: Modified, added: set<TxId>)
    requires modified.Keys <= pool.Keys
    ensures AllReduced(pool, modified, modified, added, {})
  {
    forall d | d in pool ensures Reduced(pool, modified, modified, added, {}, d) {
      assert pool[d].ancestors * {} == {};
    }
  }

  lemma SubtractStep(pool: Pool, modified: Modified, m: Modified, added: set<TxId>, part: set<TxId>, it: TxId,
      q: set<TxId>, desc: TxId)
    requires PartlyReduced(pool, modified, m, added, part, it, q) && it in pool && it in added && it !in part
    requires desc !in q && desc in Descendants(pool, it) + {it} && modified.Keys !! added
    ensures desc !in added ==> PartlyReduced(pool, modified, Subtract(pool, m, desc, it), added, part, it, q + {desc})
    ensures desc in added ==> PartlyReduced(pool, modified, m, added, part, it, q + {desc})
  {
    hide Reduced;
    assert Reduced(pool, modified, m, added, part, desc);
    if desc in added {
      UntouchedReduced(pool, modified, m, added, part, it, desc);
    } else {
      SubtractReduces(pool, modified, m, added, part, it, desc);
      var m2 := Subtract(pool, m, desc, it);
      forall d | d in pool && d != desc
        ensures Reduced(pool, modified, m2, added, if d in q + {desc} then part + {it} else part, d)
      {
        SameReduced(pool, modified, m, m2, added, if d in q then part + {it} else part, d);
      }
    }
  }

  lemma SameReduced(pool: Pool, modified: Modified, m: Modified, m2: Modified, added: set<TxId>, part: set<TxId>,
      d: TxId)
    requires d in pool && Reduced(pool, modified, m, added, part, d)
    requires (d in m <==> d in m2) && (d in m ==> m[d] == m2[d])
    ensures Reduced(pool, modified, m2, added, part, d)
  {}

  lemma RoundReduced(pool: Pool, modified: Modified, m: Modified, added: set<TxId>, part: set<TxId>, it: TxId,
      q: set<TxId>)
    requires PartlyReduced(pool, modified, m, added, part, it, q) && q == Descendants(pool, it) + {it}
        && modified.Keys !! added
    ensures AllReduced(pool, modified, m, added, part + {it})
  {
    hide Reduced;
    forall d | d in pool ensures Reduced(pool, modified, m, added, part + {it}, d) {
      assert Reduced(pool, modified, m, added, if d in q then part + {it} else part, d);
      if d !in q { UntouchedReduced(pool, modified, m, added, part, it, d); }
    }
  }

  // ---------------------------------------------------------------- SortForBlock

  // CompareTxIterByAncestorCount, or equal.
  predicate NotAfter(pool: Pool, a: TxId, b: TxId)
    requires a in pool && b in pool
  {
    pool[a].countWithAncestors < pool[b].countWithAncestors
    || (pool[a].countWithAncestors == pool[b].countWithAncestors && a.n <= b.n)
  }

  ghost predicate IsFirst(pool: Pool, s: set<TxId>, x: TxId)
    requires s <= pool.Keys
  {
    x in s && forall y :: y in s ==> NotAfter(pool, x, y)
  }

  lemma FirstExists(pool: Pool, s: set<TxId>) returns (x: TxId)
    requires s != {} && s <= pool.Keys
    ensures IsFirst(pool, s, x)
    decreases |s|
  {
    var z :| z in s;
    x := z;
    if s != {z} {
      ProperSubset(s - {z}, s, z);
      assert s - {z} != {};
      var y := FirstExists(pool, s - {z});
      if NotAfter(pool, y, z) { x := y; }
      forall w | w in s ensures NotAfter(pool, x, w) {
        if w != z { assert w in s - {z}; }
      }
    }
  }

  ghost function Elements(txs: seq<TxId>): set<TxId> {
    set i | 0 <= i < |txs| :: txs[i]
  }

  lemma ElementsAppend(txs: seq<TxId>, x: TxId)
    ensures Elements(txs + [x]) == Elements(txs) + {x}
  {
    forall t | t in Elements(txs) + {x} ensures t in Elements(txs + [x]) {
      if t in Elements(txs) {
        var i :| 0 <= i < |txs| && txs[i] == t;
        assert (txs + [x])[i] == t;
      } else {
        assert (txs + [x])[|txs|] == t;
      }
    }
  }

  ghost predicate Sorted(pool: Pool, txs: seq<TxId>) {
    && (forall i :: 0 <= i < |txs| ==> txs[i] in pool)
    && (forall i, j :: 0 <= i < j < |txs| ==> txs[i] != txs[j] && NotAfter(pool, txs[i], txs[j]))
  }

  method SortForBlock(pool: Pool, package: set<TxId>) returns (sorted: seq<TxId>)
    requires package <= pool.Keys
    ensures Elements(sorted) == package && Sorted(pool, sorted)
  {
    hide Elements, NotAfter;
    sorted := [];
    var rest := package;
    NoElements();
    while rest != {}
      invariant Elements(sorted) + rest == package && rest <= package
      invariant Sorted(pool, sorted)
      invariant forall i, y :: 0 <= i < |sorted| && y in rest ==> sorted[i] != y && NotAfter(pool, sorted[i], y)
      decreases |rest|
    {
      ghost var first := FirstExists(pool, rest);
      var x :| x in rest && forall y :: y in rest ==> NotAfter(pool, x, y);
      ElementsAppend(sorted, x);
      sorted := sorted + [x];
      rest := rest - {x};
    }
  }

  lemma NoElements()
    ensures Elements([]) == {}
  {}

  // ---------------------------------------------------------------- the block

  // A block without duplicates in which every transaction follows all its in-pool ancestors.
  ghost predicate BlockOk(pool: Pool, vtx: seq<TxId>) {
    forall i :: 0 <= i < |vtx| ==>
      vtx[i] in pool && vtx[i] !in Elements(vtx[..i]) && pool[vtx[i]].ancestors <= Elements(vtx[..i])
  }

  lemma BlockClosed(pool: Pool, vtx: seq<TxId>, t: TxId)
    requires BlockOk(pool, vtx) && t in Elements(vtx)
    ensures t in pool && pool[t].ancestors <= Elements(vtx)
  {
    var i :| 0 <= i < |vtx| && vtx[i] == t;
    assert Elements(vtx[..i]) <= Elements(vtx);
  }

  // Parents come before their children.
  lemma ParentsFirst(pool: Pool, vtx: seq<TxId>, i: nat, p: TxId)
    requires Exact(pool) && BlockOk(pool, vtx) && i < |vtx| && p in pool[vtx[i]].parents
    ensures exists k :: 0 <= k < i && vtx[k] == p
  {
    ParentsAreAncestors(pool, vtx[i]);
    assert p in Elements(vtx[..i]);
    var k :| 0 <= k < i && vtx[..i][k] == p;
    assert vtx[k] == p;
  }

  // In a sorted package every transaction follows its ancestors.
  lemma PackageOrder(pool: Pool, block: set<TxId>, t: TxId, sorted: seq<TxId>, i: nat)
    requires Exact(pool) && ExactTotals(pool) && t in pool
    requires Elements(sorted) == Package(pool, t, block) && i < |sorted|
    requires Sorted(pool, sorted)
    ensures sorted[i] in pool && pool[sorted[i]].ancestors <= block + Elements(sorted[..i])
  {
    hide Exact, Sum;
    var x := sorted[i];
    assert x in Package(pool, t, block);
    if x != t { Transitive(pool, t, x); }
    forall a | a in pool[x].ancestors && a !in block ensures a in Elements(sorted[..i]) {
      assert a in Elements(sorted);
      FewerAncestors(pool, x, a);
      var k :| 0 <= k < |sorted| && sorted[k] == a;
      assert k < i;
      assert sorted[..i][k] == a;
    }
  }

  // The records kept for modified transactions never understate what is left of their packages, and state it exactly
  // until the transaction fails; a transaction with an ancestor in the block is modified or has failed.
  ghost predicate RecordsOk(pool: Pool, block: set<TxId>, modified: Modified, failed: set<TxId>) {
    && modified.Keys <= pool.Keys && modified.Keys !! block
    && (forall d, kind :: d in modified ==> Of(modified[d], kind) >= Sum(pool, kind, Package(pool, d, block)))
    && (forall d, kind :: d in modified && d !in failed ==> Of(modified[d], kind) == Sum(pool, kind,
        Package(pool, d, block)))
    && (forall d :: d in pool && d !in block && pool[d].ancestors * block != {} ==> d in modified || d in failed)
  }

  ghost predicate Closed(pool: Pool, block: set<TxId>) {
    block <= pool.Keys && forall t :: t in block ==> pool[t].ancestors <= block
  }

  // Adding the package of t to a closed block and updating the records keeps them right.
  lemma RecordsAfterAdding(pool: Pool, block: set<TxId>, t: TxId, modified: Modified, m: Modified, failed: set<TxId>)
    requires Exact(pool) && ExactTotals(pool) && Closed(pool, block) && t in pool
    requires RecordsOk(pool, block, modified, failed)
    requires AllReduced(pool, modified - Package(pool, t, block), m, Package(pool, t, block), Package(pool, t, block))
    ensures RecordsOk(pool, block + Package(pool, t, block), m, failed)
  {
    hide Exact, ExactTotals, Reduced;
    var added := Package(pool, t, block);
    forall d | d in m ensures d !in block + added { NotInBlock(pool, block, added, modified - added, m, d); }
    forall d, kind | d in m
      ensures Of(m[d], kind) >= Sum(pool, kind, Package(pool, d, block + added))
      ensures d !in failed ==> Of(m[d], kind) == Sum(pool, kind, Package(pool, d, block + added))
    {
      NotInBlock(pool, block, added, modified - added, m, d);
      RecordSuffices(pool, block, added, modified, m, failed, d, kind);
    }
    forall d | d in pool && d !in block + added && pool[d].ancestors * (block + added) != {} ensures d in m
        || d in failed {
      StillRecorded(pool, block, added, modified, m, failed, d);
    }
  }

  lemma NotInBlock(pool: Pool, block: set<TxId>, added: set<TxId>, modified: Modified, m: Modified, d: TxId)
    requires Closed(pool, block) && added !! block && modified.Keys !! block && modified.Keys !! added
    requires AllReduced(pool, modified, m, added, added) && d in m
    ensures d in pool && d !in block + added
  {
    assert Reduced(pool, modified, m, added, added, d);
  }

  lemma RecordSuffices(pool: Pool, block: set<TxId>, added: set<TxId>, modified: Modified, m: Modified,
      failed: set<TxId>,
                       d: TxId, kind: Kind)
    requires ExactTotals(pool) && d in pool && d in m && d !in block + added && added !! block
    requires d in modified ==> Of(modified[d], kind) >= Sum(pool, kind, Package(pool, d, block))
    requires d in modified && d !in failed ==> Of(modified[d], kind) == Sum(pool, kind, Package(pool, d, block))
    requires pool[d].ancestors * block != {} ==> d in modified || d in failed
    requires AllReduced(pool, modified - added, m, added, added)
    ensures Of(m[d], kind) >= Sum(pool, kind, Package(pool, d, block + added))
    ensures d !in failed ==> Of(m[d], kind) == Sum(pool, kind, Package(pool, d, block + added))
  {
    assert Reduced(pool, modified - added, m, added, added, d);
    var gone := pool[d].ancestors * added;
    assert Package(pool, d, block) == Package(pool, d, block + added) + gone;
    SumUnion(pool, kind, Package(pool, d, block + added), gone);
    if d !in modified {
      var inside := pool[d].ancestors * block;
      assert Package(pool, d, {}) == Package(pool, d, block) + inside;
      SumUnion(pool, kind, Package(pool, d, block), inside);
    }
  }

  lemma StillRecorded(pool: Pool, block: set<TxId>, added: set<TxId>, modified: Modified, m: Modified,
      failed: set<TxId>, d: TxId)
    requires AllReduced(pool, modified - added, m, added, added) && d in pool && d !in block + added
    requires pool[d].ancestors * (block + added) != {}
    requires pool[d].ancestors * block != {} ==> d in modified || d in failed
    ensures d in m || d in failed
  {
    assert Reduced(pool, modified - added, m, added, added, d);
    var a :| a in pool[d].ancestors * (block + added);
    if a in added { assert a in pool[d].ancestors * added; } else { assert a in pool[d].ancestors * block; }
  }

  // ---------------------------------------------------------------- fees of records

  // The fees known of t: those of its whole package without its ancestors in the block, each taken off with its plain
  // or its modified fee; for a transaction that has failed some may not have been taken off.
  ghost predicate FeeKnown(pool: Pool, block: set<TxId>, failed: set<TxId>, t: TxId, fees: int)
    requires t in pool
  {
    var all, inside := pool[t].withAncestors.modFees, pool[t].ancestors * block;
    && all - FeeSum(pool, HighOrNone, inside) <= fees <= all - FeeSum(pool, LowOrNone, inside)
    && (t !in failed ==> FeesLess(pool, all, inside, fees))
  }

  ghost predicate FeesOk(pool: Pool, block: set<TxId>, modified: Modified, failed: set<TxId>) {
    forall d :: d in modified ==> d in pool && FeeKnown(pool, block, failed, d, modified[d].modFees)
  }

  lemma FeesAfterAdding(pool: Pool, block: set<TxId>, t: TxId, modified: Modified, m: Modified, failed: set<TxId>)
    requires Closed(pool, block) && t in pool
    requires RecordsOk(pool, block, modified, failed) && FeesOk(pool, block, modified, failed)
    requires AllReduced(pool, modified - Package(pool, t, block), m, Package(pool, t, block), Package(pool, t, block))
    ensures FeesOk(pool, block + Package(pool, t, block), m, failed)
  {
    hide Reduced, FeeKnown, Sum, FeeSum;
    var added := Package(pool, t, block);
    forall d | d in m ensures d in pool && FeeKnown(pool, block + added, failed, d, m[d].modFees) {
      NotInBlock(pool, block, added, modified - added, m, d);
      FeeAfterAdding(pool, block, added, modified, m, failed, d);
    }
  }

  lemma FeeAfterAdding(pool: Pool, block: set<TxId>, added: set<TxId>, modified: Modified, m: Modified,
                       failed: set<TxId>, d: TxId)
    requires d in pool && d in m && d !in block + added && added !! block
    requires d in modified ==> FeeKnown(pool, block, failed, d, modified[d].modFees)
    requires pool[d].ancestors * block != {} ==> d in modified || d in failed
    requires AllReduced(pool, modified - added, m, added, added)
    ensures FeeKnown(pool, block + added, failed, d, m[d].modFees)
  {
    hide Sum, FeeSum;
    assert Reduced(pool, modified - added, m, added, added, d);
    var inside, gone := pool[d].ancestors * block, pool[d].ancestors * added;
    assert pool[d].ancestors * (block + added) == inside + gone;
    forall b ensures FeeSum(pool, b, inside + gone) == FeeSum(pool, b, inside) + FeeSum(pool, b, gone) {
      FeeUnion(pool, b, inside, gone);
    }
    FeeBounds(pool, inside);
    FeeBounds(pool, gone);
    if d !in modified && d !in failed {
      assert inside == {};
      NoFees(pool);
    }
  }

  lemma NoFees(pool: Pool)
    ensures forall b :: FeeSum(pool, b, {}) == 0
  {}

  lemma InitialFees(pool: Pool, block: set<TxId>, m: Modified)
    requires AllReduced(pool, map[], m, block, block)
    ensures FeesOk(pool, block, m, {})
  {
    hide Sum, FeeSum;
    forall d | d in m ensures d in pool && FeeKnown(pool, block, {}, d, m[d].modFees) {
      assert d in m.Keys;
      assert Reduced(pool, map[], m, block, block, d);
      FeeBounds(pool, pool[d].ancestors * block);
    }
  }

  lemma FailedFees(pool: Pool, block: set<TxId>, modified: Modified, failed: set<TxId>, t: TxId)
    requires FeesOk(pool, block, modified, failed)
    ensures FeesOk(pool, block, modified - {t}, failed + {t}) && FeesOk(pool, block, modified, failed + {t})
  {}

  // Without prioritised transactions, and with exact fees in the pool, the fees known of a transaction that has not
  // failed are those of what is left of its package.
  lemma PlainFees(pool: Pool, block: set<TxId>, failed: set<TxId>, t: TxId, fees: int)
    requires t in pool && t !in failed && t !in block && FeeKnown(pool, block, failed, t, fees)
    requires forall x :: x in pool ==> pool[x].fee == pool[x].modifiedFee
    requires pool[t].withAncestors.modFees == FeeSum(pool, Low, Package(pool, t, {}))
    ensures fees == FeeSum(pool, Low, Package(pool, t, block))
  {
    hide FeeSum;
    var inside := pool[t].ancestors * block;
    assert Package(pool, t, {}) == Package(pool, t, block) + inside;
    FeeUnion(pool, Low, Package(pool, t, block), inside);
    SameFees(pool, inside);
  }

  lemma {:induction false} SameFees(pool: Pool, s: set<TxId>)
    requires forall x :: x in pool ==> pool[x].fee == pool[x].modifiedFee
    ensures FeeSum(pool, Low, s) == FeeSum(pool, High, s)
    decreases |s|
  {
    if s != {} {
      var x :| x in s;
      ProperSubset(s - {x}, s, x);
      SameFees(pool, s - {x});
      FeeRemove(pool, Low, s, x);
      FeeRemove(pool, High, s, x);
    }
  }

  // ---------------------------------------------------------------- what is left out

  // Records are only dropped with the transactions that are added.
  lemma ReducedKeeps(pool: Pool, modified: Modified, m: Modified, added: set<TxId>)
    requires modified.Keys <= pool.Keys && AllReduced(pool, modified, m, added, added)
    ensures modified.Keys <= m.Keys
  {
    forall d | d in modified ensures d in m {
      assert Reduced(pool, modified, m, added, added, d);
    }
  }

  // Of t and its ancestors outside the block, one is not final, or together they do not fit on top of the block.
  ghost predicate Excluded(pool: Pool, t: TxId, block: set<TxId>, size: int, sigOps: int, maxSize: int, maxSigOps: int)
    requires t in pool
  {
    || HasNonFinal(pool, Package(pool, t, block))
    || size + Sum(pool, Size, Package(pool, t, block)) >= maxSize
    || sigOps + Sum(pool, SigOps, Package(pool, t, block)) >= maxSigOps
  }

  ghost predicate HasNonFinal(pool: Pool, txs: set<TxId>) {
    exists x :: x in txs && x in pool && !pool[x].final
  }

  // Every transaction of txs is in the block, excluded, or still recorded.
  ghost predicate Settled(pool: Pool, txs: set<TxId>, block: set<TxId>, modified: set<TxId>,
                          size: int, sigOps: int, maxSize: int, maxSigOps: int) {
    forall t :: t in txs ==>
      t in pool && (t in block || t in modified || Excluded(pool, t, block, size, sigOps, maxSize, maxSigOps))
  }

  // What the block and the rest of t's package weigh together never shrinks while final transactions are added.
  lemma ExcludedGrows(pool: Pool, t: TxId, block: set<TxId>, added: set<TxId>, size: int, sigOps: int,
                      maxSize: int, maxSigOps: int)
    requires t in pool && added !! block && !HasNonFinal(pool, added)
    requires Excluded(pool, t, block, size, sigOps, maxSize, maxSigOps)
    ensures Excluded(pool, t, block + added, size + Sum(pool, Size, added), sigOps + Sum(pool, SigOps, added), maxSize,
        maxSigOps)
  {
    hide Sum;
    var before, after := Package(pool, t, block), Package(pool, t, block + added);
    if HasNonFinal(pool, before) {
      var x :| x in before && x in pool && !pool[x].final;
      assert x in after;
    }
    PackageShrinks(pool, Size, before, added, after);
    PackageShrinks(pool, SigOps, before, added, after);
  }

  lemma PackageShrinks(pool: Pool, kind: Kind, before: set<TxId>, added: set<TxId>, after: set<TxId>)
    requires after == before - added
    ensures Sum(pool, kind, before) <= Sum(pool, kind, after) + Sum(pool, kind, added)
  {
    hide Sum;
    var both := before * added;
    assert before == after + both && added == both + (added - both);
    SumUnion(pool, kind, after, both);
    SumUnion(pool, kind, both, added - both);
  }

  // A growing block keeps what was settled.
  lemma SettledGrows(pool: Pool, txs: set<TxId>, block: set<TxId>, added: set<TxId>, modified: set<TxId>,
      modified2: set<TxId>,
                     size: int, sigOps: int, maxSize: int, maxSigOps: int)
    requires Settled(pool, txs, block, modified, size, sigOps, maxSize, maxSigOps)
    requires added !! block && !HasNonFinal(pool, added) && modified <= modified2 + block + added
    ensures Settled(pool, txs, block + added, modified2, size + Sum(pool, Size, added),
        sigOps + Sum(pool, SigOps, added),
                    maxSize, maxSigOps)
  {
    hide Excluded, HasNonFinal, Sum;
    forall t | t in txs && t in pool && Excluded(pool, t, block, size, sigOps, maxSize, maxSigOps)
      ensures Excluded(pool, t, block + added, size + Sum(pool, Size, added), sigOps + Sum(pool, SigOps, added),
          maxSize, maxSigOps)
    {
      ExcludedGrows(pool, t, block, added, size, sigOps, maxSize, maxSigOps);
    }
  }

  // A transaction that has just been excluded is settled without its record.
  lemma SettledWithout(pool: Pool, txs: set<TxId>, t: TxId, block: set<TxId>, modified: set<TxId>,
                       size: int, sigOps: int, maxSize: int, maxSigOps: int)
    requires Settled(pool, txs, block, modified, size, sigOps, maxSize, maxSigOps)
    requires t in pool && (t in block || t in modified || Excluded(pool, t, block, size, sigOps, maxSize, maxSigOps))
    ensures Settled(pool, txs + {t}, block, modified, size, sigOps, maxSize, maxSigOps)
    ensures Excluded(pool, t, block, size, sigOps, maxSize, maxSigOps) ==>
      Settled(pool, txs + {t}, block, modified - {t}, size, sigOps, maxSize, maxSigOps)
  {
    hide Excluded;
  }

  // The totals taken for t cover the rest of its package, exactly unless it has failed before.
  ghost predicate CandidateOk(pool: Pool, block: set<TxId>, failed: set<TxId>, t: TxId, totals: Totals)
    requires t in pool
  {
    && (forall kind :: Of(totals, kind) >= Sum(pool, kind, Package(pool, t, block)))
    && (t !in failed ==> forall kind :: Of(totals, kind) == Sum(pool, kind, Package(pool, t, block)))
    && FeeKnown(pool, block, failed, t, totals.modFees)
  }

  // No candidate can be worth less than its fee, whatever is in the block.
  ghost predicate AllWorthIt(pool: Pool, minFee: int -> int) {
    forall block, failed, t, totals :: t in pool && CandidateOk(pool, block, failed, t, totals) ==>
      totals.modFees >= minFee(totals.size)
  }

  // ---------------------------------------------------------------- what is chosen, and why the selection stops

  // A package that was added: the candidate, its totals when it was tested, and its transactions in their order.
  datatype Pick = Pick(t: TxId, totals: Totals, txs: seq<TxId>)

  ghost function Picked(picks: seq<Pick>): seq<TxId> {
    if picks == [] then [] else Picked(picks[..|picks| - 1]) + picks[|picks| - 1].txs
  }

  // The i-th package was worth its fee and consists, in order, of what its candidate still needed.
  ghost predicate PickOk(pool: Pool, minFee: int -> int, block: set<TxId>, picks: seq<Pick>, i: nat)
    requires i < |picks|
  {
    var before := block + Elements(Picked(picks[..i]));
    && picks[i].t in pool && picks[i].t !in before && picks[i].totals.modFees >= minFee(picks[i].totals.size)
    && Elements(picks[i].txs) == Package(pool, picks[i].t, before) && Sorted(pool, picks[i].txs)
    && (forall kind :: Of(picks[i].totals, kind) >= Sum(pool, kind, Package(pool, picks[i].t, before)))
    && !HasNonFinal(pool, Package(pool, picks[i].t, before))
  }

  ghost predicate PicksOk(pool: Pool, minFee: int -> int, block: set<TxId>, picks: seq<Pick>) {
    forall i :: 0 <= i < |picks| ==> PickOk(pool, minFee, block, picks, i)
  }

  lemma PicksNext(pool: Pool, minFee: int -> int, block: set<TxId>, picks: seq<Pick>, p: Pick)
    requires PicksOk(pool, minFee, block, picks)
    requires var before := block + Elements(Picked(picks));
             && p.t in pool && p.t !in before && p.totals.modFees >= minFee(p.totals.size)
             && Elements(p.txs) == Package(pool, p.t, before) && Sorted(pool, p.txs)
             && (forall kind :: Of(p.totals, kind) >= Sum(pool, kind, Package(pool, p.t, before)))
             && !HasNonFinal(pool, Package(pool, p.t, before))
    ensures PicksOk(pool, minFee, block, picks + [p]) && Picked(picks + [p]) == Picked(picks) + p.txs
  {
    hide Elements, Sum, HasNonFinal, Package, Sorted;
    var more := picks + [p];
    assert more[..|picks|] == picks;
    forall i | 0 <= i < |more| ensures PickOk(pool, minFee, block, more, i) {
      assert more[..i] == picks[..i];
      if i < |picks| { assert PickOk(pool, minFee, block, picks, i); } else { assert picks[..i] == picks; }
    }
  }

  lemma PickAdded(pool: Pool, minFee: int -> int, start: set<TxId>, picks: seq<Pick>, p: Pick, block: set<TxId>,
                  failed: set<TxId>)
    requires PicksOk(pool, minFee, start, picks) && block == start + Elements(Picked(picks))
    requires p.t in pool && p.t !in block && p.totals.modFees >= minFee(p.totals.size)
    requires CandidateOk(pool, block, failed, p.t, p.totals) && !HasNonFinal(pool, Package(pool, p.t, block))
    requires Elements(p.txs) == Package(pool, p.t, block) && Sorted(pool, p.txs)
    ensures PicksOk(pool, minFee, start, picks + [p]) && Picked(picks + [p]) == Picked(picks) + p.txs
  {
    hide Elements, Sum, HasNonFinal, Package, Sorted, Picked, PicksOk, FeeKnown;
    PicksNext(pool, minFee, start, picks, p);
  }

  // A candidate that did not fit: the one at a place of the order, or a record.
  datatype Failure = FromOrder(at: nat) | FromRecord(t: TxId)

  ghost predicate NoRepeats(fails: seq<Failure>) {
    forall i, j :: 0 <= i < j < |fails| ==> fails[i] != fails[j]
  }

  // The failures since the last addition: places already passed, and records already dropped.
  ghost predicate FailsOk(pool: Pool, order: seq<TxId>, mi: nat, modified: set<TxId>, fails: seq<Failure>) {
    && NoRepeats(fails)
    && forall i :: 0 <= i < |fails| ==>
         match fails[i] case FromOrder(at) => at < mi && at < |order| case FromRecord(t) => t in pool && t !in modified
  }

  ghost function FailSet(fails: seq<Failure>): set<Failure> {
    set i | 0 <= i < |fails| :: fails[i]
  }

  ghost function Places(n: nat): set<Failure> {
    set i | 0 <= i < n :: FromOrder(i)
  }

  ghost function Records(s: set<TxId>): set<Failure> {
    set t | t in s :: FromRecord(t)
  }

  // So there are not more failures than candidates.
  lemma FailuresFew(pool: Pool, order: seq<TxId>, mi: nat, modified: set<TxId>, fails: seq<Failure>)
    requires FailsOk(pool, order, mi, modified, fails)
    ensures |fails| <= |order| + |pool|
  {
    hide FailSet, Places, Records;
    DistinctSize(fails);
    PlacesSize(|order|);
    RecordsSize(pool.Keys);
    FailuresWithin(pool, order, mi, modified, fails);
    WithinUnion(FailSet(fails), Places(|order|), Records(pool.Keys));
  }

  lemma FailuresWithin(pool: Pool, order: seq<TxId>, mi: nat, modified: set<TxId>, fails: seq<Failure>)
    requires FailsOk(pool, order, mi, modified, fails)
    ensures FailSet(fails) <= Places(|order|) + Records(pool.Keys)
  {
    forall x | x in FailSet(fails) ensures x in Places(|order|) + Records(pool.Keys) {
      var i :| 0 <= i < |fails| && fails[i] == x;
    }
  }

  lemma WithinUnion<T>(a: set<T>, b: set<T>, c: set<T>)
    requires a <= b + c
    ensures |a| <= |b| + |c|
  {
    var all := b + c;
    assert all == a + (all - a);
    assert all == b + (c - b) && c == (c - b) + (c * b);
  }

  lemma {:induction false} DistinctSize(fails: seq<Failure>)
    requires NoRepeats(fails)
    ensures |FailSet(fails)| == |fails|
  {
    if fails != [] {
      var n := |fails| - 1;
      var rest := fails[..n];
      DistinctSize(rest);
      FailSetNext(rest, fails[n]);
      assert fails == rest + [fails[n]];
    }
  }

  lemma FailSetNext(rest: seq<Failure>, f: Failure)
    requires NoRepeats(rest + [f])
    ensures FailSet(rest + [f]) == FailSet(rest) + {f} && f !in FailSet(rest)
  {
    var fails := rest + [f];
    assert fails[|rest|] == f;
    forall x | x in FailSet(rest) ensures x in FailSet(fails) && x != f {
      var i :| 0 <= i < |rest| && rest[i] == x;
      assert fails[i] == x;
    }
  }

  lemma {:induction false} PlacesSize(n: nat)
    ensures |Places(n)| == n
  {
    if n > 0 {
      PlacesSize(n - 1);
      assert Places(n) == Places(n - 1) + {FromOrder(n - 1)};
    }
  }

  lemma {:induction false} RecordsSize(s: set<TxId>)
    ensures |Records(s)| == |s|
    decreases |s|
  {
    if s != {} {
      var x :| x in s;
      ProperSubset(s - {x}, s, x);
      RecordsSize(s - {x});
      assert Records(s) == Records(s - {x}) + {FromRecord(x)};
    }
  }

  // Why the selection stopped.
  datatype Stop = Exhausted | LowFee(t: TxId, totals: Totals) | GaveUp

  class BlockAssembler {
    const nBlockMaxSize: int
    const nMaxBlockSigOps: int
    var vtx: seq<TxId>          // the block after its coinbase
    var inBlock: set<TxId>
    var nBlockSize: int
    var nBlockSigOpsCost: int
    var nBlockTx: nat
    var nFees: int

    // The block is well ordered and the counters are exact; past the coinbase reserve both limits hold.
    ghost predicate Valid(pool: Pool)
      reads this
    {
      && BlockOk(pool, vtx) && inBlock == Elements(vtx) && Closed(pool, inBlock)
      && nBlockSize == COINBASE_SIZE + Sum(pool, Size, inBlock)
      && nBlockSigOpsCost == COINBASE_SIGOPS + Sum(pool, SigOps, inBlock)
      && nBlockTx == |vtx|
      && (vtx != [] ==> nBlockSize < nBlockMaxSize && nBlockSigOpsCost < nMaxBlockSigOps)
    }

    // resetBlock.
    constructor (nBlockMaxSize: int, nMaxBlockSigOps: int)
      ensures forall pool :: Valid(pool)
      ensures vtx == [] && this.nBlockMaxSize == nBlockMaxSize && this.nMaxBlockSigOps == nMaxBlockSigOps
    {
      this.nBlockMaxSize, this.nMaxBlockSigOps := nBlockMaxSize, nMaxBlockSigOps;
      vtx, inBlock := [], {};
      nBlockSize, nBlockSigOpsCost := COINBASE_SIZE, COINBASE_SIGOPS;
      nBlockTx, nFees := 0, 0;
    }

    method TestPackage(totals: Totals) returns (fits: bool)
      ensures fits <==> nBlockSize + totals.size < nBlockMaxSize && nBlockSigOpsCost + totals.sigOps < nMaxBlockSigOps
    {
      if nBlockSize + totals.size >= nBlockMaxSize { return false; }
      if nBlockSigOpsCost + totals.sigOps >= nMaxBlockSigOps { return false; }
      return true;
    }

    method AddToBlock(pool: Pool, t: TxId)
      requires t in pool
      modifies this
      ensures vtx == old(vtx) + [t] && inBlock == old(inBlock) + {t} && nBlockTx == old(nBlockTx) + 1
      ensures nBlockSize == old(nBlockSize) + pool[t].size && nBlockSigOpsCost == old(nBlockSigOpsCost) + pool[t].sigOps
      ensures nFees == old(nFees) + pool[t].fee
    {
      vtx := vtx + [t];
      nBlockSize := nBlockSize + pool[t].size;
      nBlockTx := nBlockTx + 1;
      nBlockSigOpsCost := nBlockSigOpsCost + pool[t].sigOps;
      nFees := nFees + pool[t].fee;
      inBlock := inBlock + {t};
    }

    // The loop that adds a sorted package, erasing its members from the modified set.
    method AddPackage(pool: Pool, t: TxId, sorted: seq<TxId>, modified: Modified) returns (m: Modified)
      requires Exact(pool) && ExactTotals(pool) && Valid(pool) && t in pool
      requires Elements(sorted) == Package(pool, t, inBlock) && Sorted(pool, sorted)
      requires nBlockSize + Sum(pool, Size, Package(pool, t, inBlock)) < nBlockMaxSize
      requires nBlockSigOpsCost + Sum(pool, SigOps, Package(pool, t, inBlock)) < nMaxBlockSigOps
      modifies this
      ensures Valid(pool) && vtx == old(vtx) + sorted && inBlock == old(inBlock) + Package(pool, t, old(inBlock))
      ensures nBlockSize == old(nBlockSize) + Sum(pool, Size, Package(pool, t, old(inBlock)))
      ensures nBlockSigOpsCost == old(nBlockSigOpsCost) + Sum(pool, SigOps, Package(pool, t, old(inBlock)))
      ensures m == modified - Package(pool, t, old(inBlock))
    {
      hide Exact, ExactTotals, BlockOk, Elements, Sum, Closed;
      ghost var block := inBlock;
      m := modified;
      NoElements();
      PrefixAll(sorted);
      for i := 0 to |sorted|
        invariant BlockOk(pool, vtx) && inBlock == Elements(vtx) && nBlockTx == |vtx|
        invariant vtx == old(vtx) + sorted[..i] && inBlock == block + Elements(sorted[..i])
        invariant nBlockSize == COINBASE_SIZE + Sum(pool, Size, inBlock)
        invariant nBlockSigOpsCost == COINBASE_SIGOPS + Sum(pool, SigOps, inBlock)
        invariant m == modified - Elements(sorted[..i])
      {
        PackageOrder(pool, block, t, sorted, i);
        PackageMember(pool, block, t, sorted, i);
        BlockAppend(pool, vtx, sorted[i]);
        ElementsAppend(vtx, sorted[i]);
        ElementsAppend(sorted[..i], sorted[i]);
        assert sorted[..i + 1] == sorted[..i] + [sorted[i]];
        SumAdd(pool, Size, inBlock, sorted[i]);
        SumAdd(pool, SigOps, inBlock, sorted[i]);
        AddToBlock(pool, sorted[i]);
        m := m - {sorted[i]};
      }
      SumUnion(pool, Size, block, Package(pool, t, block));
      SumUnion(pool, SigOps, block, Package(pool, t, block));
      ClosedBlock(pool, vtx);
    }

    // From CalculateMemPoolAncestors to UpdatePackagesForAdded: add the package of t unless one of its members is
    // not final. The recorded totals that TestPackage accepted do not understate the package.
    method TryPackage(pool: Pool, t: TxId, totals: Totals, modified: Modified, ghost failed: set<TxId>)
        returns (added: bool, m: Modified)
      requires Exact(pool) && ExactTotals(pool) && Valid(pool) && t in pool && t !in inBlock
      requires RecordsOk(pool, inBlock, modified, failed) && FeesOk(pool, inBlock, modified, failed)
      requires forall kind :: Of(totals, kind) >= Sum(pool, kind, Package(pool, t, inBlock))
      requires nBlockSize + totals.size < nBlockMaxSize && nBlockSigOpsCost + totals.sigOps < nMaxBlockSigOps
      modifies this
      ensures Valid(pool) && RecordsOk(pool, inBlock, m, failed) && FeesOk(pool, inBlock, m, failed)
      ensures old(vtx) <= vtx
      ensures added ==> Elements(vtx[|old(vtx)|..]) == Package(pool, t, old(inBlock)) && Sorted(pool, vtx[|old(vtx)|..])
      ensures added ==> inBlock == old(inBlock) + Package(pool, t, old(inBlock)) && modified.Keys <= m.Keys + inBlock
      ensures added ==> nBlockSize == old(nBlockSize) + Sum(pool, Size, Package(pool, t, old(inBlock)))
      ensures added ==> nBlockSigOpsCost == old(nBlockSigOpsCost) + Sum(pool, SigOps, Package(pool, t, old(inBlock)))
      ensures added <==> !HasNonFinal(pool, Package(pool, t, old(inBlock)))
      ensures !added ==> unchanged(this) && m == modified
    {
      hide Exact, ExactTotals, BlockOk, Elements, Sum, RecordsOk, AllReduced, FeesOk, Sorted;
      ghost var block := inBlock;
      var ancestors := CalculateMemPoolAncestors(pool, t);
      ancestors := ancestors - inBlock;   // onlyUnconfirmed
      ancestors := ancestors + {t};
      assert ancestors == Package(pool, t, block);
      PackageInPool(pool, t, block);
      if exists x :: x in ancestors && !pool[x].final { return false, modified; }
      var sorted := SortForBlock(pool, ancestors);
      assert Of(totals, Size) >= Sum(pool, Size, ancestors) && Of(totals, SigOps) >= Sum(pool, SigOps, ancestors);
      m := AddPackage(pool, t, sorted, modified);
      RecordKeys(pool, block, modified, failed);
      ghost var erased := m;
      m := UpdatePackagesForAdded(pool, ancestors, m);
      RecordsAfterAdding(pool, block, t, modified, m, failed);
      FeesAfterAdding(pool, block, t, modified, m, failed);
      assert vtx[|old(vtx)|..] == sorted;
      ReducedKeeps(pool, erased, m, ancestors);
      added := true;
    }

    // The next candidate: a modified record when it is better, or when the order is used up.
    method Choose(pool: Pool, order: seq<TxId>, mi: nat, modified: Modified,
                  better: (TxId, Totals, TxId, Totals) -> bool)
        returns (iter: TxId, usingModified: bool)
      requires mi <= |order| && (mi < |order| || modified != map[])
      requires forall i :: 0 <= i < |order| ==> order[i] in pool
      ensures usingModified ==> iter in modified
      ensures !usingModified ==> mi < |order| && iter == order[mi]
      ensures usingModified && mi < |order| ==>
        better(iter, modified[iter], order[mi], pool[order[mi]].withAncestors)
      ensures !usingModified && modified != map[] ==>
        exists d :: d in modified && !better(d, modified[d], iter, pool[iter].withAncestors)
    {
      usingModified := false;
      if mi == |order| {
        iter :| iter in modified;
        usingModified := true;
      } else {
        iter := order[mi];
        if modified != map[] {
          var best :| best in modified;
          if better(best, modified[best], iter, pool[iter].withAncestors) {
            iter := best;
            usingModified := true;
          }
        }
      }
    }

    // The candidates among txs are settled.
    ghost predicate Done(pool: Pool, txs: set<TxId>, modified: set<TxId>)
      reads this
    {
      Settled(pool, txs, inBlock, modified, nBlockSize, nBlockSigOpsCost, nBlockMaxSize, nMaxBlockSigOps)
    }

    // All seen are settled, and the first mi of the order and those that failed have been seen, but for a candidate
    // that is being considered.
    ghost predicate Going(pool: Pool, order: seq<TxId>, mi: nat, modified: Modified, failed: set<TxId>, seen: set<TxId>,
                          considered: set<TxId>)
      reads this
    {
      && Valid(pool) && RecordsOk(pool, inBlock, modified, failed) && FeesOk(pool, inBlock, modified, failed)
      && Done(pool, seen, modified.Keys) && Done(pool, failed, {})
      && mi <= |order| && Elements(order[..mi]) + failed <= seen + considered
    }

    // From TestPackage on: candidate t is added with its package, or left out and, if its record was used, marked as
    // failed. Either way it is settled.
    method Consider(pool: Pool, ghost order: seq<TxId>, ghost mi: nat, t: TxId, totals: Totals, usingModified: bool,
                    modified: Modified, failed: set<TxId>, ghost seen: set<TxId>)
        returns (fits: bool, added: bool, m: Modified, f: set<TxId>)
      requires Exact(pool) && ExactTotals(pool) && t in pool && t !in inBlock && (usingModified ==> t in modified)
      requires Going(pool, order, mi, modified, failed, seen, {t}) && CandidateOk(pool, inBlock, failed, t, totals)
      modifies this
      ensures Going(pool, order, mi, m, f, seen + {t}, {}) && old(vtx) <= vtx
      ensures fits <==>
        old(nBlockSize) + totals.size < nBlockMaxSize && old(nBlockSigOpsCost) + totals.sigOps < nMaxBlockSigOps
      ensures added <==> fits && !HasNonFinal(pool, Package(pool, t, old(inBlock)))
      ensures added ==> inBlock == old(inBlock) + Package(pool, t, old(inBlock)) && f == failed
      ensures added ==> Elements(vtx[|old(vtx)|..]) == Package(pool, t, old(inBlock)) && Sorted(pool, vtx[|old(vtx)|..])
      ensures added ==> |pool.Keys - inBlock| < |pool.Keys - old(inBlock)|
      ensures !added ==> unchanged(this) && m == if usingModified then modified - {t} else modified
      ensures !added ==> Excluded(pool, t, inBlock, nBlockSize, nBlockSigOpsCost, nBlockMaxSize, nMaxBlockSigOps)
      ensures !added && usingModified ==> |m| < |modified|
    {
      hide Exact, ExactTotals, BlockOk, Elements, Sum, RecordsOk, AllReduced, Settled, Excluded, HasNonFinal, FeesOk,
           FeeKnown, Sorted, Package, Closed, BlockAssembler.Valid;
      m, f := modified, failed;
      ghost var block, size, sigOps := inBlock, nBlockSize, nBlockSigOpsCost;
      fits := TestPackage(totals);
      if fits {
        added, m := TryPackage(pool, t, totals, modified, failed);
        if added {
          PackageSettled(pool, t, block, inBlock, seen, failed, modified.Keys, m.Keys, size, sigOps,
                         nBlockSize, nBlockSigOpsCost, nBlockMaxSize, nMaxBlockSigOps);
          return;
        }
        NotFinal(pool, t);
      } else {
        added := false;
        TooLarge(pool, t, totals, failed);
      }
      Failing(pool, t, modified.Keys, seen);
      if usingModified {
        FailedRecord(pool, inBlock, modified, failed, t);
        FailedFees(pool, inBlock, modified, failed, t);
        Failing(pool, t, {}, failed);
        m := modified - {t};
        f := failed + {t};
      }
    }

    // The selection so far: since it began with the transactions txs, whose ids are start, the packages of picks were
    // added, and since the last of them the candidates of fails did not fit.
    ghost predicate Progress(pool: Pool, order: seq<TxId>, minFee: int -> int, start: set<TxId>, txs: seq<TxId>,
                             mi: nat, modified: Modified, failed: set<TxId>, seen: set<TxId>, picks: seq<Pick>,
                             fails: seq<Failure>)
      reads this
    {
      && Going(pool, order, mi, modified, failed, seen, {})
      && vtx == txs + Picked(picks) && inBlock == start + Elements(Picked(picks))
      && PicksOk(pool, minFee, start, picks) && Failures(pool, order, mi, modified.Keys, fails)
    }

    // Close to a full block, and no addition for a while.
    predicate TooManyFailures(failures: nat)
      reads this
    {
      failures > MAX_CONSECUTIVE_FAILURES && nBlockSize > nBlockMaxSize - 1000
    }

    // One candidate that is worth its fee: a package more, or one that does not fit more, or a non-final one.
    method Settle(pool: Pool, order: seq<TxId>, ghost minFee: int -> int, iter: TxId, totals: Totals,
                  usingModified: bool, mi: nat, modified: Modified, failed: set<TxId>, ghost seen: set<TxId>,
                  ghost picks: seq<Pick>, ghost fails: seq<Failure>, ghost start: set<TxId>, ghost txs: seq<TxId>)
        returns (fits: bool, added: bool, next: nat, m: Modified, f: set<TxId>, ghost picks2: seq<Pick>,
                 ghost fails2: seq<Failure>)
      requires Exact(pool) && ExactTotals(pool) && Chosen(pool, order, mi, modified, failed, iter, usingModified)
      requires totals == if usingModified then modified[iter] else pool[iter].withAncestors
      requires totals.modFees >= minFee(totals.size) && !TooManyFailures(|fails|)
      requires Progress(pool, order, minFee, start, txs, mi, modified, failed, seen, picks, fails)
      modifies this
      ensures Progress(pool, order, minFee, start, txs, next, m, f, seen + {iter}, picks2, fails2)
      ensures next == if usingModified then mi else mi + 1
      ensures |fails2| == if added then 0 else if fits then |fails| else |fails| + 1
      ensures added ==> fits && |pool.Keys - inBlock| < |pool.Keys - old(inBlock)|
      ensures !added ==> inBlock == old(inBlock)
      ensures fits ==> !TooManyFailures(|fails2|)
      ensures !added ==> if usingModified then |m| < |modified| else m == modified
    {
      hide Exact, ExactTotals, Elements, Sum, RecordsOk, AllReduced, Package, Closed, FeesOk, PicksOk, FailsOk, Picked,
           Excluded, CandidateOk, Sorted, HasNonFinal, BlockAssembler.Valid, BlockAssembler.Done, BlockAssembler.Going,
           BlockAssembler.Failures;
      Candidate(pool, order, mi, modified, failed, seen, iter, usingModified);
      next := if usingModified then mi else mi + 1;
      fits, added, m, f := Consider(pool, order, next, iter, totals, usingModified, modified, failed, seen);
      if added {
        ghost var p := Pick(iter, totals, vtx[|old(vtx)|..]);
        PickAdded(pool, minFee, start, picks, p, old(inBlock), failed);
        Grown(old(vtx), vtx, txs, picks, p, start, inBlock);
        picks2, fails2 := picks + [p], [];
        NoFailures(pool, order, next, m.Keys);
      } else {
        picks2, fails2 := picks, fails;
        FailuresLater(pool, order, mi, next, modified.Keys, m.Keys, fails);
        if !fits {
          ghost var fail := if usingModified then FromRecord(iter) else FromOrder(mi);
          FailuresNext(pool, order, mi, next, modified.Keys, m.Keys, fails, fail, iter);
          fails2 := fails + [fail];
        }
      }
    }

    // Greedy selection. `order` is the pool's ancestor-score index; `better` compares a modified entry with a pool
    // entry; which modified entry counts as best is left open, so what follows holds for every choice. The block
    // grows by packages that are worth their fee. The selection stops at a candidate that is not; or, close to a full
    // block, after more than a thousand candidates in a row that do not fit; or when no candidate is left, and then
    // every one left out has a non-final transaction in its package or would not fit with its ancestors that are not
    // in the block.
    method AddPackageTxs(pool: Pool, order: seq<TxId>, minFee: int -> int,
                         better: (TxId, Totals, TxId, Totals) -> bool)
        returns (stop: Stop, ghost picks: seq<Pick>, ghost fails: seq<Failure>, ghost failed: set<TxId>)
      requires Exact(pool) && ExactTotals(pool) && Valid(pool)
      requires forall i :: 0 <= i < |order| ==> order[i] in pool
      modifies this
      ensures Valid(pool) && vtx == old(vtx) + Picked(picks) && PicksOk(pool, minFee, old(inBlock), picks)
      ensures Done(pool, failed, {})
      ensures stop.Exhausted? ==> Done(pool, Elements(order), {})
      ensures stop.LowFee? ==>
        && stop.t in pool && stop.t !in inBlock && CandidateOk(pool, inBlock, failed, stop.t, stop.totals)
        && stop.totals.modFees < minFee(stop.totals.size)
      ensures stop.GaveUp? ==> GivenUp(pool, order, fails)
      ensures AllWorthIt(pool, minFee) && |order| + |pool| <= MAX_CONSECUTIVE_FAILURES ==> stop.Exhausted?
      ensures stop.GaveUp? <==> |fails| > MAX_CONSECUTIVE_FAILURES && nBlockSize > nBlockMaxSize - 1000
    {
      hide Exact, ExactTotals, Elements, AllReduced, Closed, PicksOk, Picked, CandidateOk, AllWorthIt,
           BlockAssembler.Valid, BlockAssembler.Done, BlockAssembler.Progress, BlockAssembler.GivenUp,
           BlockAssembler.TooManyFailures;
      var failedTx: set<TxId> := {};
      ClosedSoFar(pool, this);
      var modified := UpdatePackagesForAdded(pool, inBlock, map[]);
      var mi := 0;
      var nConsecutiveFailed := 0;
      ghost var seen: set<TxId> := {};
      picks, fails := [], [];
      Starting(pool, order, minFee, modified);
      while mi < |order| || modified != map[]
        invariant Progress(pool, order, minFee, old(inBlock), old(vtx), mi, modified, failedTx, seen, picks, fails)
        invariant 0 <= mi <= |order| && nConsecutiveFailed == |fails| && !TooManyFailures(nConsecutiveFailed)
        decreases |pool.Keys - inBlock|, |order| - mi + |modified|
      {
        if mi < |order| && (order[mi] in modified || order[mi] in inBlock || order[mi] in failedTx) {
          Skipped(pool, order, minFee, old(inBlock), old(vtx), mi, modified, failedTx, seen, picks, fails);
          seen := seen + {order[mi]};
          mi := mi + 1;
          continue;
        }
        var iter, usingModified := Choose(pool, order, mi, modified, better);
        Known(pool, order, minFee, old(inBlock), old(vtx), mi, modified, failedTx, seen, picks, fails, iter,
              usingModified);
        var totals := if usingModified then modified[iter] else pool[iter].withAncestors;
        if totals.modFees < minFee(totals.size) {
          return LowFee(iter, totals), picks, fails, failedTx;
        }
        var fits, added;
        ghost var seenToo := seen + {iter};
        fits, added, mi, modified, failedTx, picks, fails :=
          Settle(pool, order, minFee, iter, totals, usingModified, mi, modified, failedTx, seen, picks, fails,
                 old(inBlock), old(vtx));
        seen := seenToo;
        if !fits {
          nConsecutiveFailed := nConsecutiveFailed + 1;
          if TooManyFailures(nConsecutiveFailed) {
            ManyFailures(pool, order, minFee, old(inBlock), old(vtx), mi, modified, failedTx, seen, picks, fails);
            return GaveUp, picks, fails, failedTx;
          }
        } else if added {
          nConsecutiveFailed := 0;
        }
      }
      stop, failed := Exhausted, failedTx;
      AllSeen(pool, order, minFee, old(inBlock), old(vtx), mi, modified, failedTx, seen, picks, fails);
    }

    // A skipped candidate is settled: it is in the block, recorded, or failed before.
    lemma Skipped(pool: Pool, order: seq<TxId>, minFee: int -> int, start: set<TxId>, txs: seq<TxId>, mi: nat,
                  modified: Modified, failed: set<TxId>, seen: set<TxId>, picks: seq<Pick>, fails: seq<Failure>)
      requires mi < |order| && order[mi] in pool
      requires order[mi] in modified || order[mi] in inBlock || order[mi] in failed
      requires Progress(pool, order, minFee, start, txs, mi, modified, failed, seen, picks, fails)
      ensures Progress(pool, order, minFee, start, txs, mi + 1, modified, failed, seen + {order[mi]}, picks, fails)
    {
      hide Elements, Excluded, PicksOk, FailsOk, BlockAssembler.Failures;
      ElementsNext(order, mi);
      FailuresLater(pool, order, mi, mi + 1, modified.Keys, modified.Keys, fails);
    }

    lemma Starting(pool: Pool, order: seq<TxId>, minFee: int -> int, modified: Modified)
      requires ExactTotals(pool) && Valid(pool) && AllReduced(pool, map[], modified, inBlock, inBlock)
      ensures Progress(pool, order, minFee, inBlock, vtx, 0, modified, {}, {}, [], []) && !TooManyFailures(0)
    {
      hide Elements, Excluded, RecordsOk, AllReduced, ExactTotals, FeesOk, PicksOk, BlockAssembler.Failures;
      NothingPicked(pool, minFee, inBlock);
      NoFailures(pool, order, 0, modified.Keys);
      InitialRecords(pool, inBlock, modified);
      InitialFees(pool, inBlock, modified);
      NoElements();
      assert order[..0] == [];
    }

    // The candidate that Choose returns, after the skipping.
    ghost predicate Chosen(pool: Pool, order: seq<TxId>, mi: nat, modified: Modified, failed: set<TxId>, iter: TxId,
                           usingModified: bool)
      reads this
    {
      if usingModified then iter in modified else
      && mi < |order| && iter == order[mi] && iter in pool
      && iter !in modified && iter !in inBlock && iter !in failed
    }

    // What is known of that candidate.
    lemma Candidate(pool: Pool, order: seq<TxId>, mi: nat, modified: Modified, failed: set<TxId>, seen: set<TxId>,
                    iter: TxId, usingModified: bool)
      requires ExactTotals(pool) && Going(pool, order, mi, modified, failed, seen, {})
      requires Chosen(pool, order, mi, modified, failed, iter, usingModified)
      ensures Valid(pool) && iter in pool && iter !in inBlock
      ensures CandidateOk(pool, inBlock, failed, iter, if usingModified then modified[iter]
          else pool[iter].withAncestors)
      ensures Going(pool, order, if usingModified then mi else mi + 1, modified, failed, seen, {iter})
    {
      hide Elements, Settled, RecordsOk, ExactTotals, FeeKnown;
      RecordFacts(pool, inBlock, modified, failed, iter, usingModified);
      if !usingModified { ElementsNext(order, mi); }
    }

    lemma Known(pool: Pool, order: seq<TxId>, minFee: int -> int, start: set<TxId>, txs: seq<TxId>, mi: nat,
                modified: Modified, failed: set<TxId>, seen: set<TxId>, picks: seq<Pick>, fails: seq<Failure>,
                iter: TxId, usingModified: bool)
      requires ExactTotals(pool) && Progress(pool, order, minFee, start, txs, mi, modified, failed, seen, picks, fails)
      requires Chosen(pool, order, mi, modified, failed, iter, usingModified)
      ensures iter in pool && iter !in inBlock
      ensures CandidateOk(pool, inBlock, failed, iter, if usingModified then modified[iter]
          else pool[iter].withAncestors)
      ensures Valid(pool) && Done(pool, failed, {})
      ensures AllWorthIt(pool, minFee) ==>
        var totals := if usingModified then modified[iter] else pool[iter].withAncestors;
        totals.modFees >= minFee(totals.size)
      ensures vtx == txs + Picked(picks) && PicksOk(pool, minFee, start, picks)
      ensures TooManyFailures(|fails|) <==> |fails| > MAX_CONSECUTIVE_FAILURES && nBlockSize > nBlockMaxSize - 1000
    {
      hide Elements, Settled, RecordsOk, ExactTotals, FeeKnown, PicksOk, BlockAssembler.Failures, CandidateOk,
           BlockAssembler.Valid;
      Candidate(pool, order, mi, modified, failed, seen, iter, usingModified);
    }

    lemma AllSeen(pool: Pool, order: seq<TxId>, minFee: int -> int, start: set<TxId>, txs: seq<TxId>, mi: nat,
                  modified: Modified, failed: set<TxId>, seen: set<TxId>, picks: seq<Pick>, fails: seq<Failure>)
      requires Progress(pool, order, minFee, start, txs, mi, modified, failed, seen, picks, fails)
      requires mi == |order| && modified == map[]
      ensures Valid(pool) && Done(pool, failed, {}) && Done(pool, Elements(order), {})
      ensures vtx == txs + Picked(picks) && PicksOk(pool, minFee, start, picks)
      ensures TooManyFailures(|fails|) <==> |fails| > MAX_CONSECUTIVE_FAILURES && nBlockSize > nBlockMaxSize - 1000
    {
      hide PicksOk, BlockAssembler.Failures, Excluded;
      assert modified.Keys == {};
      assert order[..mi] == order;
    }

    // ---- failures since the last addition

    ghost predicate TooLargeNow(pool: Pool, order: seq<TxId>, f: Failure)
      reads this
    {
      var t := if f.FromRecord? then f.t else if f.at < |order| then order[f.at] else TxId(0);
      && (f.FromOrder? ==> f.at < |order|)
      && t in pool && Excluded(pool, t, inBlock, nBlockSize, nBlockSigOpsCost, nBlockMaxSize, nMaxBlockSigOps)
    }

    ghost predicate Failures(pool: Pool, order: seq<TxId>, mi: nat, modified: set<TxId>, fails: seq<Failure>)
      reads this
    {
      FailsOk(pool, order, mi, modified, fails) && forall i :: 0 <= i < |fails| ==> TooLargeNow(pool, order, fails[i])
    }

    // More than a thousand different candidates do not fit.
    ghost predicate GivenUp(pool: Pool, order: seq<TxId>, fails: seq<Failure>)
      reads this
    {
      && |fails| > MAX_CONSECUTIVE_FAILURES && NoRepeats(fails)
      && forall i :: 0 <= i < |fails| ==> TooLargeNow(pool, order, fails[i])
    }

    lemma NoFailures(pool: Pool, order: seq<TxId>, mi: nat, modified: set<TxId>)
      ensures Failures(pool, order, mi, modified, [])
    {}

    lemma ManyFailures(pool: Pool, order: seq<TxId>, minFee: int -> int, start: set<TxId>, txs: seq<TxId>, mi: nat,
                       modified: Modified, failed: set<TxId>, seen: set<TxId>, picks: seq<Pick>, fails: seq<Failure>)
      requires Progress(pool, order, minFee, start, txs, mi, modified, failed, seen, picks, fails)
      requires TooManyFailures(|fails|)
      ensures Valid(pool) && Done(pool, failed, {})
      ensures GivenUp(pool, order, fails) && |order| + |pool| > MAX_CONSECUTIVE_FAILURES
      ensures vtx == txs + Picked(picks) && PicksOk(pool, minFee, start, picks)
      ensures TooManyFailures(|fails|) <==> |fails| > MAX_CONSECUTIVE_FAILURES && nBlockSize > nBlockMaxSize - 1000
    {
      hide Excluded, BlockAssembler.TooLargeNow, PicksOk, BlockAssembler.Valid, RecordsOk, Settled;
      FailuresFew(pool, order, mi, modified.Keys, fails);
    }

    lemma FailuresLater(pool: Pool, order: seq<TxId>, mi: nat, mi2: nat, modified: set<TxId>, modified2: set<TxId>,
                        fails: seq<Failure>)
      requires Failures(pool, order, mi, modified, fails) && mi <= mi2 && modified2 <= modified
      ensures Failures(pool, order, mi2, modified2, fails)
    {
      hide Excluded;
    }

    lemma FailuresNext(pool: Pool, order: seq<TxId>, mi: nat, mi2: nat, modified: set<TxId>, modified2: set<TxId>,
                       fails: seq<Failure>, f: Failure, t: TxId)
      requires Failures(pool, order, mi, modified, fails) && Failures(pool, order, mi2, modified2, fails)
      requires t in pool && Excluded(pool, t, inBlock, nBlockSize, nBlockSigOpsCost, nBlockMaxSize, nMaxBlockSigOps)
      requires f.FromRecord? ==> f.t == t && t in modified && t !in modified2
      requires f.FromOrder? ==> f.at == mi < mi2 && mi < |order| && order[mi] == t
      ensures Failures(pool, order, mi2, modified2, fails + [f])
    {
      hide Excluded;
    }

    // A candidate that does not pass the test is excluded: its totals are exact, or it has failed before.
    lemma TooLarge(pool: Pool, t: TxId, totals: Totals, failed: set<TxId>)
      requires t in pool && t !in inBlock && Done(pool, failed, {})
      requires t !in failed ==> forall kind :: Of(totals, kind) == Sum(pool, kind, Package(pool, t, inBlock))
      requires nBlockSize + totals.size >= nBlockMaxSize || nBlockSigOpsCost + totals.sigOps >= nMaxBlockSigOps
      ensures Excluded(pool, t, inBlock, nBlockSize, nBlockSigOpsCost, nBlockMaxSize, nMaxBlockSigOps)
    {
      if t !in failed {
        assert Of(totals, Size) == Sum(pool, Size, Package(pool, t, inBlock));
        assert Of(totals, SigOps) == Sum(pool, SigOps, Package(pool, t, inBlock));
      }
    }

    lemma NotFinal(pool: Pool, t: TxId)
      requires t in pool && HasNonFinal(pool, Package(pool, t, inBlock))
      ensures Excluded(pool, t, inBlock, nBlockSize, nBlockSigOpsCost, nBlockMaxSize, nMaxBlockSigOps)
    {}

    lemma Failing(pool: Pool, t: TxId, modified: set<TxId>, seen: set<TxId>)
      requires t in pool && Excluded(pool, t, inBlock, nBlockSize, nBlockSigOpsCost, nBlockMaxSize, nMaxBlockSigOps)
      requires Done(pool, seen, modified)
      ensures Done(pool, seen + {t}, modified) && Done(pool, seen + {t}, modified - {t})
    {
      hide Excluded;
      SettledWithout(pool, seen, t, inBlock, modified, nBlockSize, nBlockSigOpsCost, nBlockMaxSize, nMaxBlockSigOps);
    }
  }

  // Adding the final package of t settles t, keeps what was settled, and leaves less to do.
  lemma PackageSettled(pool: Pool, t: TxId, block: set<TxId>, block2: set<TxId>, seen: set<TxId>, failed: set<TxId>,
                       modified: set<TxId>, modified2: set<TxId>, size: int, sigOps: int, size2: int, sigOps2: int,
                       maxSize: int, maxSigOps: int)
    requires t in pool && t !in block && !HasNonFinal(pool, Package(pool, t, block))
    requires block2 == block + Package(pool, t, block)
    requires size2 == size + Sum(pool, Size, Package(pool, t, block))
    requires sigOps2 == sigOps + Sum(pool, SigOps, Package(pool, t, block))
    requires Settled(pool, seen, block, modified, size, sigOps, maxSize, maxSigOps)
    requires Settled(pool, failed, block, {}, size, sigOps, maxSize, maxSigOps)
    requires modified <= modified2 + block2
    ensures Settled(pool, seen + {t}, block2, modified2, size2, sigOps2, maxSize, maxSigOps)
    ensures Settled(pool, failed, block2, {}, size2, sigOps2, maxSize, maxSigOps)
    ensures |pool.Keys - block2| < |pool.Keys - block|
  {
    hide Settled, Excluded, HasNonFinal, Sum;
    var package := Package(pool, t, block);
    SettledGrows(pool, seen, block, package, modified, modified2, size, sigOps, maxSize, maxSigOps);
    SettledGrows(pool, failed, block, package, {}, {}, size, sigOps, maxSize, maxSigOps);
    SettledWithout(pool, seen, t, block2, modified2, size2, sigOps2, maxSize, maxSigOps);
    LessToDo(pool, block, block2, t);
  }

  lemma NothingPicked(pool: Pool, minFee: int -> int, block: set<TxId>)
    ensures Picked([]) == [] && PicksOk(pool, minFee, block, []) && Elements([]) == {}
  {}

  // The block after a pick.
  lemma Grown(before: seq<TxId>, vtx: seq<TxId>, start: seq<TxId>, picks: seq<Pick>, p: Pick, block: set<TxId>,
              inBlock: set<TxId>)
    requires before <= vtx && before == start + Picked(picks) && p.txs == vtx[|before|..]
    requires Picked(picks + [p]) == Picked(picks) + p.txs
    requires inBlock == block + Elements(Picked(picks)) + Elements(p.txs)
    ensures vtx == start + Picked(picks + [p]) && inBlock == block + Elements(Picked(picks + [p]))
  {
    hide Picked;
    assert vtx == before + vtx[|before|..];
    ElementsJoin(Picked(picks), p.txs);
  }

  lemma ElementsJoin(a: seq<TxId>, b: seq<TxId>)
    ensures Elements(a + b) == Elements(a) + Elements(b)
  {
    forall t | t in Elements(a) + Elements(b) ensures t in Elements(a + b) {
      if t in Elements(a) {
        var i :| 0 <= i < |a| && a[i] == t;
        assert (a + b)[i] == t;
      } else {
        var i :| 0 <= i < |b| && b[i] == t;
        assert (a + b)[|a| + i] == t;
      }
    }
  }

  lemma ClosedSoFar(pool: Pool, a: BlockAssembler)
    requires a.Valid(pool)
    ensures Closed(pool, a.inBlock) && a.inBlock <= pool.Keys
  {}

  lemma ElementsNext(order: seq<TxId>, i: nat)
    requires i < |order|
    ensures Elements(order[..i + 1]) == Elements(order[..i]) + {order[i]}
  {
    ElementsAppend(order[..i], order[i]);
    assert order[..i + 1] == order[..i] + [order[i]];
  }

  lemma PackageInPool(pool: Pool, t: TxId, block: set<TxId>)
    requires Exact(pool) && t in pool
    ensures Package(pool, t, block) <= pool.Keys
  {}

  lemma RecordKeys(pool: Pool, block: set<TxId>, modified: Modified, failed: set<TxId>)
    requires RecordsOk(pool, block, modified, failed)
    ensures modified.Keys <= pool.Keys && modified.Keys !! block
  {}

  // At the start every transaction with an ancestor in the block has an exact record.
  lemma InitialRecords(pool: Pool, block: set<TxId>, m: Modified)
    requires ExactTotals(pool) && Closed(pool, block) && AllReduced(pool, map[], m, block, block)
    ensures RecordsOk(pool, block, m, {})
  {
    forall d, kind | d in m ensures d !in block && Of(m[d], kind) == Sum(pool, kind, Package(pool, d, block)) {
      assert Reduced(pool, map[], m, block, block, d);
      var inside := pool[d].ancestors * block;
      assert Package(pool, d, {}) == Package(pool, d, block) + inside;
      SumUnion(pool, kind, Package(pool, d, block), inside);
    }
    forall d | d in m ensures d !in block { assert Reduced(pool, map[], m, block, block, d); }
    forall d | d in pool && d !in block && pool[d].ancestors * block != {} ensures d in m {
      assert Reduced(pool, map[], m, block, block, d);
    }
  }

  // The transaction about to be considered is not in the block, and its recorded totals cover its package, exactly
  // unless it has failed. A pool entry that was not skipped has no ancestor in the block, so its cached totals are
  // exact.
  lemma RecordFacts(pool: Pool, block: set<TxId>, modified: Modified, failed: set<TxId>, t: TxId, usingModified: bool)
    requires ExactTotals(pool) && RecordsOk(pool, block, modified, failed)
    requires if usingModified then t in modified else t in pool && t !in modified && t !in block && t !in failed
    ensures t in pool && t !in block
    ensures forall kind :: Of(if usingModified then modified[t] else pool[t].withAncestors, kind) >= Sum(pool, kind,
        Package(pool, t, block))
    ensures t !in failed ==>
      forall kind :: Of(if usingModified then modified[t] else pool[t].withAncestors, kind) == Sum(pool, kind,
          Package(pool, t, block))
    ensures !usingModified ==> FeeKnown(pool, block, failed, t, pool[t].withAncestors.modFees)
  {
    hide FeeSum;
    if usingModified {
      assert t in modified.Keys;
    } else {
      NoFees(pool);
      assert pool[t].ancestors * block == {};
      assert Package(pool, t, block) == Package(pool, t, {});
    }
  }

  lemma FailedRecord(pool: Pool, block: set<TxId>, modified: Modified, failed: set<TxId>, t: TxId)
    requires RecordsOk(pool, block, modified, failed) && t in modified
    ensures RecordsOk(pool, block, modified - {t}, failed + {t}) && |modified - {t}| < |modified|
  {
    assert (modified - {t}).Keys == modified.Keys - {t};
    ProperSubset(modified.Keys - {t}, modified.Keys, t);
  }

  lemma LessToDo(pool: Pool, block: set<TxId>, block2: set<TxId>, t: TxId)
    requires t in pool && t !in block && block2 == block + Package(pool, t, block)
    ensures |pool.Keys - block2| < |pool.Keys - block|
  {
    ProperSubset(pool.Keys - block2, pool.Keys - block, t);
  }

  lemma PrefixAll(sorted: seq<TxId>)
    ensures sorted[..0] == [] && sorted[..|sorted|] == sorted
  {}

  // Member i of a sorted package is in neither the block nor the part of the package before it.
  lemma PackageMember(pool: Pool, block: set<TxId>, t: TxId, sorted: seq<TxId>, i: nat)
    requires t in pool && Elements(sorted) == Package(pool, t, block) && Sorted(pool, sorted) && i < |sorted|
    ensures sorted[i] in pool && sorted[i] !in block && sorted[i] !in Elements(sorted[..i])
  {
    assert sorted[i] in Elements(sorted);
  }

  lemma BlockAppend(pool: Pool, vtx: seq<TxId>, t: TxId)
    requires BlockOk(pool, vtx) && t in pool && t !in Elements(vtx) && pool[t].ancestors <= Elements(vtx)
    ensures BlockOk(pool, vtx + [t])
  {
    var v := vtx + [t];
    forall i | 0 <= i < |v| ensures v[i] in pool && v[i] !in Elements(v[..i])
        && pool[v[i]].ancestors <= Elements(v[..i]) {
      assert v[..i] == vtx[..i];
      if i == |vtx| { assert vtx[..i] == vtx; }
    }
  }

  lemma ClosedBlock(pool: Pool, vtx: seq<TxId>)
    requires BlockOk(pool, vtx)
    ensures Closed(pool, Elements(vtx))
  {
    forall t | t in Elements(vtx) ensures t in pool && pool[t].ancestors <= Elements(vtx) { BlockClosed(pool, vtx, t); }
  }
}
