/** The memory pool as the block assembler sees it: a graph of transactions with exact ancestor sets. */
module MinerPool {
  import opened Numbers

  datatype TxId = TxId(n: nat)

  // What the pool caches about an entry together with its ancestors, and what the assembler keeps for modified entries.
  datatype Totals = Totals(size: int, modFees: int, sigOps: int)

  // A pool entry. `parents` are its in-pool parents, `ancestors` its in-pool ancestors; count and totals include
  // itself.
  datatype Tx = Tx(
    size: nat, sigOps: nat, fee: int, modifiedFee: int, final: bool,
    parents: set<TxId>, ancestors: set<TxId>, countWithAncestors: int, withAncestors: Totals)

  type Pool = map<TxId, Tx>

  // a is a parent of t or an ancestor of one.
  ghost predicate ViaParent(pool: Pool, t: TxId, a: TxId)
    requires t in pool
  {
    a in pool[t].parents || exists p :: p in pool[t].parents && p in pool && a in pool[p].ancestors
  }

  // Ancestor data is exact: it is the closure of the parent relation, which has no cycle.
  ghost predicate Exact(pool: Pool) {
    forall t :: t in pool ==>
      && pool[t].parents <= pool.Keys && pool[t].ancestors <= pool.Keys && t !in pool[t].ancestors
      && (forall a :: a in pool[t].ancestors <==> ViaParent(pool, t, a))
  }

  lemma ProperSubset<T>(a: set<T>, b: set<T>, x: T)
    requires a <= b && x in b && x !in a
    ensures |a| < |b|
  {
    assert b == a + (b - a);
    assert x in b - a;
  }

  // Ancestors of ancestors are ancestors.
  lemma {:induction false} Transitive(pool: Pool, t: TxId, a: TxId)
    requires Exact(pool) && t in pool && a in pool[t].ancestors
    ensures a in pool && pool[a].ancestors <= pool[t].ancestors
    decreases |pool[t].ancestors|
  {
    assert ViaParent(pool, t, a);
    if a in pool[t].parents {
      forall x | x in pool[a].ancestors ensures x in pool[t].ancestors { assert ViaParent(pool, t, x); }
    } else {
      var p :| p in pool[t].parents && p in pool && a in pool[p].ancestors;
      assert ViaParent(pool, t, p);
      forall x | x in pool[p].ancestors ensures x in pool[t].ancestors { assert ViaParent(pool, t, x); }
      ProperSubset(pool[p].ancestors, pool[t].ancestors, p);
      Transitive(pool, p, a);
    }
  }

  // An ancestor has strictly fewer ancestors.
  lemma FewerAncestors(pool: Pool, t: TxId, a: TxId)
    requires Exact(pool) && t in pool && a in pool[t].ancestors
    ensures a in pool && |pool[a].ancestors| < |pool[t].ancestors|
  {
    Transitive(pool, t, a);
    ProperSubset(pool[a].ancestors, pool[t].ancestors, a);
  }

  // A set that has t's parents and is closed under parents has all of t's ancestors.
  lemma {:induction false} ClosedHasAncestors(pool: Pool, t: TxId, s: set<TxId>, a: TxId)
    requires Exact(pool) && t in pool && pool[t].parents <= s
    requires forall x :: x in s && x in pool ==> pool[x].parents <= s
    requires a in pool[t].ancestors
    ensures a in s
    decreases |pool[t].ancestors|
  {
    assert ViaParent(pool, t, a);
    if a !in pool[t].parents {
      var p :| p in pool[t].parents && p in pool && a in pool[p].ancestors;
      assert ViaParent(pool, t, p);
      FewerAncestors(pool, t, p);
      ClosedHasAncestors(pool, p, s, a);
    }
  }

  lemma ParentsAreAncestors(pool: Pool, t: TxId)
    requires Exact(pool) && t in pool
    ensures pool[t].parents <= pool[t].ancestors
  {
    forall p | p in pool[t].parents ensures p in pool[t].ancestors { assert ViaParent(pool, t, p); }
  }

  // One step of a worklist: it moves from the stage to the result, and what is new in next is staged.
  lemma Explored(all: set<TxId>, done: set<TxId>, stage: set<TxId>, it: TxId, next: set<TxId>)
    requires done + stage <= all && done !! stage && it in stage && next <= all
    ensures var d := done + {it};
            var s := stage - {it} + (next - d);
            d + s <= all && d !! s && next <= d + s && done + stage <= d + s && |all - d| < |all - done|
  {
    ProperSubset(all - (done + {it}), all - done, it);
  }

  ghost predicate ParentsWithin(pool: Pool, done: set<TxId>, seen: set<TxId>) {
    forall x :: x in done ==> x in pool && pool[x].parents <= seen
  }

  lemma ParentsNone(pool: Pool, seen: set<TxId>)
    ensures ParentsWithin(pool, {}, seen)
  {}

  lemma ParentsNext(pool: Pool, done: set<TxId>, it: TxId, seen: set<TxId>, seen': set<TxId>)
    requires ParentsWithin(pool, done, seen) && seen <= seen' && it in pool && pool[it].parents <= seen'
    ensures ParentsWithin(pool, done + {it}, seen')
  {}

  lemma AllAncestors(pool: Pool, t: TxId, s: set<TxId>)
    requires Exact(pool) && t in pool && pool[t].parents <= s && ParentsWithin(pool, s, s)
    ensures pool[t].ancestors <= s
  {
    forall a | a in pool[t].ancestors ensures a in s { ClosedHasAncestors(pool, t, s, a); }
  }

  // CalculateMemPoolAncestors without limits: a worklist over parents.
  method CalculateMemPoolAncestors(pool: Pool, t: TxId) returns (ancestors: set<TxId>)
    requires Exact(pool) && t in pool
    ensures ancestors == pool[t].ancestors
  {
    hide Exact, ViaParent, ParentsWithin;
    ancestors := {};
    var stage := pool[t].parents;
    ParentsAreAncestors(pool, t);
    assert ParentsWithin(pool, {}, stage) by { ParentsNone(pool, stage); }
    assert {} + stage == stage;
    while stage != {}
      invariant ancestors + stage <= pool[t].ancestors && ancestors !! stage
      invariant pool[t].parents <= ancestors + stage
      invariant ParentsWithin(pool, ancestors, ancestors + stage)
      decreases |pool[t].ancestors - ancestors|
    {
      var it :| it in stage;
      ghost var done, seen := ancestors, ancestors + stage;
      Transitive(pool, t, it);
      ParentsAreAncestors(pool, it);
      Explored(pool[t].ancestors, ancestors, stage, it, pool[it].parents);
      ancestors := ancestors + {it};
      stage := stage - {it};
      stage := stage + (pool[it].parents - ancestors);
      ParentsNext(pool, done, it, seen, ancestors + stage);
    }
    assert ancestors + {} == ancestors;
    AllAncestors(pool, t, ancestors);
  }

  // The transactions that have t among their ancestors.
  function Descendants(pool: Pool, t: TxId): set<TxId> {
    set d | d in pool && t in pool[d].ancestors
  }

  function Children(pool: Pool, t: TxId): set<TxId> {
    set c | c in pool && t in pool[c].parents
  }

  // A set that has t and is closed under children has all of t's descendants.
  lemma {:induction false} ClosedHasDescendants(pool: Pool, t: TxId, s: set<TxId>, d: TxId)
    requires Exact(pool) && t in s && d in pool && t in pool[d].ancestors
    requires forall x :: x in s ==> Children(pool, x) <= s
    ensures d in s
    decreases |pool[d].ancestors|
  {
    assert ViaParent(pool, d, t);
    if t in pool[d].parents {
      assert d in Children(pool, t);
    } else {
      var p :| p in pool[d].parents && p in pool && t in pool[p].ancestors;
      assert ViaParent(pool, d, p);
      FewerAncestors(pool, d, p);
      ClosedHasDescendants(pool, t, s, p);
      assert d in Children(pool, p);
    }
  }

  // The children of t, or of a descendant of t, are descendants of t.
  lemma ChildrenDescend(pool: Pool, t: TxId, it: TxId)
    requires Exact(pool) && t in pool && it in Descendants(pool, t) + {t}
    ensures Children(pool, it) <= Descendants(pool, t)
  {
    forall c | c in Children(pool, it) ensures c in Descendants(pool, t) {
      assert ViaParent(pool, c, it);
      Transitive(pool, c, it);
    }
  }

  // CalculateDescendants: a worklist over children. The transaction itself is among the result.
  method CalculateDescendants(pool: Pool, t: TxId) returns (descendants: set<TxId>)
    requires Exact(pool) && t in pool
    ensures descendants == Descendants(pool, t) + {t}
  {
    hide Exact, Descendants, Children;
    descendants := {};
    var stage := {t};
    ghost var all := Descendants(pool, t) + {t};
    while stage != {}
      invariant descendants + stage <= all && descendants !! stage && t in descendants + stage
      invariant forall x :: x in descendants ==> Children(pool, x) <= descendants + stage
      decreases |all - descendants|
    {
      var it :| it in stage;
      ChildrenDescend(pool, t, it);
      Explored(all, descendants, stage, it, Children(pool, it));
      descendants := descendants + {it};
      stage := stage - {it};
      stage := stage + (Children(pool, it) - descendants);
    }
    forall d | d in Descendants(pool, t) ensures d in descendants {
      DescendantHas(pool, t, d);
      ClosedHasDescendants(pool, t, descendants, d);
    }
  }

  lemma DescendantHas(pool: Pool, t: TxId, d: TxId)
    requires d in Descendants(pool, t)
    ensures d in pool && t in pool[d].ancestors
  {}

  // ---------------------------------------------------------------- totals

  datatype Kind = Size | SigOps

  function Weight(pool: Pool, kind: Kind, t: TxId): nat {
    if t !in pool then 0 else match kind case Size => pool[t].size case SigOps => pool[t].sigOps
  }

  // The total size, or signature operation cost, of a set of transactions.
  ghost function Sum(pool: Pool, kind: Kind, s: set<TxId>): nat
    decreases |s|
  {
    if s == {} then 0 else
    var t :| t in s;
    assert |s - {t}| < |s| by { ProperSubset(s - {t}, s, t); }
    Weight(pool, kind, t) + Sum(pool, kind, s - {t})
  }

  lemma {:induction false} SumRemove(pool: Pool, kind: Kind, s: set<TxId>, x: TxId)
    requires x in s
    ensures Sum(pool, kind, s) == Weight(pool, kind, x) + Sum(pool, kind, s - {x})
    decreases |s|
  {
    var t :| t in s && Sum(pool, kind, s) == Weight(pool, kind, t) + Sum(pool, kind, s - {t});
    if t != x {
      ProperSubset(s - {t}, s, t);
      ProperSubset(s - {x}, s, x);
      SumRemove(pool, kind, s - {t}, x);
      SumRemove(pool, kind, s - {x}, t);
      assert s - {t} - {x} == s - {x} - {t};
    }
  }

  lemma SumAdd(pool: Pool, kind: Kind, s: set<TxId>, x: TxId)
    requires x !in s
    ensures Sum(pool, kind, s + {x}) == Sum(pool, kind, s) + Weight(pool, kind, x)
  {
    SumRemove(pool, kind, s + {x}, x);
    assert s + {x} - {x} == s;
  }

  lemma {:induction false} SumUnion(pool: Pool, kind: Kind, a: set<TxId>, b: set<TxId>)
    requires a !! b
    ensures Sum(pool, kind, a + b) == Sum(pool, kind, a) + Sum(pool, kind, b)
    decreases |b|
  {
    if b == {} {
      assert a + b == a;
    } else {
      var x :| x in b;
      ProperSubset(b - {x}, b, x);
      SumRemove(pool, kind, b, x);
      SumUnion(pool, kind, a, b - {x});
      SumAdd(pool, kind, a + (b - {x}), x);
      assert a + (b - {x}) + {x} == a + b;
    }
  }

  // t and its ancestors that are not in s.
  function Package(pool: Pool, t: TxId, s: set<TxId>): set<TxId>
    requires t in pool
  {
    pool[t].ancestors + {t} - s
  }

  function Of(totals: Totals, kind: Kind): int {
    match kind case Size => totals.size case SigOps => totals.sigOps
  }

  // The cached counts and totals are exact.
  ghost predicate ExactTotals(pool: Pool) {
    forall t :: t in pool ==>
      && pool[t].countWithAncestors == |pool[t].ancestors| + 1
      && (forall kind :: Of(pool[t].withAncestors, kind) == Sum(pool, kind, Package(pool, t, {})))
  }

  // ---------------------------------------------------------------- fees

  // A transaction's own fee and its modified one differ when it is prioritised. Of a record it is known only that one
  // of the two was subtracted; these are the bounds.
  datatype FeeBound = Low | High | LowOrNone | HighOrNone

  function FeeOf(pool: Pool, b: FeeBound, t: TxId): int {
    if t !in pool then 0 else
    var low, high := Min(pool[t].fee, pool[t].modifiedFee), Max(pool[t].fee, pool[t].modifiedFee);
    match b case Low => low case High => high case LowOrNone => Min(0, low) case HighOrNone => Max(0, high)
  }

  ghost function FeeSum(pool: Pool, b: FeeBound, s: set<TxId>): int
    decreases |s|
  {
    if s == {} then 0 else
    var t :| t in s;
    assert |s - {t}| < |s| by { ProperSubset(s - {t}, s, t); }
    FeeOf(pool, b, t) + FeeSum(pool, b, s - {t})
  }

  lemma {:induction false} FeeRemove(pool: Pool, b: FeeBound, s: set<TxId>, x: TxId)
    requires x in s
    ensures FeeSum(pool, b, s) == FeeOf(pool, b, x) + FeeSum(pool, b, s - {x})
    decreases |s|
  {
    hide FeeOf;
    var t :| t in s && FeeSum(pool, b, s) == FeeOf(pool, b, t) + FeeSum(pool, b, s - {t});
    if t != x {
      ProperSubset(s - {t}, s, t);
      ProperSubset(s - {x}, s, x);
      FeeRemove(pool, b, s - {t}, x);
      FeeRemove(pool, b, s - {x}, t);
      assert s - {t} - {x} == s - {x} - {t};
    }
  }

  lemma FeeAdd(pool: Pool, b: FeeBound, s: set<TxId>, x: TxId)
    requires x !in s
    ensures FeeSum(pool, b, s + {x}) == FeeSum(pool, b, s) + FeeOf(pool, b, x)
  {
    FeeRemove(pool, b, s + {x}, x);
    assert s + {x} - {x} == s;
  }

  lemma {:induction false} FeeUnion(pool: Pool, b: FeeBound, s: set<TxId>, t: set<TxId>)
    requires s !! t
    ensures FeeSum(pool, b, s + t) == FeeSum(pool, b, s) + FeeSum(pool, b, t)
    decreases |t|
  {
    hide FeeOf;
    if t == {} {
      assert s + t == s;
    } else {
      var x :| x in t;
      ProperSubset(t - {x}, t, x);
      FeeRemove(pool, b, t, x);
      FeeUnion(pool, b, s, t - {x});
      FeeAdd(pool, b, s + (t - {x}), x);
      assert s + (t - {x}) + {x} == s + t;
    }
  }

  lemma {:induction false} FeeBounds(pool: Pool, s: set<TxId>)
    ensures FeeSum(pool, LowOrNone, s) <= FeeSum(pool, Low, s) <= FeeSum(pool, High, s) <= FeeSum(pool, HighOrNone, s)
    ensures FeeSum(pool, LowOrNone, s) <= 0 <= FeeSum(pool, HighOrNone, s)
    decreases |s|
  {
    if s != {} {
      var x :| x in s;
      ProperSubset(s - {x}, s, x);
      FeeBounds(pool, s - {x});
      forall b ensures FeeSum(pool, b, s) == FeeOf(pool, b, x) + FeeSum(pool, b, s - {x}) { FeeRemove(pool, b, s, x); }
    }
  }
}
