/**
 * Scattered errors. The register's values at the three roots of the generator are three syndromes of the errors; they
 * cannot all vanish when between one and three symbols within a window of 1023 are wrong.
 */
module Bech32Errors {
  import opened Bech32Poly
  import opened Bech32Field
  import opened Bech32Roots

  /** Only the symbols at p, q and r may be non-zero. */
  ghost predicate OnlyAt(z: seq<Symbol>, p: nat, q: nat, r: nat) {
    forall i :: 0 <= i < |z| && z[i] != 0 ==> i == p || i == q || i == r
  }

  /** What the symbol at p contributes to the value at the root z^k. */
  ghost function Weight(k: nat, z: seq<Symbol>, p: nat): bv10 {
    if p < |z| then Power(k * (|z| - 1 - p), Embed(z[p])) else 0
  }

  lemma WeightNext(k: nat, z: seq<Symbol>, v: Symbol, p: nat)
    ensures Weight(k, z + [v], p) == Add(Power(k, Weight(k, z, p)), if p == |z| then Embed(v) else 0)
  {
    hide Embed, Add;
    PowerZero(k);
    AddFacts(Power(k, Weight(k, z, p)), 0, 0);
    AddFacts(Embed(v), 0, 0);
    if p < |z| {
      OneMore(k, |z| - 1 - p);
      PowerAdd(k, k * (|z| - 1 - p), Embed(z[p]));
    } else if p == |z| {
      assert k * 0 == 0;
    }
  }

  lemma OneMore(k: nat, n: nat)
    ensures k * (n + 1) == k + k * n
  {}

  ghost function Weights(k: nat, z: seq<Symbol>, p: nat, q: nat, r: nat): bv10 {
    Add(Add(Weight(k, z, p), Weight(k, z, q)), Weight(k, z, r))
  }

  lemma WeightsNext(k: nat, z: seq<Symbol>, v: Symbol, p: nat, q: nat, r: nat)
    requires p < q < r && (v != 0 ==> |z| == p || |z| == q || |z| == r)
    ensures Weights(k, z + [v], p, q, r) == Add(Power(k, Weights(k, z, p, q, r)), Embed(v))
  {
    hide Embed, Add, Power, Weight;
    WeightNext(k, z, v, p);
    WeightNext(k, z, v, q);
    WeightNext(k, z, v, r);
    var x, y, w := Weight(k, z, p), Weight(k, z, q), Weight(k, z, r);
    PowerLinear(k, Add(x, y), w);
    PowerLinear(k, x, y);
    EmbedZero();
    AddOne(Power(k, x), Power(k, y), Power(k, w), Embed(v));
  }

  lemma AddOne(x: bv10, y: bv10, w: bv10, v: bv10)
    ensures Add(Add(Add(x, v), Add(y, 0)), Add(w, 0)) == Add(Add(Add(x, y), w), v)
    ensures Add(Add(Add(x, 0), Add(y, v)), Add(w, 0)) == Add(Add(Add(x, y), w), v)
    ensures Add(Add(Add(x, 0), Add(y, 0)), Add(w, v)) == Add(Add(Add(x, y), w), v)
  {
    hide Add;
    AddFacts(x, y, 0);
    AddFacts(y, w, 0);
    AddFacts(w, x, 0);
    AddFacts(x, v, y);
    AddFacts(x, y, v);
    AddFacts(v, y, 0);
    AddFacts(Add(x, y), v, w);
    AddFacts(Add(x, y), w, v);
    AddFacts(v, w, 0);
  }

  /** The value at a root after a run from the empty register is the sum of the contributions. */
  lemma {:induction false} Syndrome(k: nat, e: bv10, f: bv10, z: seq<Symbol>, p: nat, q: nat, r: nat)
    requires IsRoot(k, e, f) && p < q < r && OnlyAt(z, p, q, r)
    ensures Eval(e, Run(0, z)) == Weights(k, z, p, q, r)
    decreases |z|
  {
    hide Embed, Add, Power, Eval, Step, Times, IsRoot;
    RootFacts(k, e, f);
    if z == [] {
      EvalZero(k, e);
      AddFacts(0, 0, 0);
    } else {
      var n := |z| - 1;
      var rest, v := z[..n], z[n];
      assert z == rest + [v];
      Syndrome(k, e, f, rest, p, q, r);
      RunAppend(0, rest, [v]);
      var c := Run(0, rest);
      RunOne(c, v);
      RunBound(0, rest);
      EvalStep(k, e, f, c, v);
      PowerTimes(k, Eval(e, c));
      WeightsNext(k, rest, v, p, q, r);
    }
  }

  lemma RootFacts(k: nat, e: bv10, f: bv10)
    requires IsRoot(k, e, f)
    ensures Power(k, 1) == e
  {}

  lemma RunOne(c: bv32, v: Symbol)
    ensures Run(c, [v]) == Step(c, v)
  {
    hide Step;
    assert [v][1..] == [];
    assert Run(Step(c, v), []) == Step(c, v);
  }

  // ---- Three syndromes ---------------------------------------------------------------------

  function Apart(a: nat, b: nat, y: bv10): bv10 { Add(Power(a, y), Power(b, y)) }

  lemma Balance(a: nat, b: nat, c: nat, x: bv10, y: bv10, w: bv10)
    requires Add(Add(x, y), w) == 0 && Add(Add(Power(a, x), Power(b, y)), Power(c, w)) == 0
    ensures Apart(a, c, x) == Apart(b, c, y)
  {
    hide Add, Power;
    AddFacts(Add(x, y), w, 0);
    PowerLinear(c, x, y);
    AddFacts(Add(Power(a, x), Power(b, y)), Add(Power(c, x), Power(c, y)), 0);
    Exchanged(Power(a, x), Power(b, y), Power(c, x), Power(c, y));
    AddFacts(Apart(a, c, x), Apart(b, c, y), 0);
  }

  lemma ApartTwice(a: nat, b: nat, y: bv10)
    ensures Apart(2 * a, 2 * b, y) == Apart(a, b, Apart(a, b, y))
  {
    hide Add, Power;
    PowerLinear(a, Power(a, y), Power(b, y));
    PowerLinear(b, Power(a, y), Power(b, y));
    PowerAdd(a, a, y);
    PowerAdd(b, b, y);
    PowerAdd(a, b, y);
    PowerAdd(b, a, y);
    Middle(Power(2 * a, y), Power(a + b, y), Power(2 * b, y));
  }

  lemma Middle(x: bv10, m: bv10, y: bv10)
    ensures Add(Add(x, m), Add(m, y)) == Add(x, y)
  {
    hide Add;
    AddFacts(Add(x, m), m, y);
    AddFacts(x, m, m);
    AddFacts(m, m, 0);
    AddFacts(x, 0, 0);
  }

  lemma SamePower(a: nat, b: nat, y: bv10)
    requires b < a < b + 1023 && Power(a, y) == Power(b, y)
    ensures y == 0
  {
    hide Add, Power;
    PowerAdd(b, a - b, y);
    PowerLinear(b, Power(a - b, y), y);
    AddFacts(Power(b, y), Power(b, y), 0);
    PowerInjective(b, Add(Power(a - b, y), y));
    AddFacts(Power(a - b, y), y, 0);
    NoFixedPoint(a - b, y);
  }

  lemma ApartZero(a: nat, b: nat, y: bv10)
    requires b < a < b + 1023 && Apart(a, b, y) == 0
    ensures y == 0
  {
    hide Add, Power;
    AddFacts(Power(a, y), Power(b, y), 0);
    SamePower(a, b, y);
  }

  /** Three contributions at different distances that cancel at three consecutive roots are all zero. */
  lemma NoThreeCancel(a: nat, b: nat, c: nat, x: bv10, y: bv10, w: bv10)
    requires c < b < a < c + 1023
    requires Add(Add(x, y), w) == 0
    requires Add(Add(Power(a, x), Power(b, y)), Power(c, w)) == 0
    requires Add(Add(Power(2 * a, x), Power(2 * b, y)), Power(2 * c, w)) == 0
    ensures x == 0 && y == 0 && w == 0
  {
    hide Add, Power, Apart;
    Balance(a, b, c, x, y, w);
    Balance(2 * a, 2 * b, 2 * c, x, y, w);
    ApartTwice(a, c, x);
    ApartTwice(b, c, y);
    var u := Apart(a, c, x);
    ApartSame(a, b, c, u);
    ApartZero(a, c, x);
    ApartZero(b, c, y);
    AddFacts(0, 0, 0);
    AddFacts(w, 0, 0);
  }

  lemma ApartSame(a: nat, b: nat, c: nat, u: bv10)
    requires b < a < b + 1023 && Apart(a, c, u) == Apart(b, c, u)
    ensures u == 0
  {
    hide Add, Power;
    AddCancels(Power(a, u), Power(b, u), Power(c, u));
    SamePower(a, b, u);
  }

  lemma AddCancels(x: bv10, y: bv10, m: bv10)
    requires Add(x, m) == Add(y, m)
    ensures x == y
  {}

  // ---- Errors ------------------------------------------------------------------------------

  // Contributions at consecutive roots differ by the distance.
  lemma WeightMoves(m: nat, z: seq<Symbol>, p: nat, d: nat)
    requires p + d + 1 == |z|
    ensures Weight(24 + m, z, p) == Power(m * d, Weight(24, z, p))
  {
    hide Embed, Power;
    assert (24 + m) * d == m * d + 24 * d;
    PowerAdd(m * d, 24 * d, Embed(z[p]));
  }

  lemma WeightZero(k: nat, z: seq<Symbol>, p: nat)
    requires p < |z| && Weight(k, z, p) == 0
    ensures z[p] == 0
  {
    hide Embed, Power;
    PowerInjective(k * (|z| - 1 - p), Embed(z[p]));
    EmbedInjective(z[p]);
  }

  lemma NoWeights(k: nat, e: bv10, f: bv10, z: seq<Symbol>, p: nat, q: nat, r: nat)
    requires IsRoot(k, e, f) && p < q < r && OnlyAt(z, p, q, r) && Run(0, z) == 0
    ensures Weights(k, z, p, q, r) == 0
  {
    hide Eval, Power, Weights, IsRoot;
    RootFacts(k, e, f);
    Syndrome(k, e, f, z, p, q, r);
    EvalZero(k, e);
  }

  /** Up to three wrong symbols within a window of 1023 leave a trace in the register. */
  lemma ErrorsTrace(z: seq<Symbol>, p: nat, q: nat, r: nat)
    requires p < q < r < |z| && r - p < 1023 && OnlyAt(z, p, q, r) && Run(0, z) == 0
    ensures z[p] == 0 && z[q] == 0 && z[r] == 0
  {
    hide IsRoot, OnlyAt, Weight, Power, Add, Run;
    var a, b, c := |z| - 1 - p, |z| - 1 - q, |z| - 1 - r;
    Root24();
    Root25();
    Root26();
    NoWeights(24, 0x3f0, 0x2ba, z, p, q, r);
    NoWeights(25, 0x2c3, 0xa6, z, p, q, r);
    NoWeights(26, 0xa5, 0x98, z, p, q, r);
    WeightMoves(1, z, p, a);
    WeightMoves(1, z, q, b);
    WeightMoves(1, z, r, c);
    WeightMoves(2, z, p, a);
    WeightMoves(2, z, q, b);
    WeightMoves(2, z, r, c);
    NoThreeCancel(a, b, c, Weight(24, z, p), Weight(24, z, q), Weight(24, z, r));
    WeightZero(24, z, p);
    WeightZero(24, z, q);
    WeightZero(24, z, r);
  }
}
