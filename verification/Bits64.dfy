/**
 * Single bits of 64-bit words, by one-hot masks. The word operators have names so that
 * proofs above this module can hide them and reason about single bits only.
 */
module Bits64 {
  function And(x: bv64, y: bv64): bv64 { x & y }

  function Or(x: bv64, y: bv64): bv64 { x | y }

  function Not(x: bv64): bv64 { !x }

  /** Every bit of x, flipped when f. */
  function XorAll(x: bv64, f: bool): bv64 { x ^ (0 - Flag(f)) }

  function Flag(f: bool): bv64 { if f then 1 else 0 }

  function FlagAt(f: bool, b: bv6): bv64 { Flag(f) << b }

  function Mask(b: bv6): bv64 { (1 as bv64) << b }

  predicate OneHot(m: bv64) { m != 0 && m & (m - 1) == 0 }

  predicate Has(x: bv64, m: bv64) { x & m != 0 }

  lemma MaskOneHot(b: bv6)
    ensures OneHot(Mask(b))
  {
  }

  /** The filter's own way of reading a bit. */
  lemma ShiftedBit(x: bv64, b: bv6)
    ensures (x >> b) & 1 == 1 <==> Has(x, Mask(b))
  {
  }

  lemma Cases(x: bv64, m: bv64)
    requires m & (m - 1) == 0
    ensures x & m == 0 || x & m == m
  {
  }

  lemma AndMasked(x: bv64, y: bv64, m: bv64)
    requires m != 0 && m & (m - 1) == 0
    ensures (x & y) & m != 0 <==> x & m != 0 && y & m != 0
  {
    Cases(x, m);
    Cases(y, m);
    assert (x & y) & m == (x & m) & (y & m);
  }

  lemma OrMasked(x: bv64, y: bv64, m: bv64)
    requires m != 0 && m & (m - 1) == 0
    ensures (x | y) & m != 0 <==> x & m != 0 || y & m != 0
  {
  }

  lemma HasAnd(x: bv64, y: bv64, m: bv64)
    requires OneHot(m)
    ensures Has(And(x, y), m) <==> Has(x, m) && Has(y, m)
  {
    AndMasked(x, y, m);
  }

  lemma HasOr(x: bv64, y: bv64, m: bv64)
    requires OneHot(m)
    ensures Has(Or(x, y), m) <==> Has(x, m) || Has(y, m)
  {
    OrMasked(x, y, m);
  }

  lemma HasNot(x: bv64, m: bv64)
    requires OneHot(m)
    ensures Has(Not(x), m) <==> !Has(x, m)
  {
    Cases(x, m);
  }

  lemma HasXorAll(x: bv64, f: bool, m: bv64)
    requires OneHot(m)
    ensures Has(XorAll(x, f), m) <==> Has(x, m) != f
  {
    hide Has, OneHot, XorAll, Not;
    XorAllCases(x, f);
    HasNot(x, m);
  }

  lemma XorAllCases(x: bv64, f: bool)
    ensures XorAll(x, f) == if f then Not(x) else x
  {
  }

  lemma HasMask(m: bv64, n: bv64)
    requires OneHot(m) && OneHot(n)
    ensures Has(m, n) <==> m == n
  {
    Cases(m, n);
    Cases(n, m);
  }

  lemma FlagAtCases(f: bool, b: bv6)
    ensures FlagAt(f, b) == if f then Mask(b) else 0
  {
  }

  lemma ZeroHas(m: bv64)
    ensures !Has(0, m)
  {
  }

  /** x with bit b overwritten by f. */
  function Put(x: bv64, f: bool, b: bv6): bv64 { Or(And(x, Not(Mask(b))), FlagAt(f, b)) }

  lemma HasPut(x: bv64, f: bool, b: bv6, m: bv64)
    requires OneHot(m)
    ensures Has(Put(x, f, b), m) <==> if Mask(b) == m then f else Has(x, m)
  {
    hide And, Or, Not, Mask, FlagAt, Has, OneHot;
    MaskOneHot(b);
    HasOr(And(x, Not(Mask(b))), FlagAt(f, b), m);
    HasAnd(x, Not(Mask(b)), m);
    HasNot(Mask(b), m);
    HasMask(Mask(b), m);
    FlagAtCases(f, b);
    ZeroHas(m);
  }

  /** The two planes p1, p2 with every position that holds the code (f1, f2) cleared. */
  function WipeMask(p1: bv64, p2: bv64, f1: bool, f2: bool): bv64 { Or(XorAll(p1, f1), XorAll(p2, f2)) }

  lemma HasWiped(p1: bv64, p2: bv64, f1: bool, f2: bool, m: bv64)
    requires OneHot(m)
    ensures
      var mask := WipeMask(p1, p2, f1, f2);
      var same := Has(p1, m) == f1 && Has(p2, m) == f2;
      && (Has(And(p1, mask), m) <==> Has(p1, m) && !same)
      && (Has(And(p2, mask), m) <==> Has(p2, m) && !same)
  {
    hide And, Or, XorAll, Has, OneHot;
    var mask := WipeMask(p1, p2, f1, f2);
    HasAnd(p1, mask, m);
    HasAnd(p2, mask, m);
    HasOr(XorAll(p1, f1), XorAll(p2, f2), m);
    HasXorAll(p1, f1, m);
    HasXorAll(p2, f2, m);
  }
}
