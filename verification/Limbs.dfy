/** Numbers as 32-bit limbs, least significant first, and the bit operations on one limb. */
module Limbs {
  import opened Radix

  const BASE: nat := 0x1_0000_0000

  type Limb = x: nat | x < BASE

  function Num(s: seq<nat>): nat {
    if s == [] then 0 else Num(s[..|s| - 1]) + s[|s| - 1] * Pow(BASE, |s| - 1)
  }

  ghost predicate AllLimbs(s: seq<nat>) {
    forall i :: 0 <= i < |s| ==> s[i] < BASE
  }

  // ---- Numbers -----------------------------------------------------------------------------

  lemma NumNext(s: seq<nat>, i: nat)
    requires i < |s|
    ensures Num(s[..i + 1]) == Num(s[..i]) + s[i] * Pow(BASE, i)
  {
    assert s[..i + 1][..i] == s[..i];
  }

  lemma {:induction false} NumBound(s: seq<nat>)
    requires AllLimbs(s)
    ensures Num(s) < Pow(BASE, |s|)
  {
    if s != [] {
      var n := |s| - 1;
      NumBound(s[..n]);
      TopBound(Num(s[..n]), Pow(BASE, n), s[n]);
    }
  }

  lemma TopBound(v: nat, p: nat, d: nat)
    requires v < p && d < BASE
    ensures v + d * p < BASE * p
  {
    assert (d + 1) * p <= BASE * p;
  }

  lemma {:induction false} NumAppend(s: seq<nat>, t: seq<nat>)
    ensures Num(s + t) == Num(s) + Pow(BASE, |s|) * Num(t)
  {
    if t == [] {
      assert s + t == s;
    } else {
      var n := |t| - 1;
      assert (s + t)[..|s + t| - 1] == s + t[..n];
      NumAppend(s, t[..n]);
      PowAdd(BASE, |s|, n);
      Distribute(Pow(BASE, |s|), Num(t[..n]), t[n], Pow(BASE, n));
    }
  }

  lemma Distribute(p: nat, v: nat, d: nat, q: nat)
    ensures p * v + d * (p * q) == p * (v + d * q)
  {
  }

  lemma {:induction false} NumZeros(s: seq<nat>)
    requires forall i :: 0 <= i < |s| ==> s[i] == 0
    ensures Num(s) == 0
  {
    if s != [] {
      NumZeros(s[..|s| - 1]);
    }
  }

  /** Changing one limb changes the number by its weight. */
  lemma NumUpdate(s: seq<nat>, i: nat, x: nat)
    requires i < |s| && s[i] <= x
    ensures Num(s[i := x]) == Num(s) + (x - s[i]) * Pow(BASE, i)
  {
    hide Num;
    var t := s[i := x];
    assert s == s[..i + 1] + s[i + 1..] && t == t[..i + 1] + s[i + 1..];
    NumAppend(s[..i + 1], s[i + 1..]);
    NumAppend(t[..i + 1], s[i + 1..]);
    NumNext(s, i);
    NumNext(t, i);
    assert t[..i] == s[..i];
    Subtracts(x, s[i], Pow(BASE, i));
  }

  lemma Subtracts(x: nat, y: nat, p: nat)
    requires y <= x
    ensures x * p == y * p + (x - y) * p
  {
  }

  // ---- Carries -----------------------------------------------------------------------------

  /** One digit of any carry loop. */
  lemma DigitStep(low: nat, carry: nat, p: nat, target: nat, y: nat)
    requires low + carry * p == target
    ensures
      var n := carry + y;
      low + (n % BASE) * p + (n / BASE) * (BASE * p) == target + y * p
  {
    var n := carry + y;
    var q, r := n / BASE, n % BASE;
    assert n == BASE * q + r;
    calc {
      r * p + q * (BASE * p);
      { assert q * (BASE * p) == (BASE * q) * p; }
      r * p + (BASE * q) * p;
      { assert (BASE * q) * p + r * p == (BASE * q + r) * p; }
      n * p;
      { assert n * p == carry * p + y * p; }
      carry * p + y * p;
    }
  }

  /** What is left of x below p when the carry out is dropped. */
  lemma DropCarry(v: nat, carry: nat, p: nat, x: nat)
    requires v < p && v + carry * p == x
    ensures v == x % p
  {
    ModUnique(x, p, carry, v);
  }

  lemma ModUnique(x: int, p: nat, q: int, r: nat)
    requires 0 < p && r < p && x == q * p + r
    ensures x % p == r && x / p == q
  {
    var q', r' := x / p, x % p;
    assert x == p * q' + r';
    assert p * q' == q' * p;
    if q < q' {
      Below(q, q', p);
    } else if q' < q {
      Below(q', q, p);
    }
  }

  lemma Below(a: int, b: int, p: nat)
    requires a < b
    ensures a * p + p <= b * p
  {
    Spread(a, b - a, p);
    MulGrows(p, b - a);
    Commutes(p, b - a);
  }

  lemma Spread(a: int, d: int, p: int)
    ensures (a + d) * p == a * p + d * p
  {
  }

  lemma ModAddMultiple(x: int, k: int, p: nat)
    requires 0 < p
    ensures (x + k * p) % p == x % p
  {
    var q, r := x / p, x % p;
    assert x == p * q + r;
    assert p * q == q * p;
    assert q * p + k * p == (q + k) * p;
    ModUnique(x + k * p, p, q + k, r);
  }

  /** A sum may be reduced early. */
  lemma ModAddMod(x: int, y: int, p: nat)
    requires 0 < p
    ensures (x % p + y) % p == (x + y) % p
  {
    var q := x / p;
    assert x == p * q + x % p;
    assert p * q == q * p;
    ModAddMultiple(x % p + y, q, p);
  }

  lemma DivDiv(x: nat, p: nat, q: nat)
    requires 0 < p && 0 < q
    ensures 0 < p * q && x / (p * q) == (x / p) / q
  {
    var a, r := x / p, x % p;
    var b, t := a / q, a % q;
    assert x == p * a + r;
    Regroup(p, q, b, t);
    Below(t, q, p);
    Commutes(t, p);
    Commutes(q, p);
    MulGrows(p, q);
    ModUnique(x, p * q, b, p * t + r);
  }

  lemma Regroup(p: nat, q: nat, b: nat, t: nat)
    ensures p * (q * b + t) == b * (p * q) + p * t
  {
  }

  // ---- Bits of one limb --------------------------------------------------------------------

  function BitOr(x: nat, y: nat): nat
    decreases x + y
  {
    if x == 0 && y == 0 then 0
    else (if x % 2 == 1 || y % 2 == 1 then 1 else 0) + 2 * BitOr(x / 2, y / 2)
  }

  lemma {:induction false} OrZero(x: nat)
    ensures BitOr(x, 0) == x && BitOr(0, x) == x
  {
    if x != 0 {
      OrZero(x / 2);
    }
  }

  /** Bits that do not meet are added. */
  lemma {:induction false} OrDisjoint(k: nat, y: nat, s: nat)
    requires y < Pow(2, s)
    ensures BitOr(k * Pow(2, s), y) == k * Pow(2, s) + y
    ensures BitOr(y, k * Pow(2, s)) == k * Pow(2, s) + y
    decreases s
  {
    if s == 0 {
      OrZero(k);
    } else {
      var x := k * Pow(2, s);
      var h := k * Pow(2, s - 1);
      assert x == 2 * h by { MulAssociates(2, k, Pow(2, s - 1)); Swap(k, Pow(2, s - 1)); }
      OrDisjoint(k, y / 2, s - 1);
      OrHalves(h, y);
    }
  }

  lemma Swap(k: nat, p: nat)
    ensures k * (2 * p) == 2 * (k * p)
  {
  }

  lemma OrHalves(h: nat, y: nat)
    requires BitOr(h, y / 2) == h + y / 2 && BitOr(y / 2, h) == h + y / 2
    ensures BitOr(2 * h, y) == 2 * h + y && BitOr(y, 2 * h) == 2 * h + y
  {
    if h == 0 && y == 0 {
    } else {
      assert (2 * h) / 2 == h && (2 * h) % 2 == 0;
    }
  }

  /** The 32-bit left shift drops what leaves the limb. */
  function ShiftLeft(x: Limb, s: nat): Limb { (x * Pow(2, s)) % BASE }

  function ShiftRight(x: Limb, s: nat): Limb
  {
    PowPositive(2, s);
    Quotient(x, Pow(2, s));
    x / Pow(2, s)
  }

  lemma Quotient(x: nat, p: nat)
    requires 0 < p
    ensures x / p <= x
  {
    var q := x / p;
    assert x == p * q + x % p;
    MulGrows(q, p);
    Commutes(q, p);
  }

  lemma TwoTo32()
    ensures Pow(2, 32) == BASE
  {
    assert Pow(2, 8) == 256;
    PowMul(2, 8, 4);
  }

  lemma BaseIsBits(k: nat)
    ensures Pow(BASE, k) == Pow(2, 32 * k)
  {
    TwoTo32();
    PowMul(2, 32, k);
  }

  /** BASE as two shift amounts. */
  lemma SplitBase(s: nat)
    requires s <= 32
    ensures Pow(2, s) * Pow(2, 32 - s) == BASE
  {
    TwoTo32();
    PowAdd(2, s, 32 - s);
  }

  /** Left shift: the kept bits are a multiple of 2^s, the lost ones are the right shift by 32 - s. */
  lemma ShiftLeftSplits(x: Limb, s: nat)
    requires s <= 32
    ensures x * Pow(2, s) == ShiftLeft(x, s) + BASE * ShiftRight(x, 32 - s)
    ensures ShiftRight(x, 32 - s) < Pow(2, s)
    ensures exists k: nat :: ShiftLeft(x, s) == k * Pow(2, s)
  {
    hide Pow;
    SplitBase(s);
    PowPositive(2, 32 - s);
    PowPositive(2, s);
    var p, q := Pow(2, s), Pow(2, 32 - s);
    var h, r := x / q, x % q;
    assert x == q * h + r;
    SplitProduct(p, q, h, r);
    Below(r, q, p);
    Commutes(q, p);
    ModUnique(x * p, BASE, h, r * p);
    assert ShiftLeft(x, s) == r * p;
    if h >= p {
      MulMonotone(p, q, h, q);
      Commutes(h, q);
    }
  }

  lemma SplitProduct(p: nat, q: nat, h: nat, r: nat)
    requires p * q == BASE
    ensures (q * h + r) * p == h * BASE + r * p
  {
    Spread(q * h, r, p);
    calc {
      (q * h) * p;
      { Commutes(q * h, p); MulAssociates(p, q, h); }
      (p * q) * h;
      { Commutes(p * q, h); }
      h * BASE;
    }
  }
}
