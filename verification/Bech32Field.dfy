/** The field of 1024 elements as powers of one element z, whose order is 1023. */
module Bech32Field {

  // ---- Powers of the primitive element -----------------------------------------------------

  function Add(a: bv10, b: bv10): bv10 { a ^ b }

  function Doubled(y: bv10): bv10 { y << 1 }

  function Part(y: bv10, bit: bv10, e: bv10): bv10 { if y & bit != 0 then e else 0 }

  /** Multiplication by z in the field of binary polynomials modulo z^10 + z^8 + z^5 + z + 1. */
  function Mul(y: bv10): bv10 { Add(Doubled(y), Part(y, 0x200, 0x123)) }

  /** Multiplication by z^k. */
  function Power(k: nat, y: bv10): bv10 {
    if k == 0 then y else Mul(Power(k - 1, y))
  }

  lemma AddFacts(a: bv10, b: bv10, c: bv10)
    ensures Add(a, b) == Add(b, a) && Add(a, Add(b, c)) == Add(Add(a, b), c) && Add(a, 0) == a && Add(0, a) == a
    ensures Add(a, b) == 0 <==> a == b
  {}

  lemma Exchanged(a: bv10, b: bv10, c: bv10, d: bv10)
    ensures Add(Add(a, b), Add(c, d)) == Add(Add(a, c), Add(b, d))
  {
    hide Add;
    AddFacts(a, b, Add(c, d));
    AddFacts(b, c, d);
    AddFacts(c, b, d);
    AddFacts(a, c, Add(b, d));
  }

  lemma PartLinear(a: bv10, b: bv10, bit: bv10, e: bv10)
    requires bit & (bit - 1) == 0
    ensures Part(Add(a, b), bit, e) == Add(Part(a, bit, e), Part(b, bit, e))
  {
    assert (a ^ b) & bit == (a & bit) ^ (b & bit);
  }

  lemma DoubledLinear(a: bv10, b: bv10)
    ensures Doubled(Add(a, b)) == Add(Doubled(a), Doubled(b))
  {}

  lemma MulLinear(a: bv10, b: bv10)
    ensures Mul(Add(a, b)) == Add(Mul(a), Mul(b))
  {
    hide Add, Part, Doubled;
    PartLinear(a, b, 0x200, 0x123);
    DoubledLinear(a, b);
    Exchanged(Doubled(a), Doubled(b), Part(a, 0x200, 0x123), Part(b, 0x200, 0x123));
  }

  lemma MulInjective(a: bv10)
    requires Mul(a) == 0
    ensures a == 0
  {}

  lemma {:induction false} PowerLinear(k: nat, a: bv10, b: bv10)
    ensures Power(k, Add(a, b)) == Add(Power(k, a), Power(k, b))
  {
    hide Mul, Add;
    if k > 0 {
      PowerLinear(k - 1, a, b);
      MulLinear(Power(k - 1, a), Power(k - 1, b));
    }
  }

  lemma {:induction false} PowerZero(k: nat)
    ensures Power(k, 0) == 0
  {
    if k > 0 { PowerZero(k - 1); }
  }

  lemma {:induction false} PowerInjective(k: nat, y: bv10)
    requires Power(k, y) == 0
    ensures y == 0
  {
    hide Mul;
    if k > 0 {
      MulInjective(Power(k - 1, y));
      PowerInjective(k - 1, y);
    }
  }

  lemma {:induction false} PowerAdd(j: nat, k: nat, y: bv10)
    ensures Power(j + k, y) == Power(j, Power(k, y))
    decreases j
  {
    hide Mul;
    if j > 0 { PowerAdd(j - 1, k, y); }
  }

  // ---- Products ----------------------------------------------------------------------------

  function Digit(e: bv10, y: bv10, bit: bv10, rest: bv10): bv10 { Add(Part(y, bit, e), Mul(rest)) }

  /** The product of e and y. */
  function Times(e: bv10, y: bv10): bv10 {
    Digit(e, y, 1, Digit(e, y, 2, Digit(e, y, 4, Digit(e, y, 8, Digit(e, y, 16, Digit(e, y, 32,
    Digit(e, y, 64, Digit(e, y, 128, Digit(e, y, 256, Digit(e, y, 512, 0))))))))))
  }

  lemma DigitPower(k: nat, e: bv10, y: bv10, bit: bv10, rest: bv10)
    ensures Power(k, Digit(e, y, bit, rest)) == Digit(Power(k, e), y, bit, Power(k, rest))
  {
    hide Mul, Add, Power;
    PowerZero(k);
    PowerLinear(k, Part(y, bit, e), Mul(rest));
    PowerAdd(k, 1, rest);
    PowerAdd(1, k, rest);
    PowerOne(rest);
    PowerOne(Power(k, rest));
  }

  lemma TimesPower(k: nat, e: bv10, y: bv10)
    ensures Power(k, Times(e, y)) == Times(Power(k, e), y)
  {
    hide Digit, Power;
    PowerZero(k);
    var y9 := Digit(e, y, 512, 0);
    var y8 := Digit(e, y, 256, y9);
    var y7 := Digit(e, y, 128, y8);
    var y6 := Digit(e, y, 64, y7);
    var y5 := Digit(e, y, 32, y6);
    var y4 := Digit(e, y, 16, y5);
    var y3 := Digit(e, y, 8, y4);
    var y2 := Digit(e, y, 4, y3);
    var y1 := Digit(e, y, 2, y2);
    DigitPower(k, e, y, 512, 0);
    DigitPower(k, e, y, 256, y9);
    DigitPower(k, e, y, 128, y8);
    DigitPower(k, e, y, 64, y7);
    DigitPower(k, e, y, 32, y6);
    DigitPower(k, e, y, 16, y5);
    DigitPower(k, e, y, 8, y4);
    DigitPower(k, e, y, 4, y3);
    DigitPower(k, e, y, 2, y2);
    DigitPower(k, e, y, 1, y1);
  }

  lemma PowerNone(y: bv10)
    ensures Power(0, y) == y
  {}

  lemma PowerOne(y: bv10)
    ensures Power(1, y) == Mul(y)
  {
    assert Power(0, y) == y;
  }

  function Half(v: bv10): bv10 { v >> 1 }

  lemma Halves(y: bv10, bit: bv10, v: bv10)
    requires Lowest(y, bit, v)
    ensures Digit(1, y, bit, Half(v)) == v
  {}

  /** Bit `bit` of y is the lowest bit of v. */
  predicate Lowest(y: bv10, bit: bv10, v: bv10) { y & bit != 0 <==> v & 1 != 0 }

  lemma TopBits(y: bv10)
    ensures Half(y >> 9) == 0 && Half(y >> 8) == y >> 9 && Half(y >> 7) == y >> 8 && Half(y >> 6) == y >> 7
    ensures Half(y >> 5) == y >> 6
    ensures Lowest(y, 512, y >> 9) && Lowest(y, 256, y >> 8) && Lowest(y, 128, y >> 7) && Lowest(y, 64, y >> 6)
    ensures Lowest(y, 32, y >> 5)
  {}

  lemma LowBits(y: bv10)
    ensures Half(y >> 4) == y >> 5 && Half(y >> 3) == y >> 4 && Half(y >> 2) == y >> 3 && Half(y >> 1) == y >> 2
    ensures Half(y) == y >> 1
    ensures Lowest(y, 16, y >> 4) && Lowest(y, 8, y >> 3) && Lowest(y, 4, y >> 2) && Lowest(y, 2, y >> 1)
        && Lowest(y, 1, y)
  {}

  lemma TimesOne(y: bv10)
    ensures Times(1, y) == y
  {
    hide Digit, Half, Lowest;
    TopBits(y);
    LowBits(y);
    Halves(y, 512, y >> 9);
    Halves(y, 256, y >> 8);
    Halves(y, 128, y >> 7);
    Halves(y, 64, y >> 6);
    Halves(y, 32, y >> 5);
    Halves(y, 16, y >> 4);
    Halves(y, 8, y >> 3);
    Halves(y, 4, y >> 2);
    Halves(y, 2, y >> 1);
    Halves(y, 1, y);
  }

  /** Multiplying by z^k is multiplying by the element z^k. */
  lemma PowerTimes(k: nat, y: bv10)
    ensures Power(k, y) == Times(Power(k, 1), y)
  {
    hide Times, Power;
    TimesOne(y);
    TimesPower(k, 1, y);
  }

  // ---- The order of z is 1023 --------------------------------------------------------------

  lemma PowerSum(j: nat, e: bv10, k: nat, f: bv10, g: bv10)
    requires Power(j, 1) == e && Power(k, 1) == f && Times(e, f) == g
    ensures Power(j + k, 1) == g
  {
    hide Times, Power;
    PowerAdd(j, k, 1);
    PowerTimes(j, f);
  }

  lemma SmallPowers()
    ensures Power(1, 1) == 2 && Power(2, 1) == 4 && Power(4, 1) == 0x10 && Power(8, 1) == 0x100 && Power(16, 1) == 0x119
  {
    hide Power;
    PowerOne(1);
    PowerSum(1, 0x2, 1, 0x2, 0x4);
    PowerSum(2, 0x4, 2, 0x4, 0x10);
    PowerSum(4, 0x10, 4, 0x10, 0x100);
    PowerSum(8, 0x100, 8, 0x100, 0x119);
  }

  lemma LargePowers()
    ensures Power(32, 1) == 0x58 && Power(64, 1) == 0xef && Power(128, 1) == 0x346 && Power(256, 1) == 0x1e5
    ensures Power(512, 1) == 0x21b && Power(1024, 1) == 2
  {
    hide Power;
    SmallPowers();
    PowerSum(16, 0x119, 16, 0x119, 0x58);
    PowerSum(32, 0x58, 32, 0x58, 0xef);
    PowerSum(64, 0xef, 64, 0xef, 0x346);
    PowerSum(128, 0x346, 128, 0x346, 0x1e5);
    PowerSum(256, 0x1e5, 256, 0x1e5, 0x21b);
    PowerSum(512, 0x21b, 512, 0x21b, 0x2);
  }

  lemma Power33()
    ensures Power(33, 1) == 0xb0
  {
    hide Power;
    SmallPowers();
    LargePowers();
    PowerSum(32, 0x58, 1, 0x2, 0xb0);
  }

  lemma Power93()
    ensures Power(93, 1) == 0x36a
  {
    hide Power;
    SmallPowers();
    LargePowers();
    PowerSum(64, 0xef, 16, 0x119, 0x198);
    PowerSum(80, 0x198, 8, 0x100, 0xed);
    PowerSum(88, 0xed, 4, 0x10, 0x1b5);
    PowerSum(92, 0x1b5, 1, 0x2, 0x36a);
  }

  lemma Power341()
    ensures Power(341, 1) == 0x36
  {
    hide Power;
    SmallPowers();
    LargePowers();
    PowerSum(256, 0x1e5, 64, 0xef, 0x27a);
    PowerSum(320, 0x27a, 16, 0x119, 0x2c2);
    PowerSum(336, 0x2c2, 4, 0x10, 0x1b);
    PowerSum(340, 0x1b, 1, 0x2, 0x36);
  }

  lemma Power429()
    ensures Power(429, 1) == 0xb1
  {
    hide Power;
    SmallPowers();
    LargePowers();
    PowerSum(256, 0x1e5, 128, 0x346, 0x21c);
    PowerSum(384, 0x21c, 32, 0x58, 0x3ef);
    PowerSum(416, 0x3ef, 8, 0x100, 0x192);
    PowerSum(424, 0x192, 4, 0x10, 0x2c9);
    PowerSum(428, 0x2c9, 1, 0x2, 0xb1);
  }

  lemma Power426()
    ensures Power(426, 1) == 0x36b
  {
    hide Power;
    SmallPowers();
    LargePowers();
    PowerSum(256, 0x1e5, 128, 0x346, 0x21c);
    PowerSum(384, 0x21c, 32, 0x58, 0x3ef);
    PowerSum(416, 0x3ef, 8, 0x100, 0x192);
    PowerSum(424, 0x192, 2, 0x4, 0x36b);
  }

  lemma Power682()
    ensures Power(682, 1) == 0x37
  {
    hide Power;
    SmallPowers();
    LargePowers();
    PowerSum(512, 0x21b, 128, 0x346, 0x8f);
    PowerSum(640, 0x8f, 32, 0x58, 0x373);
    PowerSum(672, 0x373, 8, 0x100, 0x145);
    PowerSum(680, 0x145, 2, 0x4, 0x37);
  }

  // A power of z that moves y by a power of z fixes only zero.
  lemma FixesZero(q: nat, n: nat, e: bv10, y: bv10)
    requires Power(q, 1) == e && Power(n, 1) == Add(e, 1) && Power(q, y) == y
    ensures y == 0
  {
    hide Times, Power, Add;
    PowerTimes(n, y);
    TimesLinear(e, 1, y);
    PowerTimes(q, y);
    TimesOne(y);
    AddFacts(y, y, 0);
    PowerInjective(n, y);
  }

  lemma DigitLinear(e: bv10, f: bv10, y: bv10, bit: bv10, r: bv10, s: bv10)
    ensures Digit(Add(e, f), y, bit, Add(r, s)) == Add(Digit(e, y, bit, r), Digit(f, y, bit, s))
  {
    hide Mul, Add;
    MulLinear(r, s);
    AddFacts(0, 0, 0);
    Exchanged(Part(y, bit, e), Part(y, bit, f), Mul(r), Mul(s));
  }

  lemma TimesLinear(e: bv10, f: bv10, y: bv10)
    ensures Times(Add(e, f), y) == Add(Times(e, y), Times(f, y))
  {
    hide Digit, Add;
    AddFacts(0, 0, 0);
    var e9, f9 := Digit(e, y, 512, 0), Digit(f, y, 512, 0);
    DigitLinear(e, f, y, 512, 0, 0);
    var e8, f8 := Digit(e, y, 256, e9), Digit(f, y, 256, f9);
    DigitLinear(e, f, y, 256, e9, f9);
    var e7, f7 := Digit(e, y, 128, e8), Digit(f, y, 128, f8);
    DigitLinear(e, f, y, 128, e8, f8);
    var e6, f6 := Digit(e, y, 64, e7), Digit(f, y, 64, f7);
    DigitLinear(e, f, y, 64, e7, f7);
    var e5, f5 := Digit(e, y, 32, e6), Digit(f, y, 32, f6);
    DigitLinear(e, f, y, 32, e6, f6);
    var e4, f4 := Digit(e, y, 16, e5), Digit(f, y, 16, f5);
    DigitLinear(e, f, y, 16, e5, f5);
    var e3, f3 := Digit(e, y, 8, e4), Digit(f, y, 8, f4);
    DigitLinear(e, f, y, 8, e4, f4);
    var e2, f2 := Digit(e, y, 4, e3), Digit(f, y, 4, f3);
    DigitLinear(e, f, y, 4, e3, f3);
    var e1, f1 := Digit(e, y, 2, e2), Digit(f, y, 2, f2);
    DigitLinear(e, f, y, 2, e2, f2);
    DigitLinear(e, f, y, 1, e1, f1);
  }

  lemma FullCircle(y: bv10)
    ensures Power(1023, y) == y
  {
    hide Mul, Add, Times;
    LargePowers();
    SmallPowers();
    PowerTimes(1024, y);
    PowerTimes(1, y);
    PowerOne(y);
    var x := Power(1023, y);
    assert Power(1024, y) == Mul(x);
    MulLinear(x, y);
    AddFacts(Mul(x), Mul(y), 0);
    MulInjective(Add(x, y));
    AddFacts(x, y, 0);
  }

  lemma {:induction false} Circles(n: nat, y: bv10)
    ensures Power(1023 * n, y) == y
  {
    hide Power;
    if n > 0 {
      Circles(n - 1, y);
      PowerAdd(1023, 1023 * (n - 1), y);
      FullCircle(y);
    } else {
      PowerNone(y);
    }
  }

  lemma {:induction false} Repeated(n: nat, d: nat, y: bv10)
    requires Power(d, y) == y
    ensures Power(n * d, y) == y
  {
    hide Power;
    if n > 0 {
      Repeated(n - 1, d, y);
      PowerAdd(d, (n - 1) * d, y);
      assert n * d == d + (n - 1) * d;
    } else {
      assert 0 * d == 0;
      PowerNone(y);
    }
  }

  /** A number k with k * d one more than a multiple of p. */
  ghost predicate Inverse(d: nat, p: nat, k: nat) { p > 0 && (k * d) % p == 1 }

  // With an inverse modulo p, a fixed point of z^d is one of z^q, where p * q is the order.
  lemma FixedBy(d: nat, p: nat, q: nat, k: nat, y: bv10)
    requires Power(d, y) == y && p * q == 1023 && Inverse(d, p, k)
    ensures Power(q, y) == y
  {
    hide Power;
    var t := (k * d) / p;
    Repeated(q * k, d, y);
    Circles(t, y);
    Spread(d, p, q, k, t);
    PowerAdd(q, 1023 * t, y);
  }

  lemma Spread(d: nat, p: nat, q: nat, k: nat, t: nat)
    requires p * q == 1023 && k * d == p * t + 1
    ensures q * k * d == q + 1023 * t
  {
    assert q * k * d == q * (k * d);
    assert q * (p * t + 1) == (p * q) * t + q;
  }

  function Inverse3(r: nat): nat {
    if r == 1 then 1 else 2
  }

  function Inverse11(r: nat): nat {
    if r == 1 then 1 else if r == 2 then 6 else if r == 3 then 4 else if r == 4 then 3
    else if r == 5 then 9 else if r == 6 then 2 else if r == 7 then 8 else if r == 8 then 7
    else if r == 9 then 5
    else 10
  }

  function Inverse31(r: nat): nat {
    if r == 1 then 1 else if r == 2 then 16 else if r == 3 then 21 else if r == 4 then 8
    else if r == 5 then 25 else if r == 6 then 26 else if r == 7 then 9 else if r == 8 then 4
    else if r == 9 then 7 else if r == 10 then 28 else if r == 11 then 17 else if r == 12 then 13
    else if r == 13 then 12 else if r == 14 then 20 else if r == 15 then 29 else if r == 16 then 2
    else if r == 17 then 11 else if r == 18 then 19 else if r == 19 then 18 else if r == 20 then 14
    else if r == 21 then 3 else if r == 22 then 24 else if r == 23 then 27 else if r == 24 then 22
    else if r == 25 then 5 else if r == 26 then 6 else if r == 27 then 23 else if r == 28 then 10
    else if r == 29 then 15
    else 30
  }

  lemma SmallInverses(r: nat)
    ensures 0 < r < 3 ==> (Inverse3(r) * r) % 3 == 1
    ensures 0 < r < 11 ==> (Inverse11(r) * r) % 11 == 1
  {}

  lemma LargeInverses(r: nat)
    requires 0 < r < 31
    ensures (Inverse31(r) * r) % 31 == 1
  {}

  lemma InverseWorks(d: nat, p: nat, k: nat)
    requires (p == 3 || p == 11 || p == 31) && (k * (d % p)) % p == 1
    ensures Inverse(d, p, k)
  {
    var u, r := d / p, d % p;
    var w := (k * r) / p;
    Distributed(d, p, k, u, r, w);
    OneOver(p, k * u + w, k * d);
  }

  lemma Distributed(d: nat, p: nat, k: nat, u: nat, r: nat, w: nat)
    requires d == p * u + r && k * r == p * w + 1
    ensures k * d == p * (k * u + w) + 1
  {
    assert k * (p * u + r) == p * (k * u) + k * r;
    assert p * (k * u + w) == p * (k * u) + p * w;
  }

  lemma OneOver(p: nat, m: nat, x: nat)
    requires (p == 3 || p == 11 || p == 31) && x == p * m + 1
    ensures x % p == 1
  {
    if p == 3 {
      assert x == 3 * m + 1;
    } else if p == 11 {
      assert x == 11 * m + 1;
    } else {
      assert x == 31 * m + 1;
    }
  }

  /** No power of z below the order fixes anything but zero. */
  lemma NoFixedPoint(d: nat, y: bv10)
    requires 0 < d < 1023 && Power(d, y) == y
    ensures y == 0
  {
    hide Power, Inverse31, Inverse11, Inverse3, Inverse;
    if d % 3 != 0 {
      SmallInverses(d % 3);
      InverseWorks(d, 3, Inverse3(d % 3));
      FixedBy(d, 3, 341, Inverse3(d % 3), y);
      Power341();
      Power682();
      FixesZero(341, 682, 0x36, y);
    } else if d % 11 != 0 {
      SmallInverses(d % 11);
      InverseWorks(d, 11, Inverse11(d % 11));
      FixedBy(d, 11, 93, Inverse11(d % 11), y);
      Power93();
      Power426();
      FixesZero(93, 426, 0x36a, y);
    } else {
      assert d % 31 != 0;
      LargeInverses(d % 31);
      InverseWorks(d, 31, Inverse31(d % 31));
      FixedBy(d, 31, 33, Inverse31(d % 31), y);
      Power33();
      Power429();
      FixesZero(33, 429, 0xb0, y);
    }
  }
}
