/** Bit lengths, and the invariant of shift-and-subtract division. */
module LimbDivision {
  import opened Radix
  import opened Limbs
  import opened LimbShifts

  /** The position of the highest set bit of v plus one, or zero. */
  ghost predicate BitLength(v: nat, r: nat) {
    v < Pow(2, r) && (r > 0 ==> Pow(2, r - 1) <= v)
  }

  predicate BitSet(x: nat, n: nat) {
    PowPositive(2, n);
    (x / Pow(2, n)) % 2 == 1
  }

  /** Below 2^(n + 1), bit n is set exactly from 2^n on. */
  lemma TopBit(x: nat, n: nat)
    requires x < Pow(2, n + 1)
    ensures BitSet(x, n) <==> x >= Pow(2, n)
  {
    PowPositive(2, n);
    var p := Pow(2, n);
    assert Pow(2, n + 1) == 2 * p;
    hide Pow;
    if x >= p {
      ModUnique(x, p, 1, x - p);
    } else {
      ModUnique(x, p, 0, x);
    }
  }

  /** The highest non-zero limb gives the bit length. */
  lemma TopLimb(s: seq<Limb>, pos: nat, c: nat)
    requires pos < |s| && (forall i :: pos < i < |s| ==> s[i] == 0)
    requires Pow(2, c) <= s[pos] < Pow(2, c + 1)
    ensures BitLength(Num(s), 32 * pos + c + 1)
  {
    hide Num, Pow;
    var p := Pow(BASE, pos);
    NumSplitAt(s, pos + 1);
    NumZeros(s[pos + 1..]);
    NumNext(s, pos);
    NumBound(s[..pos]);
    BaseIsBits(pos);
    PowAdd(2, 32 * pos, c);
    PowAdd(2, 32 * pos, c + 1);
    MulMonotone(Pow(2, c), p, s[pos], p);
    Commutes(Pow(2, c), p);
    Below(s[pos], Pow(2, c + 1), p);
    Commutes(Pow(2, c + 1), p);
  }

  lemma NumSplitAt(y: seq<nat>, i: nat)
    requires i <= |y|
    ensures Num(y) == Num(y[..i]) + Pow(BASE, i) * Num(y[i..])
  {
    hide Num, Pow;
    assert y == y[..i] + y[i..];
    NumAppend(y[..i], y[i..]);
  }

  lemma {:induction false} PowOrder(m: nat, n: nat)
    requires Pow(2, m) < Pow(2, n)
    ensures m < n
  {
    if n <= m {
      PowMonotone(2, n, m);
    }
  }

  /** A bit length never exceeds the bits of the limbs. */
  lemma LengthFits(v: nat, r: nat, n: nat)
    requires BitLength(v, r) && v < Pow(BASE, n)
    ensures r <= 32 * n
  {
    hide Pow;
    if r > 0 {
      BaseIsBits(n);
      PowOrder(r - 1, 32 * n);
    }
  }

  /** Shifting the divisor up to the length of the dividend: it fits, and twice it is too large. */
  lemma Aligned(x: nat, d: nat, xBits: nat, dBits: nat)
    requires BitLength(x, xBits) && BitLength(d, dBits) && 0 < dBits <= xBits
    ensures d * Pow(2, xBits - dBits) < Pow(2, xBits)
    ensures x < d * Pow(2, xBits - dBits + 1)
  {
    hide Pow;
    var shift := xBits - dBits;
    PowAdd(2, dBits, shift);
    PowAdd(2, dBits - 1, shift + 1);
    PowPositive(2, shift);
    Below(d, Pow(2, dBits), Pow(2, shift));
    MulMonotone(Pow(2, dBits - 1), Pow(2, shift + 1), d, Pow(2, shift + 1));
  }

  /** A shorter dividend is smaller. */
  lemma Shorter(x: nat, d: nat, xBits: nat, dBits: nat)
    requires BitLength(x, xBits) && BitLength(d, dBits) && xBits < dBits
    ensures x < d
  {
    hide Pow;
    PowMonotone(2, xBits, dBits - 1);
  }

  ghost predicate Multiple(v: nat, p: nat) {
    exists k: nat :: v == k * p
  }

  /** Before the step for bit `shift`: what is left is below the next multiple. */
  ghost predicate Dividing(x: nat, d: nat, q: nat, r: nat, shift: int)
    requires -1 <= shift
  {
    && x == q * d + r
    && r < d * Pow(2, shift + 1)
    && Multiple(q, Pow(2, shift + 1))
  }

  lemma DividingStart(x: nat, d: nat, shift: nat)
    requires x < d * Pow(2, shift + 1)
    ensures Dividing(x, d, 0, x, shift)
  {
    hide Pow;
    assert 0 == 0 * Pow(2, shift + 1);
  }

  lemma DividingNext(x: nat, d: nat, q: nat, r: nat, shift: nat)
    requires Dividing(x, d, q, r, shift)
    ensures
      if r >= d * Pow(2, shift) then Dividing(x, d, q + Pow(2, shift), r - d * Pow(2, shift), shift - 1)
      else Dividing(x, d, q, r, shift - 1)
  {
    var p := Pow(2, shift);
    assert Pow(2, shift + 1) == 2 * p;
    var c: nat :| q == c * Pow(2, shift + 1);
    hide Pow;
    assert q == (2 * c) * p by { Twice(c, p); }
    Twice(d, p);
    assert (2 * c + 1) * p == (2 * c) * p + p;
    Spread(q, p, d);
    Commutes(d, p);
  }

  lemma Twice(c: nat, p: nat)
    ensures c * (2 * p) == (2 * c) * p == 2 * (c * p)
  {
  }

  lemma DividingEnd(x: nat, d: nat, q: nat, r: nat)
    requires Dividing(x, d, q, r, -1)
    ensures 0 < d && q == x / d && r == x % d
  {
    assert Pow(2, 0) == 1;
    ModUnique(x, d, q, r);
  }

  /** Halving the aligned divisor steps to the next bit. */
  lemma Halved(d: nat, shift: nat)
    requires 0 < shift
    ensures Pow(2, 1) == 2 && (d * Pow(2, shift)) / 2 == d * Pow(2, shift - 1)
  {
    assert Pow(2, shift) == 2 * Pow(2, shift - 1);
    Twice(d, Pow(2, shift - 1));
  }

  /** The bits below the current one are still clear in the quotient's limb. */
  lemma QuotientLimb(s: seq<Limb>, shift: nat, c: nat)
    requires shift / 32 < |s| && Num(s) == c * Pow(2, shift + 1)
    ensures Multiple(s[shift / 32], Pow(2, shift % 32 + 1))
  {
    hide Num, Pow;
    var l, n := shift / 32, shift % 32;
    var p, z := Pow(BASE, l), Pow(2, n + 1);
    BaseIsBits(l);
    PowAdd(2, 32 * l, n + 1);
    NumSplitAt(s, l);
    NumBound(s[..l]);
    PowPositive(BASE, l);
    LowPartClear(Num(s[..l]), p, Num(s[l..]), c, z);
    NumSplitAt(s[l..], 1);
    assert s[l..][..1] == [s[l]];
    OneLimb(s[l]);
    FirstPower();
    SplitBase(n + 1);
    LimbMultiple(s[l], Num(s[l..][1..]), c, z, Pow(2, 31 - n));
  }

  lemma FirstPower()
    ensures Pow(BASE, 1) == BASE
  {
  }

  lemma LowPartClear(low: nat, p: nat, high: nat, c: nat, z: nat)
    requires low < p && low + p * high == c * (p * z)
    ensures high == c * z
  {
    calc {
      c * (p * z);
      { Commutes(p, z); MulAssociates(c, z, p); }
      (c * z) * p;
    }
    Commutes(p, high);
    ModUnique(low + p * high, p, high, low);
    ModUnique(low + p * high, p, c * z, 0);
  }

  lemma LimbMultiple(x: nat, rest: nat, c: nat, z: nat, w: nat)
    requires x + BASE * rest == c * z && z * w == BASE
    ensures Multiple(x, z)
  {
    assert BASE * rest == (w * rest) * z by {
      MulAssociates(z, w, rest);
      Commutes(z, w * rest);
    }
    assert x == (c - w * rest) * z by { Spread(c, -(w * rest), z); Negates(w * rest, z); }
    if c < w * rest {
      Below(c, w * rest, z);
    }
  }

  lemma Negates(a: int, z: int)
    ensures (-a) * z == -(a * z)
  {
  }

  /** Setting the current bit adds it. */
  lemma SetBit(s: seq<Limb>, shift: nat)
    requires shift / 32 < |s|
    requires Multiple(s[shift / 32], Pow(2, shift % 32 + 1))
    ensures BitOr(s[shift / 32], Pow(2, shift % 32)) < BASE
    ensures Num(s[shift / 32 := BitOr(s[shift / 32], Pow(2, shift % 32))]) == Num(s) + Pow(2, shift)
  {
    var l, n := shift / 32, shift % 32;
    var k: nat :| s[l] == k * Pow(2, n + 1);
    assert Pow(2, n + 1) == 2 * Pow(2, n);
    PowPositive(2, n);
    hide Num, Pow, BitOr;
    OrDisjoint(k, Pow(2, n), n + 1);
    SplitBase(n + 1);
    MultipleRoom(k, Pow(2, n + 1), Pow(2, 31 - n), Pow(2, n));
    NumUpdate(s, l, s[l] + Pow(2, n));
    ShiftAmount(shift);
  }
}
