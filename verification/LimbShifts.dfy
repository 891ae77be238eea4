/** What shifting limb by limb does to the number. */
module LimbShifts {
  import opened Radix
  import opened Limbs

  /** The part of limb x that a left shift by s moves into the next limb. */
  function Upper(x: Limb, s: nat): Limb
    requires s <= 32
  {
    ShiftRight(x, 32 - s)
  }

  /** The part of limb x that a right shift by s moves into the limb below. */
  function Lower(x: Limb, s: nat): Limb
    requires s <= 32
  {
    ShiftLeft(x, 32 - s)
  }

  // ---- Left --------------------------------------------------------------------------------

  function UpperBefore(a: seq<Limb>, i: nat, s: nat): Limb
    requires i <= |a| && s <= 32
  {
    if i == 0 then 0 else Upper(a[i - 1], s)
  }

  /** Limb t of a shifted left by k limbs and s bits. */
  ghost predicate LeftLimb(a: seq<Limb>, k: nat, s: nat, t: nat, x: nat)
    requires s <= 32
  {
    if t < k then x == 0
    else t - k < |a| && x == ShiftLeft(a[t - k], s) + UpperBefore(a, t - k, s)
  }

  lemma LeftOr(a: seq<Limb>, i: nat, s: nat)
    requires i < |a| && s < 32
    ensures BitOr(UpperBefore(a, i, s), ShiftLeft(a[i], s)) == ShiftLeft(a[i], s) + UpperBefore(a, i, s) < BASE
  {
    hide Pow, ShiftLeft, ShiftRight, BitOr;
    ShiftLeftSplits(a[i], s);
    var k: nat :| ShiftLeft(a[i], s) == k * Pow(2, s);
    var y := UpperBefore(a, i, s);
    PowPositive(2, s);
    if i > 0 {
      ShiftLeftSplits(a[i - 1], s);
    }
    OrDisjoint(k, y, s);
    SplitBase(s);
    MultipleRoom(k, Pow(2, s), Pow(2, 32 - s), y);
  }

  /** A multiple of p below p * q leaves room for anything below p. */
  lemma MultipleRoom(k: nat, p: nat, q: nat, y: nat)
    requires k * p < p * q && y < p
    ensures k * p + y < p * q
  {
    Commutes(p, q);
    if k >= q {
      MulMonotone(q, p, k, p);
    } else {
      Below(k, q, p);
    }
  }

  lemma {:induction false} LeftPartial(a: seq<Limb>, f: seq<Limb>, k: nat, s: nat, i: nat)
    requires s < 32 && i <= |a| && i + k <= |f|
    requires forall t :: 0 <= t < |f| ==> LeftLimb(a, k, s, t, f[t])
    ensures Num(f[..i + k]) + UpperBefore(a, i, s) * Pow(BASE, i + k) == Pow(2, s) * Pow(BASE, k) * Num(a[..i])
  {
    hide Num, Pow, ShiftLeft, ShiftRight;
    if i == 0 {
      NumZeros(f[..k]);
      assert a[..0] == [];
      NumZeros(a[..0]);
    } else {
      var t := i - 1 + k;
      LeftPartial(a, f, k, s, i - 1);
      NumNext(f, t);
      NumNext(a, i - 1);
      assert LeftLimb(a, k, s, t, f[t]);
      ShiftLeftSplits(a[i - 1], s);
      PowAdd(BASE, k, i - 1);
      PowNext(t);
      LeftStep(Num(f[..t]), UpperBefore(a, i - 1, s), ShiftLeft(a[i - 1], s), Upper(a[i - 1], s), a[i - 1],
               Pow(2, s), Pow(BASE, k), Pow(BASE, i - 1), Pow(BASE, t), Num(a[..i - 1]));
    }
  }

  lemma PowNext(t: nat)
    ensures Pow(BASE, t + 1) == BASE * Pow(BASE, t)
  {
  }

  lemma LeftStep(low: nat, before: nat, kept: nat, moved: nat, x: nat, z: nat, q: nat, r: nat, p: nat, v: nat)
    requires low + before * p == z * q * v
    requires x * z == kept + BASE * moved && p == q * r
    ensures low + (kept + before) * p + moved * (BASE * p) == z * q * (v + x * r)
  {
    Spread(kept, before, p);
    MovedUp(kept, moved, x * z, p);
    Placed(z, q, v, x, r);
  }

  lemma MovedUp(kept: nat, moved: nat, y: nat, p: nat)
    requires y == kept + BASE * moved
    ensures kept * p + moved * (BASE * p) == y * p
  {
    Spread(kept, BASE * moved, p);
    MulAssociates(moved, BASE, p);
  }

  lemma Placed(z: nat, q: nat, v: nat, x: nat, r: nat)
    ensures z * q * (v + x * r) == z * q * v + (x * z) * (q * r)
  {
    var a := z * q;
    Commutes(a, v + x * r);
    Spread(v, x * r, a);
    Commutes(v, a);
    FourProduct(x, r, z, q);
    Commutes(r, q);
  }

  lemma FourProduct(a: nat, b: nat, c: nat, d: nat)
    ensures (a * b) * (c * d) == (a * c) * (b * d)
  {
    calc {
      (a * b) * (c * d);
      { MulAssociates(a, b, c * d); }
      a * (b * (c * d));
      { MulAssociates(b, c, d); Commutes(b, c); MulAssociates(c, b, d); }
      a * (c * (b * d));
      { MulAssociates(a, c, b * d); }
      (a * c) * (b * d);
    }
  }

  /** The bits of a shift in limbs and bits. */
  lemma ShiftAmount(shift: nat)
    ensures Pow(2, shift % 32) * Pow(BASE, shift / 32) == Pow(2, shift)
  {
    hide Pow;
    BaseIsBits(shift / 32);
    PowAdd(2, shift % 32, 32 * (shift / 32));
  }

  // ---- Right -------------------------------------------------------------------------------

  /** Limb t of a shifted right by k limbs and s bits. */
  ghost predicate RightLimb(a: seq<Limb>, k: nat, s: nat, t: nat, x: nat)
    requires s <= 32
  {
    if t + k >= |a| then x == 0
    else x == ShiftRight(a[t + k], s) + (if t + k + 1 < |a| then Lower(a[t + k + 1], s) else 0)
  }

  lemma RightOr(x: Limb, y: Limb, s: nat)
    requires s < 32
    ensures BitOr(ShiftRight(x, s), Lower(y, s)) == ShiftRight(x, s) + Lower(y, s) < BASE
  {
    hide Pow, ShiftLeft, ShiftRight, BitOr;
    ShiftLeftSplits(y, 32 - s);
    var k: nat :| ShiftLeft(y, 32 - s) == k * Pow(2, 32 - s);
    ShiftLeftSplits(x, 32 - s);
    assert 32 - (32 - s) == s;
    OrDisjoint(k, ShiftRight(x, s), 32 - s);
    SplitBase(s);
    Commutes(Pow(2, s), Pow(2, 32 - s));
    MultipleRoom(k, Pow(2, 32 - s), Pow(2, s), ShiftRight(x, s));
  }

  /** The first m limbs of the result, the top one without the bits of the limb after. */
  ghost function RightTop(a: seq<Limb>, f: seq<Limb>, k: nat, s: nat, m: nat): nat
    requires s < 32 && 0 < m && m + k <= |a| && m <= |f|
  {
    Num(f[..m - 1]) + ShiftRight(a[k + m - 1], s) * Pow(BASE, m - 1)
  }

  /** The result so far times 2^s, with the bits shifted out, is the number so far. */
  ghost predicate RightHolds(a: seq<Limb>, f: seq<Limb>, k: nat, s: nat, m: nat)
    requires s < 32 && 0 < m && m + k <= |a| == |f|
  {
    && 0 < Pow(2, s)
    && Num(a[k..k + m]) == Pow(2, s) * RightTop(a, f, k, s, m) + a[k] % Pow(2, s)
  }

  lemma RightFirst(a: seq<Limb>, f: seq<Limb>, k: nat, s: nat)
    requires s < 32 && k < |a| == |f|
    ensures RightHolds(a, f, k, s, 1)
  {
    PowPositive(2, s);
    hide Num, Pow, ShiftLeft;
    assert a[k..k + 1] == [a[k]];
    OneLimb(a[k]);
    assert f[..0] == [];
    NumZeros(f[..0]);
    PowZero();
  }

  lemma RightTopNext(a: seq<Limb>, f: seq<Limb>, k: nat, s: nat, m: nat)
    requires s < 32 && 1 < m && m + k <= |a| == |f|
    requires RightLimb(a, k, s, m - 2, f[m - 2])
    ensures RightTop(a, f, k, s, m)
         == Num(f[..m - 2]) + (ShiftRight(a[k + m - 2], s) + Lower(a[k + m - 1], s)) * Pow(BASE, m - 2)
            + ShiftRight(a[k + m - 1], s) * (BASE * Pow(BASE, m - 2))
  {
    hide Num, Pow, ShiftLeft, ShiftRight;
    NumNext(f, m - 2);
    PowNext(m - 2);
  }

  lemma NumberNext(a: seq<Limb>, k: nat, m: nat)
    requires 1 < m && m + k <= |a|
    ensures Num(a[k..k + m]) == Num(a[k..k + m - 1]) + a[k + m - 1] * (BASE * Pow(BASE, m - 2))
  {
    hide Num, Pow;
    assert a[k..k + m][..m - 1] == a[k..k + m - 1];
    NumNext(a[k..k + m], m - 1);
    assert a[k..k + m][..m] == a[k..k + m];
    PowNext(m - 2);
  }

  lemma RightNext(a: seq<Limb>, f: seq<Limb>, k: nat, s: nat, m: nat)
    requires s < 32 && 1 < m && m + k <= |a| == |f|
    requires RightLimb(a, k, s, m - 2, f[m - 2]) && RightHolds(a, f, k, s, m - 1)
    ensures RightHolds(a, f, k, s, m)
  {
    hide Num, Pow, ShiftLeft, ShiftRight, RightLimb;
    var x := a[k + m - 1];
    NumberNext(a, k, m);
    RightTopNext(a, f, k, s, m);
    ShiftLeftSplits(x, 32 - s);
    assert 32 - (32 - s) == s;
    SplitBase(s);
    RightStep(Num(f[..m - 2]), ShiftRight(a[k + m - 2], s), Lower(x, s), ShiftRight(x, s), x,
              Pow(2, s), Pow(2, 32 - s), Pow(BASE, m - 2), Num(a[k..k + m - 1]), a[k] % Pow(2, s));
  }

  lemma {:induction false} RightPartial(a: seq<Limb>, f: seq<Limb>, k: nat, s: nat, m: nat)
    requires s < 32 && 0 < m && m + k <= |a| == |f|
    requires forall t :: 0 <= t < |f| ==> RightLimb(a, k, s, t, f[t])
    ensures RightHolds(a, f, k, s, m)
  {
    hide RightHolds, RightLimb;
    if m == 1 {
      RightFirst(a, f, k, s);
    } else {
      RightPartial(a, f, k, s, m - 1);
      RightNext(a, f, k, s, m);
    }
  }

  lemma OneLimb(x: nat)
    ensures Num([x]) == x
  {
    assert [x][..0] == [];
  }

  lemma PowZero()
    ensures Pow(BASE, 0) == 1
  {
  }

  lemma RightStep(low: nat, top: nat, down: nat, next: nat, x: nat, z: nat, w: nat, p: nat, v: nat, rem: nat)
    requires v == z * (low + top * p) + rem
    requires x * w == down + BASE * next && z * w == BASE
    ensures v + x * (BASE * p) == z * (low + (top + down) * p + next * (BASE * p)) + rem
  {
    Spread(top, down, p);
    MovedUp(down, next, x * w, p);
    var y := (x * w) * p;
    assert low + (top + down) * p + next * (BASE * p) == (low + top * p) + y;
    Commutes(z, (low + top * p) + y);
    Spread(low + top * p, y, z);
    Commutes(low + top * p, z);
    assert y * z == x * (BASE * p) by { Regrouped(x, w, p, z); }
  }

  lemma Regrouped(x: nat, w: nat, p: nat, z: nat)
    requires z * w == BASE
    ensures ((x * w) * p) * z == x * (BASE * p)
  {
    calc {
      ((x * w) * p) * z;
      { MulAssociates(x, w, p); MulAssociates(x, w * p, z); }
      x * ((w * p) * z);
      { Commutes(w * p, z); MulAssociates(z, w, p); }
      x * ((z * w) * p);
    }
  }

  // ---- The loops ---------------------------------------------------------------------------

  lemma NothingMoves(x: Limb)
    ensures Upper(x, 0) == 0 && Lower(x, 0) == 0
  {
    TwoTo32();
    hide Pow;
    Commutes(x, BASE);
    ModUnique(x * BASE, BASE, x, 0);
    ModUnique(x, BASE, 0, x);
  }

  /** Limb t after i limbs of the left shift. */
  ghost function LeftState(a: seq<Limb>, k: nat, s: nat, i: nat, t: nat): nat
    requires i <= |a| && s <= 32
  {
    if t < k || t > k + i then 0
    else if t == k + i then UpperBefore(a, i, s)
    else ShiftLeft(a[t - k], s) + UpperBefore(a, t - k, s)
  }

  ghost predicate LeftDone(a: seq<Limb>, k: nat, s: nat, i: nat, now: seq<Limb>)
    requires i <= |a| && s <= 32
  {
    |now| == |a| && forall t :: 0 <= t < |now| ==> now[t] == LeftState(a, k, s, i, t)
  }

  lemma LeftAll(a: seq<Limb>, k: nat, s: nat, now: seq<Limb>)
    requires s <= 32 && LeftDone(a, k, s, |a|, now)
    ensures forall t :: 0 <= t < |now| ==> LeftLimb(a, k, s, t, now[t])
  {
    hide ShiftLeft, ShiftRight;
  }

  lemma LeftHigh(a: seq<Limb>, k: nat, s: nat, i: nat, now: seq<Limb>)
    requires i < |a| && s < 32 && LeftDone(a, k, s, i, now)
    ensures i + k + 1 < |a| ==> BitOr(now[i + k + 1], Upper(a[i], s)) == Upper(a[i], s)
    ensures i + k < |a| ==>
      BitOr(now[i + k], ShiftLeft(a[i], s)) == ShiftLeft(a[i], s) + UpperBefore(a, i, s) < BASE
    ensures s == 0 ==> Upper(a[i], s) == 0
  {
    hide ShiftLeft, ShiftRight, BitOr, Upper;
    OrZero(Upper(a[i], s));
    NothingMoves(a[i]);
    LeftOr(a, i, s);
  }

  /** Limb t after i limbs of the right shift. */
  ghost function RightState(a: seq<Limb>, k: nat, s: nat, i: nat, t: nat): nat
    requires i <= |a| && s <= 32
  {
    if t + k >= i then 0
    else ShiftRight(a[t + k], s) + (if t + k + 1 < i then Lower(a[t + k + 1], s) else 0)
  }

  ghost predicate RightDone(a: seq<Limb>, k: nat, s: nat, i: nat, now: seq<Limb>)
    requires i <= |a| && s <= 32
  {
    |now| == |a| && forall t :: 0 <= t < |now| ==> now[t] == RightState(a, k, s, i, t)
  }

  lemma RightAll(a: seq<Limb>, k: nat, s: nat, now: seq<Limb>)
    requires s <= 32 && RightDone(a, k, s, |a|, now)
    ensures forall t :: 0 <= t < |now| ==> RightLimb(a, k, s, t, now[t])
  {
    hide ShiftLeft, ShiftRight;
  }

  lemma RightLow(a: seq<Limb>, k: nat, s: nat, i: nat, now: seq<Limb>)
    requires i < |a| && s < 32 && RightDone(a, k, s, i, now)
    ensures i - k - 1 >= 0 ==>
      BitOr(now[i - k - 1], Lower(a[i], s)) == ShiftRight(a[i - 1], s) + Lower(a[i], s) < BASE
    ensures i - k >= 0 ==> BitOr(now[i - k], ShiftRight(a[i], s)) == ShiftRight(a[i], s)
    ensures s == 0 ==> Lower(a[i], s) == 0
  {
    hide ShiftLeft, ShiftRight, BitOr, Lower;
    OrZero(ShiftRight(a[i], s));
    NothingMoves(a[i]);
    if i - k - 1 >= 0 {
      RightOr(a[i - 1], a[i], s);
    }
  }
}
