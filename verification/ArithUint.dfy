/**
 * Fixed-width unsigned integers over an array of 32-bit limbs. Each operator updates the limbs in
 * place; its contract gives the new number modulo 2^(32 * width).
 */
module ArithUint {
  import opened Radix
  import opened Limbs
  import opened LimbShifts
  import opened LimbDivision

  /** Numbers of n limbs lie below this. */
  function Modulus(n: nat): (m: nat)
    ensures 0 < m
  {
    PowPositive(BASE, n);
    Pow(BASE, n)
  }

  /** x modulo 2^(32 * n). */
  function Reduced(x: int, n: nat): nat { x % Modulus(n) }

  /** After i limbs of a carry loop: the limbs written so far and the carry make up the target. */
  ghost predicate Carrying(now: seq<Limb>, i: nat, carry: nat, target: nat) {
    i <= |now| && Num(now[..i]) + carry * Pow(BASE, i) == target
  }

  lemma CarryingStart(now: seq<Limb>)
    ensures Carrying(now, 0, 0, 0)
  {
    assert now[..0] == [];
  }

  lemma CarryingNext(now: seq<Limb>, i: nat, carry: nat, target: nat, y: nat)
    requires i < |now| && Carrying(now, i, carry, target)
    ensures
      var n := carry + y;
      Carrying(now[i := n % BASE], i + 1, n / BASE, target + y * Pow(BASE, i))
  {
    hide Num;
    var n := carry + y;
    var next := now[i := n % BASE];
    assert next[..i] == now[..i];
    NumNext(next, i);
    DigitStep(Num(now[..i]), carry, Pow(BASE, i), target, y);
  }

  lemma CarryingEnd(now: seq<Limb>, carry: nat, target: nat)
    requires Carrying(now, |now|, carry, target)
    ensures Num(now) == Reduced(target, |now|)
  {
    hide Num, Pow;
    assert now[..|now|] == now;
    NumBound(now);
    DropCarry(Num(now), carry, Pow(BASE, |now|), target);
  }

  class BaseUint {
    const pn: array<Limb>

    ghost function Value(): nat
      reads this, pn
    {
      Num(pn[..])
    }

    constructor (width: nat)
      ensures fresh(pn) && pn.Length == width && Value() == 0
    {
      pn := new Limb[width](i => 0);
      new;
      NumZeros(pn[..]);
    }

    constructor Copy(b: BaseUint)
      ensures fresh(pn) && pn[..] == b.pn[..]
    {
      pn := new Limb[b.pn.Length](i => 0);
      new;
      for i := 0 to pn.Length
        modifies pn
        invariant pn[..i] == b.pn[..i]
      {
        pn[i] := b.pn[i];
      }
      assert pn[..] == pn[..pn.Length] && b.pn[..] == b.pn[..pn.Length];
    }

    method Add(b: BaseUint)
      requires b.pn.Length == pn.Length
      modifies pn
      ensures Value() == Reduced(old(Value()) + old(b.Value()), pn.Length)
    {
      hide Num, Pow, Carrying;
      ghost var x, y := pn[..], b.pn[..];
      var carry := 0;
      CarryingStart(pn[..]);
      assert x[..0] == [] && y[..0] == [];
      EmptyNum();
      for i := 0 to pn.Length
        modifies pn
        invariant 0 <= carry
        invariant pn[i..] == x[i..] && b.pn[i..] == y[i..]
        invariant Carrying(pn[..], i, carry, Num(x[..i]) + Num(y[..i]))
      {
        assert pn[i] == pn[i..][0] == x[i] && b.pn[i] == b.pn[i..][0] == y[i];
        var u: nat, v: nat := pn[i], b.pn[i];
        var n := carry + u + v;
        CarryingNext(pn[..], i, carry, Num(x[..i]) + Num(y[..i]), u + v);
        SumNext(x, y, i);
        pn[i] := n % BASE;
        carry := n / BASE;
        assert pn[i + 1..] == x[i..][1..] && b.pn[i + 1..] == y[i..][1..];
      }
      CarryingEnd(pn[..], carry, Num(x) + Num(y)) by {
        assert x[..|x|] == x && y[..|y|] == y;
      }
    }

    method Increment()
      modifies pn
      ensures Value() == Reduced(old(Value()) + 1, pn.Length)
    {
      hide Num, Pow, Carrying, Modulus;
      ghost var x := pn[..];
      var i := 0;
      CarryingOne(x);
      while i < pn.Length
        modifies pn
        invariant 0 <= i <= pn.Length
        invariant pn[i..] == x[i..]
        invariant Carrying(pn[..], i, 1, Num(x[..i]) + 1)
      {
        assert pn[i] == pn[i..][0] == x[i];
        CarryingNext(pn[..], i, 1, Num(x[..i]) + 1, x[i]);
        NumNext(x, i);
        pn[i] := (pn[i] + 1) % BASE;
        assert pn[i + 1..] == x[i + 1..] by {
          assert pn[i + 1..] == x[i..][1..];
        }
        if pn[i] != 0 {
          CarryingStop(pn[..], x, i + 1, 1);
          return;
        }
        i := i + 1;
      }
      assert x[..|x|] == x;
      CarryingEnd(pn[..], 1, Num(x) + 1);
    }

    method Decrement()
      modifies pn
      ensures Value() == Reduced(old(Value()) - 1, pn.Length)
    {
      hide Num, Pow, Borrowing, Modulus;
      ghost var x := pn[..];
      var i := 0;
      BorrowingStart(x);
      while i < pn.Length
        modifies pn
        invariant 0 <= i <= pn.Length
        invariant pn[i..] == x[i..]
        invariant Borrowing(pn[..], x, i)
      {
        assert pn[i] == pn[i..][0] == x[i];
        BorrowingNext(pn[..], x, i);
        pn[i] := (pn[i] - 1) % BASE;
        assert pn[i + 1..] == x[i + 1..] by {
          assert pn[i + 1..] == x[i..][1..];
        }
        if pn[i] != BASE - 1 {
          BorrowingStop(pn[..], x, i + 1);
          return;
        }
        i := i + 1;
      }
      BorrowingEnd(pn[..], x);
    }

    method Negated() returns (ret: BaseUint)
      ensures fresh(ret) && fresh(ret.pn) && ret.pn.Length == pn.Length
      ensures ret.Value() == Reduced(0 - Value(), pn.Length)
    {
      hide Num, Pow, Modulus;
      ret := new BaseUint(pn.Length);
      for i := 0 to pn.Length
        modifies ret.pn
        invariant forall j :: 0 <= j < i ==> ret.pn[j] == BASE - 1 - pn[j]
      {
        ret.pn[i] := BASE - 1 - pn[i];
      }
      NumComplement(pn[..], ret.pn[..]);
      ghost var v := Num(ret.pn[..]);
      ret.Increment();
      ModAddMultiple(0 - Value(), 1, Modulus(pn.Length));
    }

    method Subtract(b: BaseUint)
      requires b.pn.Length == pn.Length
      modifies pn
      ensures Value() == Reduced(old(Value()) - old(b.Value()), pn.Length)
    {
      hide Num, Pow, Modulus;
      ghost var x, y: int := Value(), b.Value();
      var negative := b.Negated();
      Add(negative);
      ModAddMod(0 - y, x, Modulus(pn.Length));
    }

    method MultiplySmall(b32: Limb)
      modifies pn
      ensures Value() == Reduced(old(Value()) * b32, pn.Length)
    {
      hide Num, Pow, Carrying, Modulus;
      ghost var x := pn[..];
      var carry := 0;
      CarryingStart(pn[..]);
      assert x[..0] == [];
      EmptyNum();
      for i := 0 to pn.Length
        modifies pn
        invariant 0 <= carry
        invariant pn[i..] == x[i..]
        invariant Carrying(pn[..], i, carry, Num(x[..i]) * b32)
      {
        assert pn[i] == pn[i..][0] == x[i];
        var u: nat := b32;
        var n := carry + u * pn[i];
        CarryingNext(pn[..], i, carry, Num(x[..i]) * b32, u * x[i]);
        NumNext(x, i);
        ScaleNext(Num(x[..i]), x[i], Pow(BASE, i), b32);
        pn[i] := n % BASE;
        carry := n / BASE;
        assert pn[i + 1..] == x[i..][1..];
      }
      assert x[..|x|] == x;
      CarryingEnd(pn[..], carry, Num(x) * b32);
    }

    /** Adds m * b, shifted up by j limbs; no intermediate sum exceeds 64 bits. */
    method AddRow(m: Limb, j: nat, b: BaseUint)
      requires j <= pn.Length == b.pn.Length && b.pn != pn
      modifies pn
      ensures Value() == Reduced(old(Value()) + m * Pow(BASE, j) * b.Value(), pn.Length)
    {
      hide Num, Pow, Carrying, Modulus, RowTarget;
      ghost var x, y := pn[..], b.pn[..];
      var carry: nat := 0;
      RowStart(x, y, j, m);
      var i := 0;
      while i + j < pn.Length
        modifies pn
        invariant 0 <= i && i + j <= pn.Length
        invariant pn[i + j..] == x[i + j..]
        invariant carry < BASE
        invariant Carrying(pn[..], i + j, carry, RowTarget(x, y, j, m, i))
      {
        assert pn[i + j] == pn[i + j..][0] == x[i + j];
        var u: nat, v: nat, w: nat := pn[i + j], m, b.pn[i];
        FitsIn64(carry, u, v, w);
        var n := carry + u + v * w;
        assert n < BASE * BASE;
        CarryingNext(pn[..], i + j, carry, RowTarget(x, y, j, m, i), u + v * w);
        RowNext(x, y, j, m, i);
        pn[i + j] := n % BASE;
        carry := n / BASE;
        assert pn[i + j + 1..] == x[i + j..][1..];
        i := i + 1;
      }
      CarryingEnd(pn[..], carry, RowTarget(x, y, j, m, i));
      RowEnd(x, y, j, m, i);
    }

    method Multiply(b: BaseUint)
      requires b.pn.Length == pn.Length
      modifies pn
      ensures Value() == Reduced(old(Value()) * old(b.Value()), pn.Length)
    {
      hide Num, Pow, Modulus;
      ghost var x, y := pn[..], b.Value();
      var a := new BaseUint(pn.Length);
      assert x[..0] == [];
      EmptyNum();
      ZeroReduced(pn.Length);
      for j := 0 to pn.Length
        modifies a.pn
        invariant a.Value() == Reduced(Num(x[..j]) * y, pn.Length)
      {
        ghost var was := a.Value();
        a.AddRow(pn[j], j, b);
        ProductNext(x, j, y, was, pn.Length);
      }
      assert x[..|x|] == x;
      Assign(a);
    }

    method Assign(b: BaseUint)
      requires b.pn.Length == pn.Length
      modifies pn
      ensures pn[..] == old(b.pn[..])
    {
      ghost var y := b.pn[..];
      for i := 0 to pn.Length
        modifies pn
        invariant pn[..i] == y[..i] && b.pn[i..] == y[i..]
      {
        assert b.pn[i] == b.pn[i..][0] == y[i];
        pn[i] := b.pn[i];
        assert b.pn[i + 1..] == y[i..][1..];
      }
      assert pn[..] == pn[..pn.Length] && y == y[..pn.Length];
    }

    method AssignSmall(b: nat)
      requires b < BASE * BASE && pn.Length >= 2
      modifies pn
      ensures Value() == b
    {
      hide Num, Pow;
      pn[0] := b % BASE;
      pn[1] := b / BASE;
      for i := 2 to pn.Length
        modifies pn
        invariant pn[0] == b % BASE && pn[1] == b / BASE
        invariant forall t :: 2 <= t < i ==> pn[t] == 0
      {
        pn[i] := 0;
      }
      LowLimbs(pn[..]);
      NumZeros(pn[2..]);
    }

    method GetLow64() returns (r: nat)
      requires pn.Length >= 2
      ensures r == Reduced(Value(), 2)
    {
      hide Num, Pow, Reduced, Modulus;
      r := pn[0] as nat + BASE * pn[1] as nat;
      LowLimbs(pn[..]);
    }

    method Clear()
      modifies pn
      ensures forall t :: 0 <= t < pn.Length ==> pn[t] == 0
    {
      for i := 0 to pn.Length
        modifies pn
        invariant forall t :: 0 <= t < i ==> pn[t] == 0
      {
        pn[i] := 0;
      }
    }

    method LeftShift(shift: nat)
      modifies pn
      ensures Value() == Reduced(old(Value()) * Pow(2, shift), pn.Length)
    {
      hide Num, Pow, ShiftLeft, ShiftRight, BitOr, Upper, Reduced, UpperBefore;
      var a := pn[..];
      Clear();
      var k, s := shift / 32, shift % 32;
      assert UpperBefore(a, 0, s) == 0 by { NoneBefore(a, s); }
      for i := 0 to |a|
        modifies pn
        invariant LeftDone(a, k, s, i, pn[..])
      {
        LeftHigh(a, k, s, i, pn[..]);
        UpperNext(a, i, s);
        if i + k + 1 < pn.Length && s != 0 {
          pn[i + k + 1] := BitOr(pn[i + k + 1], Upper(a[i], s));
        }
        if i + k < pn.Length {
          pn[i + k] := BitOr(pn[i + k], ShiftLeft(a[i], s));
        }
      }
      LeftAll(a, k, s, pn[..]);
      LeftValue(a, pn[..], shift);
    }

    method RightShift(shift: nat)
      modifies pn
      ensures 0 < Pow(2, shift) && Value() == old(Value()) / Pow(2, shift)
    {
      hide Num, Pow, ShiftLeft, ShiftRight, BitOr, Lower;
      var a := pn[..];
      Clear();
      var k, s := shift / 32, shift % 32;
      for i := 0 to |a|
        modifies pn
        invariant RightDone(a, k, s, i, pn[..])
      {
        RightLow(a, k, s, i, pn[..]);
        if i - k - 1 >= 0 && s != 0 {
          pn[i - k - 1] := BitOr(pn[i - k - 1], Lower(a[i], s));
        }
        if i - k >= 0 {
          pn[i - k] := BitOr(pn[i - k], ShiftRight(a[i], s));
        }
      }
      RightAll(a, k, s, pn[..]);
      RightValue(a, pn[..], shift);
    }

    /** -1, 0 or 1 as the number is below, equal to or above b's. */
    method CompareTo(b: BaseUint) returns (r: int)
      requires b.pn.Length == pn.Length
      ensures r == if Value() < b.Value() then -1 else if Value() > b.Value() then 1 else 0
    {
      hide Num, Pow;
      ghost var n := pn.Length;
      var i := pn.Length;
      while i > 0
        invariant 0 <= i <= n
        invariant pn[i..] == b.pn[i..]
      {
        i := i - 1;
        if pn[i] < b.pn[i] {
          TopDecides(pn[..], b.pn[..], i);
          return -1;
        }
        if pn[i] > b.pn[i] {
          TopDecides(b.pn[..], pn[..], i);
          return 1;
        }
        assert pn[i..] == [pn[i]] + pn[i + 1..] && b.pn[i..] == [b.pn[i]] + b.pn[i + 1..];
      }
      assert pn[..] == pn[0..] && b.pn[..] == b.pn[0..];
      return 0;
    }

    method Bits() returns (r: nat)
      ensures BitLength(Value(), r)
    {
      hide Num, Pow, BitLength, BitSet;
      var pos := pn.Length;
      while pos > 0
        invariant 0 <= pos <= pn.Length
        invariant forall i :: pos <= i < pn.Length ==> pn[i] == 0
      {
        pos := pos - 1;
        if pn[pos] != 0 {
          var nbits := 31;
          LimbBits(pn[pos]);
          while nbits > 0
            invariant 0 <= nbits <= 31
            invariant 0 < pn[pos] < Pow(2, nbits + 1)
          {
            TopBit(pn[pos], nbits);
            if BitSet(pn[pos], nbits) {
              TopLimb(pn[..], pos, nbits);
              return 32 * pos + nbits + 1;
            }
            nbits := nbits - 1;
          }
          OneBit(pn[pos]);
          TopLimb(pn[..], pos, 0);
          return 32 * pos + 1;
        }
      }
      NumZeros(pn[..]);
      NoBits();
      return 0;
    }

    /** Division by zero fails, and has already cleared the quotient. */
    method Divide(b: BaseUint) returns (ok: bool)
      requires b.pn.Length == pn.Length
      modifies pn
      ensures ok <==> old(b.Value()) != 0
      ensures ok ==> Value() == old(Value()) / old(b.Value())
      ensures !ok ==> Value() == 0
    {
      hide Num, Pow, BitLength, Dividing, Reduced, Modulus;
      ghost var x, d := Value(), b.Value();
      var div := new BaseUint.Copy(b);
      var num := new BaseUint.Copy(this);
      Clear();
      NumZeros(pn[..]);
      var numBits := num.Bits();
      var divBits := div.Bits();
      LengthZero(d, divBits);
      if divBits == 0 {
        return false;
      }
      ok := true;
      if divBits > numBits {
        Shorter(x, d, numBits, divBits);
        ModUnique(x, d, 0, x);
        return;
      }
      var shift := numBits - divBits;
      NumBound(num.pn[..]);
      LengthFits(x, numBits, pn.Length);
      Aligned(x, d, numBits, divBits);
      div.LeftShift(shift);
      AlignedFits(d, shift, numBits, pn.Length);
      DividingStart(x, d, shift);
      while shift >= 0
        modifies pn, num.pn, div.pn
        invariant -1 <= shift < 32 * pn.Length
        invariant Dividing(x, d, Value(), num.Value(), shift)
        invariant shift >= 0 ==> div.Value() == d * Pow(2, shift)
        decreases shift
      {
        DivideStep(num, div, x, d, shift);
        if shift > 0 {
          Halved(d, shift);
        }
        div.RightShift(1);
        HalfBit();
        shift := shift - 1;
      }
      DividingEnd(x, d, Value(), num.Value());
    }

    /** Subtracts the aligned divisor where it fits and sets that bit of the quotient. */
    method DivideStep(num: BaseUint, div: BaseUint, ghost x: nat, ghost d: nat, shift: nat)
      requires num.pn.Length == div.pn.Length == pn.Length && num.pn != pn && div.pn != pn && num.pn != div.pn
      requires shift < 32 * pn.Length && div.Value() == d * Pow(2, shift)
      requires Dividing(x, d, Value(), num.Value(), shift)
      modifies pn, num.pn
      ensures Dividing(x, d, Value(), num.Value(), shift - 1)
    {
      hide Num, Pow, Dividing, Reduced, Modulus, BitOr, Multiple;
      DividingNext(x, d, Value(), num.Value(), shift);
      var order := num.CompareTo(div);
      if order >= 0 {
        NumBound(num.pn[..]);
        DifferenceFits(num.Value(), div.Value(), pn.Length);
        num.Subtract(div);
        QuotientBit(x, d, pn[..], old(num.Value()), shift);
        SetBit(pn[..], shift);
        pn[shift / 32] := BitOr(pn[shift / 32], Pow(2, shift % 32));
      }
    }
  }

  lemma CarryingOne(x: seq<Limb>)
    ensures Carrying(x, 0, 1, Num(x[..0]) + 1)
  {
    assert x[..0] == [];
  }

  lemma SameTail(now: seq<Limb>, x: seq<Limb>, k: nat)
    requires |now| == |x| && k <= |x| && now[k..] == x[k..]
    ensures Num(now) - Num(x) == Num(now[..k]) - Num(x[..k])
  {
    hide Num, Pow;
    NumSplitAt(now, k);
    NumSplitAt(x, k);
  }

  lemma InRange(v: nat, n: nat)
    requires v < Modulus(n)
    ensures Reduced(v, n) == v
  {
    ModUnique(v, Modulus(n), 0, v);
  }

  /** With the carry spent the limbs above stand as they were. */
  lemma CarryingStop(now: seq<Limb>, x: seq<Limb>, k: nat, d: nat)
    requires |now| == |x| && k <= |x| && Carrying(now, k, 0, Num(x[..k]) + d) && now[k..] == x[k..]
    ensures Num(now) == Num(x) + d == Reduced(Num(x) + d, |x|)
  {
    hide Num, Pow;
    SameTail(now, x, k);
    NumBound(now);
    InRange(Num(now), |x|);
  }

  /** The limbs below i were zero and have wrapped around. */
  ghost predicate Borrowing(now: seq<Limb>, x: seq<Limb>, i: nat) {
    |now| == |x| && i <= |x| && Num(now[..i]) == Num(x[..i]) + Pow(BASE, i) - 1
  }

  lemma BorrowingStart(x: seq<Limb>)
    ensures Borrowing(x, x, 0)
  {
    assert x[..0] == [];
  }

  lemma BorrowingNext(now: seq<Limb>, x: seq<Limb>, i: nat)
    requires i < |x| && Borrowing(now, x, i)
    ensures
      var next := now[i := (x[i] - 1) % BASE];
      if x[i] == 0 then Borrowing(next, x, i + 1) else Num(next[..i + 1]) == Num(x[..i + 1]) - 1
  {
    hide Num;
    var next := now[i := (x[i] - 1) % BASE];
    assert next[..i] == now[..i];
    NumNext(next, i);
    NumNext(x, i);
    if x[i] == 0 {
      Spread(BASE, -1, Pow(BASE, i));
    } else {
      Spread(x[i], -1, Pow(BASE, i));
    }
  }

  lemma BorrowingStop(now: seq<Limb>, x: seq<Limb>, k: nat)
    requires |now| == |x| && k <= |x| && Num(now[..k]) == Num(x[..k]) - 1 && now[k..] == x[k..]
    ensures Num(now) == Reduced(Num(x) - 1, |x|)
  {
    hide Num, Pow;
    SameTail(now, x, k);
    NumBound(now);
    InRange(Num(now), |x|);
  }

  lemma BorrowingEnd(now: seq<Limb>, x: seq<Limb>)
    requires |now| == |x| && Borrowing(now, x, |x|)
    ensures Num(now) == Reduced(Num(x) - 1, |x|)
  {
    hide Num, Pow;
    assert now[..|x|] == now && x[..|x|] == x;
    NumBound(now);
    ModUnique(Num(x) - 1, Modulus(|x|), -1, Num(now));
  }

  lemma {:induction false} NumComplement(x: seq<Limb>, y: seq<Limb>)
    requires |x| == |y| && forall i :: 0 <= i < |x| ==> y[i] == BASE - 1 - x[i]
    ensures Num(x) + Num(y) + 1 == Modulus(|x|)
  {
    if x != [] {
      var n := |x| - 1;
      NumComplement(x[..n], y[..n]);
      Spread(x[n], y[n], Pow(BASE, n));
      Spread(BASE, -1, Pow(BASE, n));
    }
  }

  lemma ScaleNext(v: nat, d: nat, p: nat, m: nat)
    ensures (v + d * p) * m == v * m + (m * d) * p
  {
    Spread(v, d * p, m);
    MulAssociates(m, d, p);
    Commutes(d * p, m);
  }

  /** The highest differing limb decides. */
  lemma TopDecides(x: seq<Limb>, y: seq<Limb>, i: nat)
    requires |x| == |y| && i < |x| && x[i] < y[i] && x[i + 1..] == y[i + 1..]
    ensures Num(x) < Num(y)
  {
    hide Num, Pow;
    assert x == x[..i + 1] + x[i + 1..] && y == y[..i + 1] + y[i + 1..];
    NumAppend(x[..i + 1], x[i + 1..]);
    NumAppend(y[..i + 1], y[i + 1..]);
    NumNext(x, i);
    NumNext(y, i);
    NumBound(x[..i]);
    Below(x[i], y[i], Pow(BASE, i));
  }

  lemma FitsIn64(carry: nat, u: nat, v: nat, w: nat)
    requires carry < BASE && u < BASE && v < BASE && w < BASE
    ensures carry + u + v * w < BASE * BASE
    ensures (carry + u + v * w) / BASE < BASE
  {
    MulMonotone(v, w, BASE - 1, BASE - 1);
    var n := carry + u + v * w;
    assert n < BASE * BASE;
  }

  ghost function Scaled(m: nat, q: nat, v: nat): nat { m * q * v }

  /** What the first i limbs of b add to a row. */
  ghost function RowTarget(x: seq<Limb>, y: seq<Limb>, j: nat, m: nat, i: nat): nat
    requires |x| == |y| && i + j <= |x|
  {
    Num(x[..i + j]) + Scaled(m, Pow(BASE, j), Num(y[..i]))
  }

  lemma RowStart(x: seq<Limb>, y: seq<Limb>, j: nat, m: nat)
    requires |x| == |y| && j <= |x|
    ensures Carrying(x, j, 0, RowTarget(x, y, j, m, 0))
  {
    assert y[..0] == [];
    EmptyNum();
    assert m * Pow(BASE, j) * Num(y[..0]) == 0;
  }

  lemma RowNext(x: seq<Limb>, y: seq<Limb>, j: nat, m: nat, i: nat)
    requires |x| == |y| && i + j < |x|
    ensures RowTarget(x, y, j, m, i + 1) == RowTarget(x, y, j, m, i) + (x[i + j] + m * y[i]) * Pow(BASE, i + j)
  {
    hide Num, Pow;
    NumNext(x, i + j);
    NumNext(y, i);
    PowAdd(BASE, j, i);
    RowStep(m, Pow(BASE, j), Num(y[..i]), y[i], Pow(BASE, i));
    Spread(x[i + j], m * y[i], Pow(BASE, i + j));
  }

  lemma RowStep(m: nat, p: nat, v: nat, d: nat, q: nat)
    ensures m * p * (v + d * q) == m * p * v + (m * d) * (p * q)
  {
    var a := m * p;
    Commutes(a, v + d * q);
    Spread(v, d * q, a);
    Commutes(v, a);
    calc {
      (d * q) * (m * p);
      { Commutes(d * q, m * p); }
      (m * p) * (d * q);
      { FourProduct(m, p, d, q); }
      (m * d) * (p * q);
    }
  }

  /** The limbs of b above the width only add multiples of the modulus. */
  lemma RowEnd(x: seq<Limb>, y: seq<Limb>, j: nat, m: nat, i: nat)
    requires |x| == |y| == i + j
    ensures Reduced(RowTarget(x, y, j, m, i), |x|) == Reduced(Num(x) + Scaled(m, Pow(BASE, j), Num(y)), |x|)
  {
    hide *;
    RowWhole(x, y, j, m, i);
    RowTail(Num(x), y, j, m, i);
  }

  lemma RowWhole(x: seq<Limb>, y: seq<Limb>, j: nat, m: nat, i: nat)
    requires |x| == |y| == i + j
    ensures RowTarget(x, y, j, m, i) == Num(x) + Scaled(m, Pow(BASE, j), Num(y[..i]))
  {
    hide Num, Pow, Scaled;
    assert x[..i + j] == x;
  }

  lemma RowTail(t: nat, y: seq<Limb>, j: nat, m: nat, i: nat)
    requires |y| == i + j
    ensures Reduced(t + Scaled(m, Pow(BASE, j), Num(y[..i])), |y|)
         == Reduced(t + Scaled(m, Pow(BASE, j), Num(y)), |y|)
  {
    hide Num, Pow, Scaled, Reduced;
    NumSplitAt(y, i);
    PowAdd(BASE, j, i);
    RowMod(t, m, Pow(BASE, j), Num(y[..i]), Pow(BASE, i), Num(y[i..]), Num(y), |y|);
  }

  lemma RowMod(t: nat, m: nat, q: nat, v: nat, p: nat, w: nat, total: nat, n: nat)
    requires q * p == Modulus(n) && total == v + p * w
    ensures Reduced(t + Scaled(m, q, v), n) == Reduced(t + Scaled(m, q, total), n)
  {
    hide Modulus, Scaled;
    RowOverflow(m, q, v, p, w, total, Modulus(n));
    ModAddMultiple(t + Scaled(m, q, v), w * m, Modulus(n));
  }

  lemma RowOverflow(m: nat, q: nat, v: nat, p: nat, w: nat, total: nat, modulus: nat)
    requires q * p == modulus && total == v + p * w
    ensures Scaled(m, q, total) == Scaled(m, q, v) + (w * m) * modulus
  {
    var a := m * q;
    Commutes(a, total);
    Spread(v, p * w, a);
    Commutes(v, a);
    Commutes(p, w);
    FourProduct(w, p, m, q);
    Commutes(p, q);
  }

  lemma ZeroReduced(n: nat)
    ensures Reduced(0, n) == 0
  {
    ModUnique(0, Modulus(n), 0, 0);
  }

  lemma ProductNext(x: seq<Limb>, j: nat, y: nat, was: nat, n: nat)
    requires j < |x| && was == Reduced(Num(x[..j]) * y, n)
    ensures Reduced(was + x[j] * Pow(BASE, j) * y, n) == Reduced(Num(x[..j + 1]) * y, n)
  {
    hide Num, Pow, Modulus, Reduced;
    NumNext(x, j);
    Spread(Num(x[..j]), x[j] * Pow(BASE, j), y);
    ReducedAdd(Num(x[..j]) * y, x[j] * Pow(BASE, j) * y, n);
  }

  lemma ReducedAdd(x: int, y: int, n: nat)
    ensures Reduced(Reduced(x, n) + y, n) == Reduced(x + y, n)
  {
    ModAddMod(x, y, Modulus(n));
  }

  lemma NoneBefore(a: seq<Limb>, s: nat)
    requires s <= 32
    ensures UpperBefore(a, 0, s) == 0
  {
  }

  lemma UpperNext(a: seq<Limb>, i: nat, s: nat)
    requires i < |a| && s <= 32
    ensures UpperBefore(a, i + 1, s) == Upper(a[i], s)
  {
  }

  lemma LeftValue(a: seq<Limb>, f: seq<Limb>, shift: nat)
    requires |f| == |a| && forall t :: 0 <= t < |f| ==> LeftLimb(a, shift / 32, shift % 32, t, f[t])
    ensures Num(f) == Reduced(Num(a) * Pow(2, shift), |a|)
  {
    hide Num, Pow, LeftLimb, Reduced, Modulus, Scaled;
    var k, s, n := shift / 32, shift % 32, |a|;
    ShiftAmount(shift);
    ScaledShift(Num(a), Pow(2, s), Pow(BASE, k), Pow(2, shift));
    if k <= n {
      var i := n - k;
      LeftPartial(a, f, k, s, i);
      LeftPartialScaled(a, f, k, s, i);
      CarryingEnd(f, UpperBefore(a, i, s), Scaled(Pow(2, s), Pow(BASE, k), Num(a[..i])));
      RowTail(0, a, k, Pow(2, s), i);
    } else {
      LeftGone(a, f, k, s);
      NumZeros(f);
      PowAdd(BASE, n, k - n);
      BeyondReduced(Pow(2, s), k, Num(a), n);
    }
  }

  lemma LeftGone(a: seq<Limb>, f: seq<Limb>, k: nat, s: nat)
    requires |f| == |a| < k && s < 32 && forall t :: 0 <= t < |f| ==> LeftLimb(a, k, s, t, f[t])
    ensures forall t :: 0 <= t < |f| ==> f[t] == 0
  {
  }

  lemma ScaledShift(v: nat, z: nat, q: nat, w: nat)
    requires z * q == w
    ensures Scaled(z, q, v) == v * w
  {
    Commutes(v, w);
  }

  lemma LeftPartialScaled(a: seq<Limb>, f: seq<Limb>, k: nat, s: nat, i: nat)
    requires s < 32 && |f| == |a| == i + k
    requires Num(f[..i + k]) + UpperBefore(a, i, s) * Pow(BASE, i + k) == Pow(2, s) * Pow(BASE, k) * Num(a[..i])
    ensures Carrying(f, |f|, UpperBefore(a, i, s), Scaled(Pow(2, s), Pow(BASE, k), Num(a[..i])))
  {
    hide Num, Pow, UpperBefore;
  }

  /** A shift past the width leaves nothing. */
  lemma BeyondReduced(z: nat, k: nat, v: nat, n: nat)
    requires n <= k
    ensures Reduced(Scaled(z, Pow(BASE, k), v), n) == 0
  {
    hide Pow, Reduced;
    PowAdd(BASE, n, k - n);
    var q, r := Pow(BASE, n), Pow(BASE, k - n);
    assert Scaled(z, q * r, v) == (z * r * v) * q by { PullOut(z, q, r, v); }
    MultipleReduced(z * r * v, n);
  }

  lemma PullOut(z: nat, q: nat, r: nat, v: nat)
    ensures z * (q * r) * v == (z * r * v) * q
  {
    calc {
      z * (q * r) * v;
      { Commutes(q, r); MulAssociates(z, r, q); }
      (z * r) * q * v;
      { MulAssociates(z * r, q, v); Commutes(q, v); MulAssociates(z * r, v, q); }
      (z * r * v) * q;
    }
  }

  lemma MultipleReduced(c: nat, n: nat)
    ensures Reduced(c * Modulus(n), n) == 0
  {
    ModUnique(c * Modulus(n), Modulus(n), c, 0);
  }

  lemma RightValue(a: seq<Limb>, f: seq<Limb>, shift: nat)
    requires |f| == |a| && forall t :: 0 <= t < |f| ==> RightLimb(a, shift / 32, shift % 32, t, f[t])
    ensures 0 < Pow(2, shift) && Num(f) == Num(a) / Pow(2, shift)
  {
    hide *;
    PowPositive(2, shift);
    ShiftAmount(shift);
    if shift / 32 < |a| {
      RightInside(a, f, shift / 32, shift % 32, Pow(2, shift));
    } else {
      RightBeyond(a, f, shift / 32, shift % 32, Pow(2, shift));
    }
  }

  lemma RightInside(a: seq<Limb>, f: seq<Limb>, k: nat, s: nat, w: nat)
    requires |f| == |a| && k < |a| && s < 32 && Pow(2, s) * Pow(BASE, k) == w
    requires forall t :: 0 <= t < |f| ==> RightLimb(a, k, s, t, f[t])
    ensures 0 < w && Num(f) == Num(a) / w
  {
    hide *;
    RightPartial(a, f, k, s, |a| - k);
    RightWhole(a, f, k, s);
    NumSplitAt(a, k);
    SubLimbs(a, k);
    DropLimbsAndBits(Num(a), Num(a[..k]), Pow(BASE, k), Num(a[k..]), Pow(2, s), w);
  }

  lemma SubLimbs(a: seq<Limb>, k: nat)
    requires k <= |a|
    ensures Num(a[..k]) < Pow(BASE, k)
  {
    hide Num, Pow;
    NumBound(a[..k]);
  }

  lemma RightBeyond(a: seq<Limb>, f: seq<Limb>, k: nat, s: nat, w: nat)
    requires |f| == |a| <= k && s < 32 && Pow(2, s) * Pow(BASE, k) == w
    requires forall t :: 0 <= t < |f| ==> RightLimb(a, k, s, t, f[t])
    ensures 0 < w && Num(f) == Num(a) / w
  {
    hide Num, Pow, RightLimb;
    RightGone(a, f, k, s);
    NumZeros(f);
    PowMonotone(BASE, |a|, k);
    assert a[..|a|] == a;
    SubLimbs(a, |a|);
    PowPositive(2, s);
    DropAll(Num(a), Pow(BASE, k), Pow(2, s), w);
  }

  lemma DropLimbsAndBits(v: nat, low: nat, p: nat, high: nat, z: nat, w: nat)
    requires v == low + p * high && low < p && 0 < z && z * p == w
    ensures 0 < w && v / w == high / z
  {
    Commutes(high, p);
    ModUnique(v, p, high, low);
    Commutes(p, z);
    DivDiv(v, p, z);
  }

  lemma DropAll(v: nat, p: nat, z: nat, w: nat)
    requires v < p && 0 < z && z * p == w
    ensures 0 < w && v / w == 0
  {
    MulGrows(p, z);
    Commutes(p, z);
    ModUnique(v, w, 0, v);
  }

  lemma RightGone(a: seq<Limb>, f: seq<Limb>, k: nat, s: nat)
    requires |f| == |a| <= k && s < 32 && forall t :: 0 <= t < |f| ==> RightLimb(a, k, s, t, f[t])
    ensures forall t :: 0 <= t < |f| ==> f[t] == 0
  {
  }

  /** The limbs of the result are those of the kept limbs, and zeros. */
  lemma RightWhole(a: seq<Limb>, f: seq<Limb>, k: nat, s: nat)
    requires |f| == |a| && k < |a| && s < 32 && forall t :: 0 <= t < |f| ==> RightLimb(a, k, s, t, f[t])
    requires RightHolds(a, f, k, s, |a| - k)
    ensures 0 < Pow(2, s) && Num(a[k..]) / Pow(2, s) == Num(f)
  {
    hide Num, Pow, ShiftLeft, ShiftRight;
    var m := |a| - k;
    assert a[k..k + m] == a[k..];
    assert RightLimb(a, k, s, m - 1, f[m - 1]);
    NumNext(f, m - 1);
    NumSplitAt(f, m);
    NumZeros(f[m..]);
    assert Num(f) == RightTop(a, f, k, s, m);
    Commutes(Pow(2, s), Num(f));
    ModUnique(Num(a[k..]), Pow(2, s), Num(f), a[k] % Pow(2, s));
  }

  lemma LimbBits(x: Limb)
    ensures x < Pow(2, 32)
  {
    TwoTo32();
  }

  lemma OneBit(x: nat)
    requires 0 < x < Pow(2, 1)
    ensures Pow(2, 0) <= x < Pow(2, 0 + 1)
  {
  }

  lemma NoBits()
    ensures BitLength(0, 0)
  {
  }

  lemma LengthZero(v: nat, r: nat)
    requires BitLength(v, r)
    ensures r == 0 <==> v == 0
  {
    if r > 0 {
      PowPositive(2, r - 1);
    }
  }

  lemma AlignedFits(d: nat, shift: nat, bits: nat, n: nat)
    requires d * Pow(2, shift) < Pow(2, bits) && bits <= 32 * n
    ensures Reduced(d * Pow(2, shift), n) == d * Pow(2, shift)
  {
    hide Pow;
    PowMonotone(2, bits, 32 * n);
    BaseIsBits(n);
    InRange(d * Pow(2, shift), n);
  }

  lemma DifferenceFits(v: nat, w: nat, n: nat)
    requires w <= v < Pow(BASE, n)
    ensures Reduced(v - w, n) == v - w
  {
    InRange(v - w, n);
  }

  lemma QuotientBit(x: nat, d: nat, s: seq<Limb>, r: nat, shift: nat)
    requires shift / 32 < |s| && Dividing(x, d, Num(s), r, shift)
    ensures Multiple(s[shift / 32], Pow(2, shift % 32 + 1))
  {
    hide Num, Pow;
    var c: nat :| Num(s) == c * Pow(2, shift + 1);
    QuotientLimb(s, shift, c);
  }

  lemma HalfBit()
    ensures Pow(2, 1) == 2
  {
  }

  lemma LowLimbs(s: seq<Limb>)
    requires |s| >= 2
    ensures Num(s) == s[0] as nat + BASE * s[1] as nat + BASE * BASE * Num(s[2..])
    ensures s[0] as nat + BASE * s[1] as nat == Reduced(Num(s), 2)
  {
    NumSplitAt(s, 2);
    NumNext(s, 0);
    NumNext(s, 1);
    assert s[..0] == [];
    assert Pow(BASE, 0) == 1 && Pow(BASE, 1) == BASE && Pow(BASE, 2) == BASE * BASE;
    SubLimbs(s, 2);
    ModUnique(Num(s), Modulus(2), Num(s[2..]), Num(s[..2]));
  }

  lemma EmptyNum()
    ensures Num([]) == 0
  {
  }

  lemma SumNext(x: seq<Limb>, y: seq<Limb>, i: nat)
    requires |x| == |y| && i < |x|
    ensures Num(x[..i + 1]) + Num(y[..i + 1]) == Num(x[..i]) + Num(y[..i]) + (x[i] + y[i]) * Pow(BASE, i)
  {
    hide Num, Pow;
    NumNext(x, i);
    NumNext(y, i);
    Spread(x[i], y[i], Pow(BASE, i));
  }
}
