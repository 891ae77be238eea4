/**
 * The compact form of a 256-bit target: an exponent of base 256, a sign bit and a 23-bit mantissa
 * in one 32-bit word.
 */
module CompactTarget {
  import opened Radix
  import opened Limbs
  import opened LimbDivision
  import opened ArithUint

  const WIDTH := 8

  type Word = c: nat | c < BASE

  function Exponent(c: Word): nat { c / 0x100_0000 }

  function Mantissa(c: Word): nat { c % 0x80_0000 }

  predicate SignBit(c: Word) { (c / 0x80_0000) % 2 == 1 }

  function Unsigned(c: Word): Word { if SignBit(c) then c - 0x80_0000 else c }

  /** 256^3, the weight the exponent is counted from. */
  const UNIT: nat := 0x100_0000

  function Place(e: nat): (p: nat)
    ensures 0 < p
  {
    PowPositive(256, e);
    Pow(256, e)
  }

  /** The magnitude a compact word stands for, without any width limit. */
  ghost function Magnitude(c: Word): nat {
    Mantissa(c) * Place(Exponent(c)) / UNIT
  }

  /** c is the compact form of v without sign: the leading bytes of v, as many as the mantissa takes. */
  ghost predicate Compacts(v: nat, c: Word) {
    if v == 0 then c == 0
    else
      && 0x8000 <= c % UNIT < 0x80_0000
      && v * UNIT / Place(Exponent(c)) == c % UNIT
  }

  /** The words that are read and written back unchanged. */
  ghost predicate Canonical(c: Word) {
    || c == 0
    || (&& 0x8000 <= Mantissa(c)
        && Magnitude(c) < Modulus(WIDTH)
        && (Exponent(c) < 3 ==> Mantissa(c) % Place(3 - Exponent(c)) == 0))
  }

  // ---- Powers of 256 -----------------------------------------------------------------------

  lemma PlaceAdd(m: nat, n: nat)
    ensures Place(m + n) == Place(m) * Place(n)
  {
    hide Pow;
    PowAdd(256, m, n);
  }

  lemma SmallPlaces()
    ensures Place(0) == 1 && Place(1) == 256 && Place(2) == 0x1_0000 && Place(3) == UNIT
  {
  }

  lemma PlaceBits(e: nat)
    ensures Place(e) == Pow(2, 8 * e)
  {
    assert Pow(2, 8) == 256;
    hide Pow;
    PowMul(2, 8, e);
  }

  /** Above the unit the magnitude is a multiple, below it a quotient. */
  lemma MagnitudeCases(c: Word)
    ensures Exponent(c) >= 3 ==> Magnitude(c) == Mantissa(c) * Place(Exponent(c) - 3)
    ensures Exponent(c) <= 3 ==> Magnitude(c) == Mantissa(c) / Place(3 - Exponent(c))
  {
    hide Place;
    var e, m := Exponent(c), Mantissa(c);
    SmallPlaces();
    if e >= 3 {
      PlaceAdd(e - 3, 3);
      MulAssociates(m, Place(e - 3), UNIT);
      ModUnique(m * Place(e), UNIT, m * Place(e - 3), 0);
    }
    if e <= 3 {
      PlaceAdd(3 - e, e);
      Cancel(m, Place(e), Place(3 - e));
    }
  }

  lemma Cancel(m: nat, p: nat, q: nat)
    requires 0 < p && 0 < q
    ensures 0 < q * p && (m * p) / (q * p) == m / q
  {
    MulGrows(p, q);
    Commutes(p, q);
    ModUnique(m * p, p, m, 0);
    DivDiv(m * p, p, q);
  }

  /** The bytes of v, from its bit length. */
  lemma ByteLength(v: nat, bits: nat)
    requires BitLength(v, bits) && 0 < v
    ensures var n := (bits + 7) / 8; 0 < n && Place(n - 1) <= v < Place(n)
  {
    hide Pow, Place;
    var n := (bits + 7) / 8;
    assert bits > 0 by { LengthZero(v, bits); }
    PlaceBits(n);
    PlaceBits(n - 1);
    PowMonotone(2, bits, 8 * n);
    PowMonotone(2, 8 * (n - 1), bits - 1);
  }

  // ---- The compact form is unique ----------------------------------------------------------

  lemma LeadShrinks(x: nat, e: nat, f: nat)
    requires e < f
    ensures x / Place(f) <= (x / Place(e)) / 256
  {
    hide Place;
    PlaceAdd(e + 1, f - e - 1);
    PlaceAdd(e, 1);
    SmallPlaces();
    DivDiv(x, Place(e + 1), Place(f - e - 1));
    DivDiv(x, Place(e), 256);
    Quotient(x / Place(e + 1), Place(f - e - 1));
  }

  lemma WordParts(c: Word)
    ensures c == Exponent(c) * UNIT + c % UNIT
  {
  }

  lemma CompactsOrdered(v: nat, c: Word, d: Word)
    requires 0 < v && Compacts(v, c) && Compacts(v, d)
    ensures Exponent(d) <= Exponent(c)
  {
    hide Place;
    if Exponent(c) < Exponent(d) {
      LeadShrinks(v * UNIT, Exponent(c), Exponent(d));
    }
  }

  lemma CompactsUnique(v: nat, c: Word, d: Word)
    requires Compacts(v, c) && Compacts(v, d)
    ensures c == d
  {
    hide Place;
    if v > 0 {
      CompactsOrdered(v, c, d);
      CompactsOrdered(v, d, c);
      WordParts(c);
      WordParts(d);
    }
  }

  // ---- Writing -----------------------------------------------------------------------------

  /** The leading three bytes of a number of n bytes. */
  lemma LeadingBytes(v: nat, n: nat)
    requires 0 < n && Place(n - 1) <= v < Place(n)
    ensures 0x1_0000 <= v * UNIT / Place(n) < UNIT
  {
    hide Place;
    PlaceAdd(n - 1, 1);
    SmallPlaces();
    Commutes(v, UNIT);
    QuotientBounds(v * UNIT, Place(n), 0x1_0000, UNIT) by {
      MulMonotone(Place(n - 1), UNIT, v, UNIT);
      Below(v, Place(n), UNIT);
    }
  }

  lemma QuotientBounds(x: nat, p: nat, low: nat, high: nat)
    requires 0 < p && low * p <= x < high * p
    ensures low <= x / p < high
  {
    var q := x / p;
    assert x == p * q + x % p;
    Commutes(p, q);
    if q < low {
      Below(q, low, p);
    }
    if high <= q {
      MulMonotone(high, p, q, p);
    }
  }

  lemma LeadByCases(v: nat, n: nat)
    ensures n <= 3 ==> v * Place(3 - n) == v * UNIT / Place(n)
    ensures n > 3 ==> v / Place(n - 3) == v * UNIT / Place(n)
  {
    hide Place;
    SmallPlaces();
    if n <= 3 {
      PlaceAdd(3 - n, n);
      MulAssociates(v, Place(3 - n), Place(n));
      ModUnique(v * UNIT, Place(n), v * Place(3 - n), 0);
    } else {
      PlaceAdd(n - 3, 3);
      Cancel(v, UNIT, Place(n - 3));
    }
  }

  lemma NextLead(v: nat, n: nat)
    ensures (v * UNIT / Place(n)) / 256 == v * UNIT / Place(n + 1)
  {
    hide Place;
    PlaceAdd(n, 1);
    SmallPlaces();
    DivDiv(v * UNIT, Place(n), 256);
  }

  /** The number has at most 32 bytes, so the exponent stays far below 256. */
  lemma SizeFits(v: nat, n: nat)
    requires 0 < n && Place(n - 1) <= v < Modulus(WIDTH)
    ensures n <= 32
  {
    hide Place, Pow;
    WholeWidth();
    if n > 32 {
      PlaceMonotone(32, n - 1);
    }
  }

  lemma PlaceMonotone(m: nat, n: nat)
    requires m <= n
    ensures Place(m) <= Place(n)
  {
    hide Pow;
    PowMonotone(256, m, n);
  }

  lemma WholeWidth()
    ensures Modulus(WIDTH) == Place(32)
  {
    hide Pow;
    BaseIsBits(WIDTH);
    PlaceBits(32);
  }

  /** Exponent and mantissa make up the word. */
  lemma Assembled(n: nat, m: nat, sign: bool)
    requires n < 256 && m < 0x80_0000
    ensures
      var c: nat := n * UNIT + (if sign then 0x80_0000 else 0) + m;
      && c < BASE
      && Exponent(c) == n && Mantissa(c) == m && SignBit(c) == sign
      && Unsigned(c) == n * UNIT + m && Exponent(Unsigned(c)) == n && Unsigned(c) % UNIT == m
  {
  }

  lemma WrittenForm(v: nat, n: nat, lead: nat)
    requires 0 < n && Place(n - 1) <= v < Place(n) && n < 255 && lead == v * UNIT / Place(n)
    ensures lead < UNIT
    ensures lead < 0x80_0000 ==> Compacts(v, n * UNIT + lead)
    ensures lead >= 0x80_0000 ==> lead / 256 < 0x80_0000 && Compacts(v, (n + 1) * UNIT + lead / 256)
  {
    hide Place;
    LeadingBytes(v, n);
    NextLead(v, n);
    if lead < 0x80_0000 {
      Assembled(n, lead, false);
    } else {
      Assembled(n + 1, lead / 256, false);
    }
    assert v > 0;
  }

  method GetCompact(a: BaseUint, negative: bool) returns (c: Word)
    requires a.pn.Length == WIDTH
    ensures Compacts(a.Value(), Unsigned(c))
    ensures SignBit(c) <==> negative && Mantissa(c) != 0
  {
    hide Num, Pow, Place, BitLength, Compacts, Reduced, Modulus, SignBit, Unsigned, Exponent, Mantissa;
    ghost var v := a.Value();
    var bits := a.Bits();
    var size := (bits + 7) / 8;
    LengthZero(v, bits);
    InModulus(a.pn[..]);
    if v == 0 {
      ZeroCompact();
    } else {
      ByteLength(v, bits);
      SizeFits(v, size);
      WrittenForm(v, size, v * UNIT / Place(size));
    }
    var compact := LeadingThree(a, size);
    var mantissa, exponent := compact, size;
    if compact >= 0x80_0000 {
      mantissa := compact / 256;
      exponent := size + 1;
    }
    assert mantissa < 0x80_0000 && exponent < 256;
    var sign := negative && mantissa != 0;
    Assembled(exponent, mantissa, sign);
    Assembled(exponent, mantissa, false);
    c := exponent * UNIT + (if sign then 0x80_0000 else 0) + mantissa;
  }

  lemma InModulus(s: seq<Limb>)
    ensures Num(s) < Modulus(|s|)
  {
    NumBound(s);
  }

  lemma ZeroCompact()
    ensures Compacts(0, Unsigned(0)) && !SignBit(0) && Mantissa(0) == 0
  {
  }

  /** The leading three bytes of a number of size bytes, as a 32-bit word. */
  method LeadingThree(a: BaseUint, size: nat) returns (compact: nat)
    requires a.pn.Length == WIDTH
    requires if size == 0 then a.Value() == 0 else Place(size - 1) <= a.Value() < Place(size)
    ensures compact == a.Value() * UNIT / Place(size)
    ensures size == 0 ==> compact == 0
  {
    hide Num, Pow, Place, Reduced, Modulus;
    ghost var v := a.Value();
    LeadBelowUnit(v, size);
    if size <= 3 {
      var low := a.GetLow64();
      compact := (low * Pow(2, 8 * (3 - size))) % BASE;
      SmallLead(v, size);
    } else {
      var bn := new BaseUint.Copy(a);
      bn.RightShift(8 * (size - 3));
      var low := bn.GetLow64();
      compact := low % BASE;
      LargeLead(v, size);
    }
  }

  lemma LeadBelowUnit(v: nat, size: nat)
    requires if size == 0 then v == 0 else Place(size - 1) <= v < Place(size)
    ensures v * UNIT / Place(size) < UNIT
    ensures size == 0 ==> v * UNIT / Place(size) == 0
  {
    hide Place;
    if size == 0 {
      SmallPlaces();
    } else {
      LeadingBytes(v, size);
    }
  }

  lemma SmallLead(v: nat, size: nat)
    requires size <= 3 && v * UNIT / Place(size) < UNIT
    requires if size == 0 then v == 0 else v < Place(size)
    ensures Reduced(v, 2) == v
    ensures v * Pow(2, 8 * (3 - size)) == v * UNIT / Place(size)
  {
    hide Place, Pow, Reduced;
    LeadByCases(v, size);
    PlaceBits(3 - size);
    PlaceMonotone(size, 3);
    SmallPlaces();
    LowIsWhole(v);
  }

  lemma LargeLead(v: nat, size: nat)
    requires size > 3 && v * UNIT / Place(size) < UNIT
    ensures 0 < Pow(2, 8 * (size - 3)) && v / Pow(2, 8 * (size - 3)) == v * UNIT / Place(size)
    ensures Reduced(v / Pow(2, 8 * (size - 3)), 2) == v / Pow(2, 8 * (size - 3))
  {
    hide Place, Pow, Reduced;
    LeadByCases(v, size);
    PlaceBits(size - 3);
    LowIsWhole(v / Place(size - 3));
  }

  lemma LowIsWhole(v: nat)
    requires v < UNIT
    ensures Reduced(v, 2) == v
  {
    assert Modulus(2) == BASE * BASE by { assert Pow(BASE, 1) == BASE; }
    ModUnique(v, Modulus(2), 0, v);
  }

  // ---- Reading -----------------------------------------------------------------------------

  /** The three overflow tests together say that the magnitude does not fit. */
  lemma OverflowExact(m: nat, e: nat)
    requires m < 0x80_0000 && 3 < e
    ensures m * Place(e - 3) >= Modulus(WIDTH)
      <==> m != 0 && (e > 34 || (m > 0xff && e > 33) || (m > 0xffff && e > 32))
  {
    hide Place, Pow;
    WholeWidth();
    SmallPlaces();
    if e > 34 {
      PlaceMonotone(32, e - 3);
      if m > 0 {
        MulMonotone(1, Place(e - 3), m, Place(e - 3));
      }
    } else if e == 34 {
      PlaceAdd(1, 31);
      CompareMultiples(m, 256, Place(31));
    } else if e == 33 {
      PlaceAdd(2, 30);
      CompareMultiples(m, 0x1_0000, Place(30));
    } else {
      PlaceAdd(3, e - 3);
      CompareMultiples(m, UNIT, Place(e - 3));
      PlaceMonotone(e, 32);
    }
  }

  lemma CompareMultiples(m: nat, k: nat, p: nat)
    requires 0 < p
    ensures m * p >= k * p <==> m >= k
  {
    if m >= k {
      MulMonotone(k, p, m, p);
    } else {
      Below(m, k, p);
    }
  }

  lemma SmallMagnitude(c: Word)
    requires Exponent(c) <= 3
    ensures Magnitude(c) < 0x80_0000 < Modulus(WIDTH)
  {
    hide Place, Pow;
    MagnitudeCases(c);
    Quotient(Mantissa(c), Place(3 - Exponent(c)));
    WholeWidth();
    SmallPlaces();
    PlaceMonotone(3, 32);
  }

  lemma MultipleZero(m: nat, p: nat)
    requires 0 < p
    ensures m * p == 0 <==> m == 0
  {
  }

  method SetCompact(a: BaseUint, c: Word) returns (negative: bool, overflow: bool)
    requires a.pn.Length == WIDTH
    modifies a.pn
    ensures a.Value() == Reduced(Magnitude(c), WIDTH)
    ensures negative <==> Magnitude(c) != 0 && SignBit(c)
    ensures overflow <==> Magnitude(c) >= Modulus(WIDTH)
  {
    hide Num, Pow, Place, Magnitude, Reduced, Modulus, SignBit, ShiftRight;
    var size, word := Exponent(c), Mantissa(c);
    MagnitudeCases(c);
    if size <= 3 {
      SmallMagnitude(c);
      PlaceBits(3 - size);
      RightShifted(word, 8 * (3 - size));
      word := ShiftRight(word, 8 * (3 - size));
      a.AssignSmall(word);
      InRange(word, WIDTH);
    } else {
      PlaceBits(size - 3);
      OverflowExact(word, size);
      MultipleZero(word, Place(size - 3));
      a.AssignSmall(word);
      a.LeftShift(8 * (size - 3));
    }
    negative := word != 0 && SignBit(c);
    overflow := word != 0 && (size > 34 || (word > 0xff && size > 33) || (word > 0xffff && size > 32));
  }

  lemma RightShifted(x: Limb, s: nat)
    ensures 0 < Pow(2, s) && ShiftRight(x, s) == x / Pow(2, s)
  {
    PowPositive(2, s);
  }

  // ---- Round trips -------------------------------------------------------------------------

  lemma UnsignedParts(c: Word)
    ensures Exponent(Unsigned(c)) == Exponent(c) && Unsigned(c) % UNIT == Mantissa(c) < 0x80_0000
    ensures Unsigned(c) == 0 ==> Mantissa(c) == 0 && (!SignBit(c) ==> c == 0)
    ensures c == 0 ==> Unsigned(c) == 0 && !SignBit(c) && Mantissa(c) == 0
  {
  }

  /** An exact magnitude has its own word as compact form. */
  lemma CanonicalCompacts(c: Word)
    requires c != 0 && Canonical(c)
    ensures Magnitude(c) != 0 && Compacts(Magnitude(c), Unsigned(c))
  {
    hide Place, Modulus, SignBit, Unsigned, Exponent, Mantissa;
    UnsignedParts(c);
    var e, m, v := Exponent(c), Mantissa(c), Magnitude(c);
    MagnitudeCases(c);
    LeadByCases(v, e);
    if e >= 3 {
      MultipleZero(m, Place(e - 3));
      ModUnique(m * Place(e - 3), Place(e - 3), m, 0);
      SmallPlaces();
    } else {
      ExactQuotient(m, Place(3 - e));
      MultipleZero(v, Place(3 - e));
    }
  }

  lemma ExactQuotient(m: nat, p: nat)
    requires 0 < p && m % p == 0
    ensures (m / p) * p == m
  {
    Commutes(p, m / p);
  }

  /** A word that is the compact form of a number that fits is canonical. */
  lemma CompactsCanonical(v: nat, c: Word)
    requires v < Modulus(WIDTH) && Compacts(v, Unsigned(c)) && (SignBit(c) ==> Mantissa(c) != 0)
    ensures Canonical(c) && Magnitude(c) <= v
  {
    hide Place, Modulus, SignBit, Unsigned, Exponent, Mantissa;
    UnsignedParts(c);
    var e, m := Exponent(c), Mantissa(c);
    MagnitudeCases(c);
    LeadByCases(v, e);
    if v > 0 {
      if e > 3 {
        var p := Place(e - 3);
        assert v == p * m + v % p;
        Commutes(p, m);
      } else if e == 3 {
        SmallPlaces();
      } else {
        ModUnique(m, Place(3 - e), v, 0);
      }
    } else {
      ZeroMagnitude(c);
    }
  }

  lemma ZeroMagnitude(c: Word)
    requires Mantissa(c) == 0
    ensures Magnitude(c) == 0
  {
    hide Place;
    assert 0 * Place(Exponent(c)) == 0;
  }

  /** The compact form keeps at least 15 leading bits. */
  lemma CompactPrecision(v: nat, c: Word)
    requires Compacts(v, c)
    ensures Magnitude(c) <= v && (v - Magnitude(c)) * 0x8000 <= v
  {
    hide Place;
    if v > 0 {
      var e, m := Exponent(c), Mantissa(c);
      MagnitudeCases(c);
      LeadByCases(v, e);
      if e > 3 {
        Truncation(v, Place(e - 3), m);
      } else if e == 3 {
        SmallPlaces();
      } else {
        ModUnique(m, Place(3 - e), v, 0);
      }
    } else {
      ZeroMagnitude(c);
    }
  }

  lemma Truncation(v: nat, p: nat, m: nat)
    requires 0 < p && v / p == m && 0x8000 <= m
    ensures m * p <= v && (v - m * p) * 0x8000 <= v
  {
    var r := v % p;
    assert v == p * m + r;
    Commutes(p, m);
    MulMonotone(0x8000, p, m, p);
  }

  /** Reading a word and writing it back gives the same word exactly for the canonical words. */
  method ReadAndWrite(c: Word) returns (r: Word)
    ensures r == c <==> Canonical(c)
  {
    hide Num, Pow, Place, Magnitude, Reduced, Modulus, SignBit, Unsigned, Mantissa, Compacts, Canonical;
    var a := new BaseUint(WIDTH);
    var negative, overflow := SetCompact(a, c);
    r := GetCompact(a, negative);
    InModulus(a.pn[..]);
    if r == c {
      CompactsCanonical(a.Value(), c);
    }
    if Canonical(c) {
      CanonicalReturns(c, r, a.Value(), negative);
    }
  }

  lemma CanonicalReturns(c: Word, r: Word, v: nat, negative: bool)
    requires Canonical(c) && v == Reduced(Magnitude(c), WIDTH)
    requires negative <==> Magnitude(c) != 0 && SignBit(c)
    requires Compacts(v, Unsigned(r)) && (SignBit(r) <==> negative && Mantissa(r) != 0)
    ensures r == c
  {
    hide Pow, Place, Modulus, Reduced;
    UnsignedParts(c);
    UnsignedParts(r);
    if c == 0 {
      ZeroMagnitude(c);
      ZeroReduced(WIDTH);
    } else {
      CanonicalCompacts(c);
      InRange(Magnitude(c), WIDTH);
      CompactsUnique(v, Unsigned(r), Unsigned(c));
    }
  }

  /** Re-encoding what a compact form decodes to gives that form again, and nothing overflows. */
  method Reencode(a: BaseUint, sign: bool) returns (c: Word, r: Word, overflow: bool)
    requires a.pn.Length == WIDTH
    ensures r == c && !overflow
    ensures Compacts(a.Value(), Unsigned(c))
  {
    hide Num, Pow, Place, Magnitude, Reduced, Modulus, SignBit, Unsigned, Mantissa, Compacts, Canonical;
    c := GetCompact(a, sign);
    InModulus(a.pn[..]);
    CompactsCanonical(a.Value(), c);
    var b := new BaseUint(WIDTH);
    var negative;
    negative, overflow := SetCompact(b, c);
    r := GetCompact(b, negative);
    CanonicalReturns(c, r, b.Value(), negative);
  }
}
