/** Base58 text for byte strings, converted digit by digit in a fixed-size buffer. */
module Base58 {
  import opened Options
  import opened Radix

  /** A character of a C string. */
  type Char = c: char | 0 < c as int < 256 witness '1'

  type Text = seq<Char>

  type Byte = n: nat | n < 256

  // ---- The alphabet ------------------------------------------------------------------------

  /** "0", "I", "O" and "l" are left out. */
  function Letter(d: nat): Char
    requires d < 58
  {
    if d < 9 then ('1' as int + d) as char
    else if d < 17 then ('A' as int + d - 9) as char
    else if d < 22 then ('J' as int + d - 17) as char
    else if d < 33 then ('P' as int + d - 22) as char
    else if d < 44 then ('a' as int + d - 33) as char
    else ('m' as int + d - 44) as char
  }

  function Value(c: Char): (d: int)
    ensures -1 <= d < 58
  {
    var n := c as int;
    if '1' <= c <= '9' then n - '1' as int
    else if 'A' <= c <= 'H' then n - 'A' as int + 9
    else if 'J' <= c <= 'N' then n - 'J' as int + 17
    else if 'P' <= c <= 'Z' then n - 'P' as int + 22
    else if 'a' <= c <= 'k' then n - 'a' as int + 33
    else if 'm' <= c <= 'z' then n - 'm' as int + 44
    else -1
  }

  predicate IsSpace(c: Char) { c == ' ' || 9 <= c as int <= 13 }

  /** The alphabet of the program, in its six runs. */
  lemma LetterIs(d: nat)
    requires d < 58
    ensures Letter(d) as int == (if d < 9 then "123456789"[d] else if d < 17 then "ABCDEFGH"[d - 9]
                                 else if d < 22 then "JKLMN"[d - 17] else if d < 33 then "PQRSTUVWXYZ"[d - 22]
                                 else if d < 44 then "abcdefghijk"[d - 33] else "mnopqrstuvwxyz"[d - 44]) as int
  {}

  lemma LetterValue(d: nat)
    requires d < 58
    ensures Value(Letter(d)) == d
  {
  }

  lemma ValueLetter(c: Char)
    ensures Value(c) >= 0 ==> Letter(Value(c)) == c && !IsSpace(c)
    ensures Value(c) == 0 <==> c == '1'
  {
  }

  // ---- The carry loop ----------------------------------------------------------------------

  /** The buffer holds a numeral whose leading digits, all but `length`, are zero. */
  ghost predicate Buffered(b: nat, buf: seq<nat>, length: nat) {
    && Digits(b, buf) && length <= |buf|
    && forall i :: 0 <= i < |buf| - length ==> buf[i] == 0
  }

  lemma ValPrepend(b: nat, d: nat, s: seq<nat>)
    ensures Val(b, [d] + s) == d * Pow(b, |s|) + Val(b, s)
  {
    ValAppend(b, [d], s);
    assert [d][..0] == [];
    assert Val(b, [d]) == d;
  }

  /** One position of the carry loop. */
  lemma CarryStep(base: nat, factor: nat, p: nat, carry: nat, old0: nat, low: nat, oldLow: nat, digit: nat)
    requires 0 < base
    requires low + carry * p == factor * oldLow + digit
    ensures
      var t := carry + factor * old0;
      (t % base) * p + low + (t / base) * (base * p) == factor * (old0 * p + oldLow) + digit
  {
    var t := carry + factor * old0;
    var q, r := t / base, t % base;
    assert t == base * q + r;
    calc {
      r * p + low + q * (base * p);
      { assert q * (base * p) == (base * q) * p; }
      r * p + low + (base * q) * p;
      { assert (base * q) * p + r * p == (base * q + r) * p; }
      t * p + low;
      { assert t * p == carry * p + (factor * old0) * p; }
      carry * p + low + (factor * old0) * p;
      { assert (factor * old0) * p == factor * (old0 * p); }
      factor * oldLow + digit + factor * (old0 * p);
      { assert factor * (old0 * p + oldLow) == factor * (old0 * p) + factor * oldLow; }
      factor * (old0 * p + oldLow) + digit;
    }
  }

  function Spill(carry: nat, factor: nat, d: nat): nat { carry + factor * d }

  /** After i positions the low digits and the carry hold the new value of the low part. */
  ghost predicate Carried(base: nat, factor: nat, digit: nat, was: seq<nat>, now: seq<nat>, i: nat, carry: nat) {
    && |now| == |was| && i <= |was|
    && Digits(base, now)
    && now[..|was| - i] == was[..|was| - i]
    && Val(base, now[|was| - i..]) + carry * Pow(base, i) == factor * Val(base, was[|was| - i..]) + digit
  }

  lemma CarriedStart(base: nat, factor: nat, digit: nat, was: seq<nat>)
    requires Digits(base, was)
    ensures Carried(base, factor, digit, was, was, 0, digit)
  {
    assert was[|was|..] == [];
  }

  lemma CarriedNext(base: nat, factor: nat, digit: nat, was: seq<nat>, now: seq<nat>, i: nat, carry: nat)
    requires 0 < base && i < |was| && Carried(base, factor, digit, was, now, i, carry)
    ensures
      var j := |was| - 1 - i;
      var t := Spill(carry, factor, now[j]);
      Carried(base, factor, digit, was, now[j := t % base], i + 1, t / base)
  {
    hide Val;
    var j := |was| - 1 - i;
    assert now[..j + 1][j] == was[..j + 1][j];
    var t := carry + factor * now[j];
    var next := now[j := t % base];
    assert next[j..] == [t % base] + now[j + 1..];
    assert was[j..] == [was[j]] + was[j + 1..];
    ValPrepend(base, t % base, now[j + 1..]);
    ValPrepend(base, was[j], was[j + 1..]);
    CarryStep(base, factor, Pow(base, i), carry, was[j], Val(base, now[j + 1..]), Val(base, was[j + 1..]), digit);
    assert next[..j] == was[..j] by {
      assert now[..j + 1][..j] == now[..j] && was[..j + 1][..j] == was[..j];
    }
  }

  /** Once the carry is spent past the used digits, or the buffer is at its end, the step is done. */
  lemma CarriedEnd(base: nat, factor: nat, digit: nat, was: seq<nat>, now: seq<nat>, length: nat, i: nat, carry: nat)
    requires Buffered(base, was, length) && Carried(base, factor, digit, was, now, i, carry)
    requires (carry == 0 && length <= i) || i == |was|
    requires factor * Val(base, was) + digit < Pow(base, |was|)
    ensures carry == 0 && Val(base, now) == factor * Val(base, was) + digit
    ensures Buffered(base, now, i)
  {
    hide Val, Pow;
    var k := |was| - i;
    if i == |was| {
      assert now[0..] == now && was[0..] == was;
      NoCarry(Val(base, now), carry, Pow(base, |was|), factor * Val(base, was) + digit);
    } else {
      assert forall j :: 0 <= j < k ==> now[j] == now[..k][j] == was[..k][j] == 0;
      ValSkip(base, now, k);
      ValSkip(base, was, k);
    }
  }

  lemma NoCarry(v: nat, carry: nat, p: nat, w: nat)
    requires v + carry * p == w < p
    ensures carry == 0
  {
    if carry > 0 {
      MulMonotone(1, p, carry, p);
    }
  }

  /** buffer := buffer * factor + digit, in place; the buffer is large enough, so no carry is lost. */
  method Absorb(buf: array<nat>, length: nat, base: nat, factor: nat, digit: nat) returns (used: nat)
    requires 0 < base && Buffered(base, buf[..], length)
    requires factor * Val(base, buf[..]) + digit < Pow(base, buf.Length)
    modifies buf
    ensures Buffered(base, buf[..], used)
    ensures Val(base, buf[..]) == factor * old(Val(base, buf[..])) + digit
    ensures length <= used <= buf.Length && forall j :: 0 <= j < buf.Length - used ==> buf[j] == old(buf[j])
    ensures used > length ==> buf[buf.Length - used] != 0
  {
    hide Val, Buffered, Carried, Spill;
    ghost var was := buf[..];
    var carry := digit;
    var i := 0;
    assert Digits(base, was) && length <= |was| by { BufferedDigits(base, was, length); }
    CarriedStart(base, factor, digit, was);
    while (carry != 0 || i < length) && i != buf.Length
      invariant 0 <= i <= buf.Length && 0 <= carry
      invariant Carried(base, factor, digit, was, buf[..], i, carry)
      invariant forall j :: 0 <= j < buf.Length - i ==> buf[j] == was[j]
      invariant i > length && carry == 0 ==> buf[buf.Length - i] != 0
      decreases buf.Length - i
    {
      var j := buf.Length - 1 - i;
      if i >= length { LastDigit(base, factor, was, length, j, carry); }
      CarriedNext(base, factor, digit, was, buf[..], i, carry);
      carry := Spill(carry, factor, buf[j]);
      buf[j] := carry % base;
      carry := carry / base;
      i := i + 1;
    }
    CarriedEnd(base, factor, digit, was, buf[..], length, i, carry);
    assert carry == 0;
    used := i;
  }

  // Beyond the digits in use, the last carry is the new digit.
  lemma LastDigit(base: nat, factor: nat, buf: seq<nat>, length: nat, j: nat, carry: nat)
    requires 0 < base && Buffered(base, buf, length) && j < |buf| - length && carry > 0
    ensures var t := Spill(carry, factor, buf[j]); t / base == 0 ==> t % base != 0
  {
    assert factor * buf[j] == 0;
    assert carry == base * (carry / base) + carry % base;
  }

  lemma BufferedDigits(base: nat, buf: seq<nat>, length: nat)
    requires Buffered(base, buf, length)
    ensures Digits(base, buf) && length <= |buf|
  {
  }

  // ---- Buffer sizes ------------------------------------------------------------------------

  lemma EightBytes()
    ensures Pow(256, 8) <= Pow(58, 11)
  {
  }

  lemma SeventyOneLetters()
    ensures Pow(58, 71) <= Pow(256, 52)
  {
    assert Pow(58, 10) == 430804206899405824;
    PowMul(58, 10, 7);
    PowAdd(58, 70, 1);
    assert Pow(256, 4) == 0x1_0000_0000;
    PowMul(256, 4, 13);
    assert Pow(430804206899405824, 7) * 58 <= Pow(0x1_0000_0000, 13);
  }

  /** log(256) / log(58) < 11 / 8 < 138 / 100. */
  lemma EncodeBufferSuffices(n: nat)
    ensures Pow(256, n) <= Pow(58, n * 138 / 100 + 1)
  {
    hide Pow;
    EightBytes();
    PowerFits(256, 58, 8, 11, n, n * 138 / 100 + 1);
  }

  /** log(58) / log(256) < 52 / 71 < 733 / 1000. */
  lemma DecodeBufferSuffices(n: nat)
    ensures Pow(58, n) <= Pow(256, n * 733 / 1000 + 1)
  {
    hide Pow;
    SeventyOneLetters();
    PowerFits(58, 256, 71, 52, n, n * 733 / 1000 + 1);
  }

  // ---- Encoding ----------------------------------------------------------------------------

  ghost predicate IsBase58(str: Text) {
    forall i :: 0 <= i < |str| ==> Value(str[i]) >= 0
  }

  ghost function Numbers(str: Text): (s: seq<nat>)
    requires IsBase58(str)
    ensures |s| == |str| && Digits(58, s) && forall i :: 0 <= i < |s| ==> s[i] == Value(str[i])
  {
    seq(|str|, i requires 0 <= i < |str| => Value(str[i]))
  }

  /** The text and the bytes have as many leading "1" as zero bytes, and the same value. */
  ghost predicate Encodes(bytes: seq<Byte>, str: Text) {
    IsBase58(str) && Same(256, bytes, 58, Numbers(str))
  }

  /** n zeros followed by a numeral without leading zeros. */
  ghost predicate Splits(s: seq<nat>, n: nat, rest: seq<nat>) {
    && |s| == n + |rest| && s[n..] == rest
    && (forall i :: 0 <= i < n ==> s[i] == 0)
    && (rest == [] || rest[0] != 0)
  }

  lemma SplitZeros(b: nat, s: seq<nat>, n: nat, rest: seq<nat>)
    requires Splits(s, n, rest)
    ensures LeadingZeros(s) == n && Val(b, s) == Val(b, rest)
  {
    hide Val;
    ValSkip(b, s, n);
    assert n < |s| ==> s[n] == s[n..][0];
  }

  lemma SameSplits(a: nat, s: seq<nat>, b: nat, t: seq<nat>, n: nat, u: seq<nat>, v: seq<nat>)
    requires Splits(s, n, u) && Splits(t, n, v) && Val(a, u) == Val(b, v)
    ensures Same(a, s, b, t)
  {
    hide Val, Splits;
    SplitZeros(a, s, n, u);
    SplitZeros(b, t, n, v);
  }

  method CountZeros(s: seq<nat>) returns (n: nat)
    ensures n <= |s| && Splits(s, n, s[n..])
  {
    n := 0;
    while n != |s| && s[n] == 0
      invariant n <= |s| && forall i :: 0 <= i < n ==> s[i] == 0
      decreases |s| - n
    {
      n := n + 1;
    }
  }

  /** The value of the digits rest in base factor, absorbed into a buffer of base digits. */
  method Convert(rest: seq<nat>, factor: nat, base: nat, size: nat) returns (buf: array<nat>, length: nat)
    requires 0 < base && 0 < factor && Digits(factor, rest) && Pow(factor, |rest|) <= Pow(base, size)
    ensures fresh(buf) && buf.Length == size
    ensures Buffered(base, buf[..], length) && Val(base, buf[..]) == Val(factor, rest)
  {
    hide Val, Pow, Buffered, Digits;
    buf := new nat[size](i => 0);
    length := 0;
    EmptyBuffer(base, buf[..]);
    assert rest[..0] == [];
    for k := 0 to |rest|
      modifies buf
      invariant Buffered(base, buf[..], length) && Val(base, buf[..]) == Val(factor, rest[..k])
    {
      RoomForNext(factor, rest, k, base, size);
      length := Absorb(buf, length, base, factor, rest[k]);
    }
    assert rest[..|rest|] == rest;
  }

  lemma EmptyBuffer(base: nat, buf: seq<nat>)
    requires 0 < base && forall i :: 0 <= i < |buf| ==> buf[i] == 0
    ensures Buffered(base, buf, 0) && Val(base, buf) == Val(base, []) == 0
    ensures forall b :: Val(b, []) == 0
  {
    ValZeros(base, buf);
  }

  lemma RoomForNext(factor: nat, rest: seq<nat>, k: nat, base: nat, size: nat)
    requires k < |rest| && 0 < factor && Digits(factor, rest) && Pow(factor, |rest|) <= Pow(base, size)
    ensures factor * Val(factor, rest[..k]) + rest[k] == Val(factor, rest[..k + 1]) < Pow(base, size)
  {
    assert rest[..k + 1][..k] == rest[..k];
    ValBound(factor, rest[..k + 1]);
    PowMonotone(factor, k + 1, |rest|);
  }

  /** The digits of the buffer from its first non-zero one. */
  method SkipZeros(base: nat, buf: array<nat>, length: nat) returns (start: nat)
    requires Buffered(base, buf[..], length)
    ensures start <= buf.Length && (start == buf.Length || buf[start] != 0)
    ensures Val(base, buf[..]) == Val(base, buf[start..])
  {
    start := buf.Length - length;
    while start != buf.Length && buf[start] == 0
      invariant start <= buf.Length && forall i :: 0 <= i < start ==> buf[i] == 0
      decreases buf.Length - start
    {
      start := start + 1;
    }
    SplitZeros(base, buf[..], start, buf[start..]);
  }

  method EncodeBase58(bytes: seq<Byte>) returns (str: Text)
    ensures Encodes(bytes, str)
  {
    hide Val, Pow, Buffered, Splits, Value, Letter;
    var zeroes := CountZeros(bytes);
    var rest: seq<nat> := bytes[zeroes..];
    var size := |rest| * 138 / 100 + 1;
    EncodeBufferSuffices(|rest|);
    var b58, length := Convert(rest, 256, 58, size);
    BufferedDigits(58, b58[..], length);
    var start := SkipZeros(58, b58, length);
    str := seq(zeroes, i => '1');
    ghost var digits := b58[start..];
    var it := start;
    while it != b58.Length
      invariant start <= it <= b58.Length && |str| == zeroes + (it - start)
      invariant forall i :: 0 <= i < zeroes ==> str[i] == '1'
      invariant forall i :: zeroes <= i < |str| ==>
          b58[start + i - zeroes] < 58 && str[i] == Letter(b58[start + i - zeroes])
      decreases b58.Length - it
    {
      assert b58[..][it] < 58;
      str := str + [Letter(b58[it])];
      it := it + 1;
    }
    SpelledOut(str, zeroes, digits);
    SameSplits(256, bytes, 58, Numbers(str), zeroes, rest, digits);
  }

  lemma SpelledOut(str: Text, zeroes: nat, digits: seq<nat>)
    requires |str| == zeroes + |digits| && Digits(58, digits)
    requires forall i :: 0 <= i < zeroes ==> str[i] == '1'
    requires forall i :: zeroes <= i < |str| ==> str[i] == Letter(digits[i - zeroes])
    ensures IsBase58(str)
    ensures (digits == [] || digits[0] != 0) ==> Splits(Numbers(str), zeroes, digits)
  {
    hide Value, Letter;
    forall i | 0 <= i < |str|
      ensures Value(str[i]) == if i < zeroes then 0 else digits[i - zeroes]
    {
      if i < zeroes {
        ValueLetter(str[i]);
      } else {
        LetterValue(digits[i - zeroes]);
      }
    }
    assert IsBase58(str);
  }

  // ---- Decoding ----------------------------------------------------------------------------

  /** str is its part from a to e, all Base58 characters, between white space. */
  ghost predicate Core(str: Text, a: nat, e: nat) {
    && a <= e <= |str|
    && (forall i :: 0 <= i < a ==> IsSpace(str[i]))
    && (forall i :: a <= i < e ==> Value(str[i]) >= 0)
    && (forall i :: e <= i < |str| ==> IsSpace(str[i]))
  }

  /** The core is found by skipping white space, whatever way str is split. */
  lemma CoreFound(str: Text, a: nat, e: nat, p: nat, q: nat)
    requires Core(str, a, e)
    requires p <= q <= |str| && (forall i :: 0 <= i < p ==> IsSpace(str[i])) && (p < |str| ==> !IsSpace(str[p]))
    requires (forall i :: p <= i < q ==> !IsSpace(str[i])) && (q < |str| ==> IsSpace(str[q]))
    ensures str[a..e] == str[p..q] && (a < e ==> a == p && e == q)
    ensures a == e ==> p == q == |str|
  {
    hide Value, IsSpace;
    forall i | a <= i < e
      ensures !IsSpace(str[i])
    {
      ValueLetter(str[i]);
    }
    assert a < e ==> !IsSpace(str[a]) && !IsSpace(str[e - 1]);
    assert p < |str| ==> !IsSpace(str[p]);
    assert q < |str| ==> IsSpace(str[q]);
    assert e < |str| ==> IsSpace(str[e]);
  }

  method SkipSpaces(str: Text, from: nat) returns (p: nat)
    requires from <= |str|
    ensures from <= p <= |str| && (p < |str| ==> !IsSpace(str[p]))
    ensures forall i :: from <= i < p ==> IsSpace(str[i])
  {
    p := from;
    while p < |str| && IsSpace(str[p])
      invariant from <= p <= |str| && forall i :: from <= i < p ==> IsSpace(str[i])
    {
      p := p + 1;
    }
  }

  method CountOnes(str: Text, from: nat) returns (n: nat)
    requires from <= |str|
    ensures from + n <= |str| && (from + n < |str| ==> str[from + n] != '1')
    ensures forall i :: from <= i < from + n ==> str[i] == '1'
  {
    n := 0;
    while from + n < |str| && str[from + n] == '1'
      invariant from + n <= |str| && forall i :: from <= i < from + n ==> str[i] == '1'
    {
      n := n + 1;
    }
  }

  /** The digits of str from b to q. */
  ghost predicate Spells(str: Text, b: nat, q: nat, ds: seq<nat>) {
    && b <= q <= |str| && |ds| == q - b
    && Digits(58, ds)
    && forall i :: b <= i < q ==> Value(str[i]) == ds[i - b] && !IsSpace(str[i])
  }

  lemma SpellsNext(str: Text, b: nat, q: nat, ds: seq<nat>)
    requires Spells(str, b, q, ds) && q < |str| && !IsSpace(str[q]) && Value(str[q]) >= 0
    ensures Spells(str, b, q + 1, ds + [Value(str[q])])
  {
    hide Value, IsSpace;
  }

  lemma RoomForLetter(ds: seq<nat>, d: nat, n: nat, size: nat)
    requires Digits(58, ds) && d < 58 && |ds| < n && Pow(58, n) <= Pow(256, size)
    ensures 58 * Val(58, ds) + d == Val(58, ds + [d]) < Pow(256, size)
  {
    hide Pow;
    assert (ds + [d])[..|ds|] == ds;
    ValBound(58, ds + [d]);
    PowMonotone(58, |ds| + 1, n);
  }

  /** Converts characters up to white space or the end; ok is false at any other character. */
  method ConvertText(str: Text, b: nat) returns (ok: bool, b256: array<nat>, length: nat, q: nat, ghost ds: seq<nat>)
    requires b <= |str|
    ensures Spells(str, b, q, ds)
    ensures ok ==> Buffered(256, b256[..], length) && Val(256, b256[..]) == Val(58, ds)
    ensures ok ==> (q < |str| ==> IsSpace(str[q]))
    ensures !ok ==> q < |str| && !IsSpace(str[q]) && Value(str[q]) == -1
  {
    hide Val, Pow, Buffered, Value, IsSpace, Spells;
    var size := (|str| - b) * 733 / 1000 + 1;
    DecodeBufferSuffices(|str| - b);
    b256 := new nat[size](i => 0);
    length := 0;
    EmptyBuffer(256, b256[..]);
    q := b;
    ds := [];
    SpellsNone(str, b);
    while q < |str| && !IsSpace(str[q])
      modifies b256
      invariant b <= q <= |str| && |ds| == q - b && Digits(58, ds)
      invariant Spells(str, b, q, ds)
      invariant Buffered(256, b256[..], length) && Val(256, b256[..]) == Val(58, ds)
    {
      var carry := Value(str[q]);
      if carry == -1 {
        ok := false;
        return;
      }
      RoomForLetter(ds, carry, |str| - b, size);
      length := Absorb(b256, length, 256, 58, carry);
      SpellsNext(str, b, q, ds);
      ds := ds + [carry];
      q := q + 1;
    }
    ok := true;
  }

  lemma SpellsNone(str: Text, b: nat)
    requires b <= |str|
    ensures Spells(str, b, b, [])
  {
  }

  /** A character that is neither white space nor Base58 rules the text out. */
  lemma NoCore(str: Text, q: nat)
    requires q < |str| && !IsSpace(str[q]) && Value(str[q]) == -1
    ensures forall a: nat, e: nat :: !Core(str, a, e)
  {
    hide Value, IsSpace;
  }

  /** So does white space between two other characters. */
  lemma NoCoreAround(str: Text, p: nat, q: nat, r: nat)
    requires p < q < r < |str| && !IsSpace(str[p]) && IsSpace(str[q]) && !IsSpace(str[r])
    ensures forall a: nat, e: nat :: !Core(str, a, e)
  {
    hide Value, IsSpace;
    ValueLetter(str[q]);
  }

  /** Where the decoder stands after leading white space, ones and digits. */
  ghost predicate Scanned(str: Text, p: nat, zeroes: nat, q: nat, ds: seq<nat>) {
    && p + zeroes <= |str|
    && (forall i :: 0 <= i < p ==> IsSpace(str[i]))
    && (p < |str| ==> !IsSpace(str[p]))
    && (forall i :: p <= i < p + zeroes ==> str[i] == '1')
    && (p + zeroes < |str| ==> str[p + zeroes] != '1')
    && Spells(str, p + zeroes, q, ds)
    && (q < |str| ==> IsSpace(str[q]))
  }

  lemma ScannedShape(str: Text, p: nat, zeroes: nat, q: nat, ds: seq<nat>)
    requires Scanned(str, p, zeroes, q, ds)
    ensures p <= q <= |str| && (q < |str| ==> p < q)
    ensures forall i :: p <= i < q ==> !IsSpace(str[i]) && Value(str[i]) >= 0
  {
    hide Value, IsSpace;
    forall i | p <= i < p + zeroes
      ensures !IsSpace(str[i]) && Value(str[i]) == 0
    {
      ValueLetter(str[i]);
    }
  }

  lemma ScannedCore(str: Text, p: nat, zeroes: nat, q: nat, ds: seq<nat>)
    requires Scanned(str, p, zeroes, q, ds) && forall i :: q <= i < |str| ==> IsSpace(str[i])
    ensures Core(str, p, q)
    ensures forall a: nat, e: nat :: Core(str, a, e) ==> str[a..e] == str[p..q]
  {
    hide Value, IsSpace, Spells;
    ScannedShape(str, p, zeroes, q, ds);
    CoreOf(str, p, q);
    forall a: nat, e: nat | Core(str, a, e)
      ensures str[a..e] == str[p..q]
    {
      CoreFound(str, a, e, p, q);
    }
  }

  lemma CoreOf(str: Text, p: nat, q: nat)
    requires p <= q <= |str| && (forall i :: 0 <= i < p ==> IsSpace(str[i]))
    requires (forall i :: p <= i < q ==> Value(str[i]) >= 0) && forall i :: q <= i < |str| ==> IsSpace(str[i])
    ensures Core(str, p, q)
  {
  }

  lemma ScannedEncodes(str: Text, p: nat, zeroes: nat, q: nat, ds: seq<nat>, bytes: seq<Byte>, tail: seq<nat>)
    requires Scanned(str, p, zeroes, q, ds)
    requires |bytes| == zeroes + |tail| && bytes[zeroes..] == tail
    requires forall i :: 0 <= i < zeroes ==> bytes[i] == 0
    requires (tail == [] || tail[0] != 0) && Val(256, tail) == Val(58, ds)
    ensures p <= q <= |str| && Encodes(bytes, str[p..q])
  {
    hide Value, IsSpace, Val;
    ScannedShape(str, p, zeroes, q, ds);
    var core := str[p..q];
    assert IsBase58(core);
    forall i | 0 <= i < |core|
      ensures Numbers(core)[i] == if i < zeroes then 0 else ds[i - zeroes]
    {
      ValueLetter(core[i]);
    }
    if ds != [] {
      ValueLetter(str[p + zeroes]);
    }
    assert Splits(Numbers(core), zeroes, ds);
    SameSplits(256, bytes, 58, Numbers(core), zeroes, tail, ds);
  }

  /**
   * Accepts exactly Base58 text between optional white space, and returns the bytes it encodes.
   */
  method DecodeBase58(str: Text) returns (vch: Option<seq<Byte>>)
    ensures forall a: nat, e: nat :: Core(str, a, e) ==> vch.Some? && Encodes(vch.value, str[a..e])
    ensures vch.Some? ==> exists a: nat, e: nat :: Core(str, a, e)
  {
    hide Val, Pow, Buffered, Value, IsSpace, Spells, Encodes;
    var p := SkipSpaces(str, 0);
    var zeroes := CountOnes(str, p);
    var ok, b256, length, q, ds := ConvertText(str, p + zeroes);
    if !ok {
      NoCore(str, q);
      return None;
    }
    ScannedShape(str, p, zeroes, q, ds);
    var rest := SkipSpaces(str, q);
    if rest != |str| {
      NoCoreAround(str, p, q, rest);
      return None;
    }
    ScannedCore(str, p, zeroes, q, ds);
    BufferedDigits(256, b256[..], length);
    var start := SkipZeros(256, b256, length);
    var bytes := LeadWithZeros(zeroes, b256, start);
    vch := Some(bytes);
    ScannedEncodes(str, p, zeroes, q, ds, bytes, b256[start..]);
  }

  method LeadWithZeros(zeroes: nat, b256: array<nat>, start: nat) returns (bytes: seq<Byte>)
    requires Digits(256, b256[..]) && start <= b256.Length
    ensures |bytes| == zeroes + (b256.Length - start) && bytes[zeroes..] == b256[start..]
    ensures forall i :: 0 <= i < zeroes ==> bytes[i] == 0
  {
    bytes := seq(zeroes, i => 0);
    var it := start;
    while it != b256.Length
      invariant start <= it <= b256.Length && |bytes| == zeroes + (it - start)
      invariant forall i :: 0 <= i < zeroes ==> bytes[i] == 0
      invariant bytes[zeroes..] == b256[start..it]
      decreases b256.Length - it
    {
      assert b256[..][it] < 256;
      bytes := bytes + [b256[it]];
      it := it + 1;
    }
  }

  // ---- Round trips -------------------------------------------------------------------------

  method DecodeEncoded(bytes: seq<Byte>) returns (r: Option<seq<Byte>>)
    ensures r == Some(bytes)
  {
    hide Value, IsSpace;
    var str := EncodeBase58(bytes);
    r := DecodeBase58(str);
    assert Core(str, 0, |str|);
    assert str[0..|str|] == str;
    EncodesOneBytes(bytes, r.value, str);
  }

  /** Re-encoding gives back the text without the white space around it. */
  method EncodeDecoded(str: Text, ghost a: nat, ghost e: nat) returns (r: Text)
    requires Core(str, a, e)
    ensures r == str[a..e]
  {
    hide Encodes;
    var bytes := DecodeBase58(str);
    r := EncodeBase58(bytes.value);
    EncodesOneText(bytes.value, r, str[a..e]);
  }

  lemma EncodesOneBytes(a: seq<Byte>, b: seq<Byte>, str: Text)
    requires Encodes(a, str) && Encodes(b, str)
    ensures a == b
  {
    hide Val, LeadingZeros;
    SameUnique(58, Numbers(str), 256, a, b);
  }

  lemma EncodesOneText(bytes: seq<Byte>, s: Text, t: Text)
    requires Encodes(bytes, s) && Encodes(bytes, t)
    ensures s == t
  {
    hide Val, LeadingZeros, Value, Letter;
    SameUnique(256, bytes, 58, Numbers(s), Numbers(t));
    forall i | 0 <= i < |s|
      ensures s[i] == t[i]
    {
      assert Numbers(s)[i] == Numbers(t)[i];
      ValueLetter(s[i]);
      ValueLetter(t[i]);
    }
  }
}
