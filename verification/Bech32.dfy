/** Bech32 strings: checksum, encoder, decoder, and what the checksum detects. */
module Bech32 {
  import opened Bech32Poly
  import opened Bech32Errors
  import opened Options

  /** A byte character, as in the program's strings. */
  type Char = c: char | c as int < 256 witness 'q'

  type Text = seq<Char>

  /** A 5-bit value. */
  type Quintet = n: nat | n < 32

  const SEPARATOR: Char := '1'
  const CHECKSUM_LENGTH := 6
  const MAX_LENGTH := 90

  // ---- The character set -------------------------------------------------------------------

  function Letter(v: Quintet): Char {
    if v == 0 then 'q' else if v == 1 then 'p' else if v == 2 then 'z' else if v == 3 then 'r' else
    if v == 4 then 'y' else if v == 5 then '9' else if v == 6 then 'x' else if v == 7 then '8' else
    if v == 8 then 'g' else if v == 9 then 'f' else if v == 10 then '2' else if v == 11 then 't' else
    if v == 12 then 'v' else if v == 13 then 'd' else if v == 14 then 'w' else if v == 15 then '0' else
    if v == 16 then 's' else if v == 17 then '3' else if v == 18 then 'j' else if v == 19 then 'n' else
    if v == 20 then '5' else if v == 21 then '4' else if v == 22 then 'k' else if v == 23 then 'h' else
    if v == 24 then 'c' else if v == 25 then 'e' else if v == 26 then '6' else if v == 27 then 'm' else
    if v == 28 then 'u' else if v == 29 then 'a' else if v == 30 then '7' else 'l'
  }

  /** The reverse table; its upper-case rows repeat the lower-case ones. */
  function Value(c: Char): (v: int)
    ensures -1 <= v < 32
  {
    match LowerCase(c)
    case '0' => 15
    case '2' => 10
    case '3' => 17
    case '4' => 21
    case '5' => 20
    case '6' => 26
    case '7' => 30
    case '8' => 7
    case '9' => 5
    case 'a' => 29
    case 'c' => 24
    case 'd' => 13
    case 'e' => 25
    case 'f' => 9
    case 'g' => 8
    case 'h' => 23
    case 'j' => 18
    case 'k' => 22
    case 'l' => 31
    case 'm' => 27
    case 'n' => 19
    case 'p' => 1
    case 'q' => 0
    case 'r' => 3
    case 's' => 16
    case 't' => 11
    case 'u' => 28
    case 'v' => 12
    case 'w' => 14
    case 'x' => 6
    case 'y' => 4
    case 'z' => 2
    case _ => -1
  }

  predicate IsLower(c: Char) { 'a' <= c <= 'z' }

  predicate IsUpper(c: Char) { 'A' <= c <= 'Z' }

  function LowerCase(c: Char): Char {
    if IsUpper(c) then (c as int - 'A' as int + 'a' as int) as char else c
  }

  predicate Printable(c: Char) { 33 <= c as int <= 126 }

  /** The table is the character set of the program. */
  lemma LetterIs(v: Quintet)
    ensures Letter(v) == "qpzry9x8gf2tvdw0s3jn54khce6mua7l"[v]
  {}

  lemma LowerLetter(v: Quintet)
    ensures LowerCase(Letter(v)) == Letter(v) && Letter(v) != SEPARATOR && Printable(Letter(v)) && !IsUpper(Letter(v))
  {
  }

  lemma LetterValue(v: Quintet)
    ensures Value(Letter(v)) == v
  {
    LowerLetter(v);
  }

  lemma ValueLetter(c: Char)
    requires Value(c) >= 0
    ensures Letter(Value(c)) == LowerCase(c)
  {
  }

  lemma ValueOther(c: Char)
    ensures Value(c) == Value(LowerCase(c))
    ensures Value(SEPARATOR) == -1
  {
    assert LowerCase(LowerCase(c)) == LowerCase(c);
  }

  // ---- Checksum ----------------------------------------------------------------------------

  function Word(n: Quintet): Symbol { (n as bv5) as bv32 }

  function FromWord(v: Symbol): Quintet { (v as bv5) as int }

  lemma WordRoundTrip(n: Quintet, v: Symbol)
    ensures FromWord(Word(n)) == n && Word(FromWord(v)) == v
  {
  }

  ghost function Words(v: seq<Quintet>): (w: seq<Symbol>)
    ensures |w| == |v| && forall i :: 0 <= i < |v| ==> w[i] == Word(v[i])
  {
    seq(|v|, i requires 0 <= i < |v| => Word(v[i]))
  }

  lemma WordsAppend(a: seq<Quintet>, b: seq<Quintet>)
    ensures Words(a + b) == Words(a) + Words(b)
  {
    hide Word;
  }

  ghost function Expanded(hrp: Text): (r: seq<Quintet>) {
    var n := |hrp|;
    seq(2 * n + 1, i requires 0 <= i < 2 * n + 1 =>
      if i < n then hrp[i] as int / 32 else if i == n then 0 else hrp[i - n - 1] as int % 32)
  }

  /** The checksum equation of the whole list, checksum symbols included. */
  ghost predicate Verifies(hrp: Text, values: seq<Quintet>) {
    Run(1, Words(Expanded(hrp) + values)) == 1
  }

  method PolyMod(v: seq<Quintet>) returns (c: bv32)
    ensures c == Run(1, Words(v))
  {
    hide Xor, Term, Top, Shifted, Step, Word;
    c := 1;
    ghost var w := Words(v);
    for i := 0 to |v|
      invariant Run(c, w[i..]) == Run(1, w)
    {
      ghost var was := c;
      var c0 := Top(c);
      c := Xor(Shifted(c), Word(v[i]));
      ghost var base := c;
      c := Xor(c, Term(c0, 1, 0x3b6a57b2));
      c := Xor(c, Term(c0, 2, 0x26508e6d));
      c := Xor(c, Term(c0, 4, 0x1ea119fa));
      c := Xor(c, Term(c0, 8, 0x3d4233dd));
      c := Xor(c, Term(c0, 16, 0x2a1462b3));
      Stages(base, c0);
      StepStages(was, w[i]);
      assert w[i..][1..] == w[i + 1..];
    }
  }

  lemma StepStages(c: bv32, v: bv32)
    ensures Step(c, v) == Xor(Xor(Shifted(c), v), Remainder(Top(c)))
  {
    hide Xor, Shifted, Remainder, Top;
  }

  /** Adding the five multiples one after the other adds their sum. */
  lemma Stages(base: bv32, t: bv32)
    ensures Xor(Xor(Xor(Xor(Xor(base, Term(t, 1, 0x3b6a57b2)), Term(t, 2, 0x26508e6d)), Term(t, 4, 0x1ea119fa)),
                    Term(t, 8, 0x3d4233dd)), Term(t, 16, 0x2a1462b3))
         == Xor(base, Remainder(t))
  {
    hide Xor, Term;
    var t1, t2, t3 := Term(t, 1, 0x3b6a57b2), Term(t, 2, 0x26508e6d), Term(t, 4, 0x1ea119fa);
    var t4, t5 := Term(t, 8, 0x3d4233dd), Term(t, 16, 0x2a1462b3);
    XorAssociates(base, t1, Xor(t2, Xor(t3, Xor(t4, t5))));
    XorAssociates(Xor(base, t1), t2, Xor(t3, Xor(t4, t5)));
    XorAssociates(Xor(Xor(base, t1), t2), t3, Xor(t4, t5));
    XorAssociates(Xor(Xor(Xor(base, t1), t2), t3), t4, t5);
  }

  method ExpandHRP(hrp: Text) returns (ret: seq<Quintet>)
    ensures ret == Expanded(hrp)
  {
    ret := seq(2 * |hrp| + 1, i => 0);
    for i := 0 to |hrp|
      invariant |ret| == 2 * |hrp| + 1 && ret[|hrp|] == 0
      invariant forall j :: 0 <= j < i ==> ret[j] == Expanded(hrp)[j]
      invariant forall j :: |hrp| + 1 <= j < |hrp| + 1 + i ==> ret[j] == Expanded(hrp)[j]
    {
      var c := hrp[i];
      ret := ret[i := c as int / 32];
      ret := ret[i + |hrp| + 1 := c as int % 32];
    }
  }

  method VerifyChecksum(hrp: Text, values: seq<Quintet>) returns (ok: bool)
    ensures ok <==> Verifies(hrp, values)
  {
    var expanded := ExpandHRP(hrp);
    var c := PolyMod(expanded + values);
    ok := c == 1;
  }

  method CreateChecksum(hrp: Text, values: seq<Quintet>) returns (ret: seq<Quintet>)
    ensures |ret| == CHECKSUM_LENGTH && Verifies(hrp, values + ret)
  {
    hide Xor, Group, Word, FromWord;
    var enc := ExpandHRP(hrp);
    enc := enc + values;
    ghost var p := enc;
    enc := enc + [0, 0, 0, 0, 0, 0];
    var mod := PolyMod(enc);
    mod := Xor(mod, 1);
    ret := [];
    for i := 0 to CHECKSUM_LENGTH
      invariant |ret| == i
      invariant forall j :: 0 <= j < i ==> ret[j] == FromWord(Group(mod, j))
    {
      ret := ret + [FromWord(Group(mod, i))];
    }
    ChecksumWorks(p, ret, mod);
    assert p + ret == Expanded(hrp) + (values + ret);
  }

  /** The register is affine in the last six symbols. */
  lemma AffineTail(c: bv32, tail: seq<Symbol>, zeros: seq<Symbol>)
    requires |tail| == |zeros| && forall i :: 0 <= i < |zeros| ==> zeros[i] == 0
    ensures Run(c, tail) == Xor(Run(c, zeros), Run(0, tail))
  {
    hide Xor, Step;
    XorZero(c);
    forall i | 0 <= i < |tail|
      ensures tail[i] == Xor(zeros[i], tail[i])
    {
      XorZero(tail[i]);
    }
    RunLinear(c, 0, zeros, tail, tail);
  }

  lemma ChecksumWorks(p: seq<Quintet>, cs: seq<Quintet>, mod: bv32)
    requires mod == Xor(Run(1, Words(p + [0, 0, 0, 0, 0, 0])), 1)
    requires |cs| == 6 && forall i :: 0 <= i < 6 ==> cs[i] == FromWord(Group(mod, i))
    ensures Run(1, Words(p + cs)) == 1
  {
    hide Xor, Group, Word, FromWord, Step;
    var zeros: seq<Quintet> := [0, 0, 0, 0, 0, 0];
    WordsAppend(p, zeros);
    WordsAppend(p, cs);
    var c := Run(1, Words(p));
    RunAppend(1, Words(p), Words(zeros));
    RunAppend(1, Words(p), Words(cs));
    ZeroWord();
    AffineTail(c, Words(cs), Words(zeros));
    RunBound(1, Words(p + zeros));
    var rest := Run(1, Words(p + zeros));
    XorBound(rest);
    forall i | 0 <= i < 6
      ensures Words(cs)[i] == Group(mod, i)
    {
      WordRoundTrip(0, Group(mod, i));
    }
    GroupsRun(mod, Words(cs));
    XorCancels(rest, 1);
  }

  lemma ZeroWord()
    ensures Word(0) == 0
  {
  }

  lemma XorBound(x: bv32)
    requires x < 0x4000_0000
    ensures Xor(x, 1) < 0x4000_0000
  {
  }

  // ---- Strings -----------------------------------------------------------------------------

  ghost function Letters(values: seq<Quintet>): (t: Text)
    ensures |t| == |values| && forall i :: 0 <= i < |t| ==> t[i] == Letter(values[i])
  {
    seq(|values|, i requires 0 <= i < |values| => Letter(values[i]))
  }

  /** The lower-case string of a prefix and a list of symbols. */
  ghost function Written(hrp: Text, values: seq<Quintet>): Text {
    hrp + [SEPARATOR] + Letters(values)
  }

  ghost function Lowered(str: Text): (t: Text)
    ensures |t| == |str| && forall i :: 0 <= i < |t| ==> t[i] == LowerCase(str[i])
  {
    seq(|str|, i requires 0 <= i < |str| => LowerCase(str[i]))
  }

  /** The string of the prefix, the values and six symbols that satisfy the checksum. */
  ghost predicate IsEncoding(str: Text, hrp: Text, values: seq<Quintet>) {
    && |str| == |hrp| + 1 + |values| + CHECKSUM_LENGTH
    && exists all: seq<Quintet> ::
         |all| == |values| + CHECKSUM_LENGTH && values <= all && Verifies(hrp, all) && str == Written(hrp, all)
  }

  ghost predicate OneCase(str: Text) {
    && (forall i :: 0 <= i < |str| ==> Printable(str[i]))
    && !((exists i :: 0 <= i < |str| && IsLower(str[i])) && (exists i :: 0 <= i < |str| && IsUpper(str[i])))
  }

  method Encode(hrp: Text, values: seq<Quintet>) returns (ret: Text)
    ensures IsEncoding(ret, hrp, values)
  {
    hide Letter, Verifies;
    var checksum := CreateChecksum(hrp, values);
    var combined := values + checksum;
    ret := hrp + [SEPARATOR];
    for i := 0 to |combined|
      invariant ret == hrp + [SEPARATOR] + Letters(combined)[..i]
    {
      ret := ret + [Letter(combined[i])];
    }
    assert ret == Written(hrp, combined);
  }

  /** The symbols of str after position pos, when all its characters there are in the set. */
  ghost predicate Reads(str: Text, pos: nat, values: seq<Quintet>) {
    && pos < |str| && |values| == |str| - 1 - pos
    && forall i :: 0 <= i < |values| ==> Value(str[pos + 1 + i]) == values[i]
  }

  ghost predicate LastSeparator(str: Text, pos: int) {
    && -1 <= pos < |str|
    && (0 <= pos ==> str[pos] == SEPARATOR)
    && (forall i :: pos < i < |str| ==> str[i] != SEPARATOR)
  }

  /** A string is written one way only: its last separator ends the prefix. */
  lemma WrittenParses(str: Text, hrp: Text, all: seq<Quintet>)
    requires Lowered(str) == Written(hrp, all)
    ensures LastSeparator(str, |hrp|) && Reads(str, |hrp|, all) && Lowered(str[..|hrp|]) == hrp
  {
    hide Letter, Value, LowerCase;
    var n := |hrp|;
    assert Written(hrp, all)[n] == SEPARATOR;
    LowerSeparator(str[n]);
    forall i | n < i < |str|
      ensures str[i] != SEPARATOR && Value(str[i]) == all[i - n - 1]
    {
      assert LowerCase(str[i]) == Lowered(str)[i] == Written(hrp, all)[i] == Letter(all[i - n - 1]);
      LowerLetter(all[i - n - 1]);
      LowerSeparator(str[i]);
      ValueOther(str[i]);
      LetterValue(all[i - n - 1]);
    }
    assert Lowered(str)[..n] == hrp;
  }

  lemma LowerSeparator(c: Char)
    ensures LowerCase(c) == SEPARATOR <==> c == SEPARATOR
  {
  }

  lemma ReadsWritten(str: Text, pos: nat, values: seq<Quintet>)
    requires LastSeparator(str, pos) && Reads(str, pos, values)
    ensures Lowered(str) == Written(Lowered(str[..pos]), values)
  {
    hide Letter, Value, LowerCase;
    LowerSeparator(str[pos]);
    forall i | pos < i < |str|
      ensures Lowered(str)[i] == Letter(values[i - pos - 1])
    {
      assert Value(str[pos + 1 + (i - pos - 1)]) == values[i - pos - 1];
      ValueLetter(str[i]);
    }
  }

  lemma LastSeparatorUnique(str: Text, p: int, q: int)
    requires LastSeparator(str, p) && LastSeparator(str, q)
    ensures p == q
  {
  }

  /** What an accepted string must look like. */
  lemma EncodingParses(str: Text, hrp: Text, values: seq<Quintet>) returns (all: seq<Quintet>)
    requires IsEncoding(Lowered(str), hrp, values)
    ensures |all| == |values| + CHECKSUM_LENGTH && values == all[..|values|] && Verifies(hrp, all)
    ensures LastSeparator(str, |hrp|) && Reads(str, |hrp|, all) && Lowered(str[..|hrp|]) == hrp
  {
    hide Verifies, Letter, LastSeparator, Reads;
    all :| |all| == |values| + CHECKSUM_LENGTH && values <= all && Verifies(hrp, all)
      && Lowered(str) == Written(hrp, all);
    WrittenParses(str, hrp, all);
  }

  lemma EncodingLength(str: Text, hrp: Text, values: seq<Quintet>)
    requires IsEncoding(Lowered(str), hrp, values)
    ensures |str| == |hrp| + 7 + |values|
  {
  }

  lemma ReadsLength(str: Text, pos: nat, values: seq<Quintet>)
    requires Reads(str, pos, values)
    ensures |values| == |str| - 1 - pos
  {
  }

  lemma ReadsUnique(str: Text, pos: nat, a: seq<Quintet>, b: seq<Quintet>)
    requires Reads(str, pos, a) && Reads(str, pos, b)
    ensures a == b
  {
    hide Value;
    forall i | 0 <= i < |a|
      ensures a[i] == b[i]
    {
      assert Value(str[pos + 1 + i]) == a[i];
    }
  }

  lemma DecodedEncoding(str: Text, pos: nat, values: seq<Quintet>)
    requires LastSeparator(str, pos) && Reads(str, pos, values) && |values| >= CHECKSUM_LENGTH
    requires pos < |str| && Verifies(Lowered(str[..pos]), values)
    ensures IsEncoding(Lowered(str), Lowered(str[..pos]), values[..|values| - CHECKSUM_LENGTH])
  {
    hide Verifies, LastSeparator, Letter;
    ReadsWritten(str, pos, values);
  }

  method CheckCase(str: Text) returns (ok: bool)
    ensures ok <==> OneCase(str)
  {
    var lower, upper := false, false;
    for i := 0 to |str|
      invariant lower <==> exists j :: 0 <= j < i && IsLower(str[j])
      invariant upper <==> exists j :: 0 <= j < i && IsUpper(str[j])
      invariant forall j :: 0 <= j < i ==> Printable(str[j])
    {
      var c := str[i];
      if IsLower(c) {
        lower := true;
      } else if IsUpper(c) {
        upper := true;
      } else if !Printable(c) {
        return false;
      }
    }
    ok := !(lower && upper);
  }

  method FindLast(str: Text) returns (pos: int)
    ensures LastSeparator(str, pos)
  {
    pos := |str| - 1;
    while pos >= 0 && str[pos] != SEPARATOR
      invariant -1 <= pos < |str|
      invariant forall i :: pos < i < |str| ==> str[i] != SEPARATOR
    {
      pos := pos - 1;
    }
  }

  lemma Unreadable(str: Text, pos: nat, i: nat)
    requires pos + 1 + i < |str| && Value(str[pos + 1 + i]) == -1
    ensures forall v :: !Reads(str, pos, v)
  {
    hide Value;
    forall v: seq<Quintet>
      ensures !Reads(str, pos, v)
    {
      if |v| > i {
        assert Value(str[pos + 1 + i]) != v[i];
      }
    }
  }

  method ReadValues(str: Text, pos: nat) returns (values: Option<seq<Quintet>>)
    requires pos < |str|
    ensures values.Some? ==> Reads(str, pos, values.value)
    ensures values.None? ==> forall v :: !Reads(str, pos, v)
  {
    hide Value;
    var vs: seq<Quintet> := [];
    for i := 0 to |str| - 1 - pos
      invariant |vs| == i
      invariant forall j :: 0 <= j < i ==> Value(str[pos + 1 + j]) == vs[j]
    {
      var c := str[i + pos + 1];
      var rev := Value(c);
      if rev == -1 {
        Unreadable(str, pos, i);
        return None;
      }
      vs := vs + [rev];
    }
    values := Some(vs);
  }

  method LowerPrefix(str: Text, pos: nat) returns (hrp: Text)
    requires pos <= |str|
    ensures hrp == Lowered(str[..pos])
  {
    hrp := [];
    for i := 0 to pos
      invariant hrp == Lowered(str[..pos])[..i]
    {
      hrp := hrp + [LowerCase(str[i])];
    }
  }

  /**
   * Accepts exactly the printable, single-case strings of at most 90 characters that are, up to
   * case, the encoding of a non-empty prefix and some values, and returns those.
   */
  method Decode(str: Text) returns (r: Option<(Text, seq<Quintet>)>)
    ensures r.Some? ==>
      OneCase(str) && |str| <= MAX_LENGTH && r.value.0 != [] && IsEncoding(Lowered(str), r.value.0, r.value.1)
    ensures forall h, d ::
      OneCase(str) && |str| <= MAX_LENGTH && h != [] && IsEncoding(Lowered(str), h, d) ==> r == Some((h, d))
  {
    hide OneCase, IsEncoding, LastSeparator, Reads, Verifies, Lowered;
    var ok := CheckCase(str);
    if !ok {
      return None;
    }
    var pos := FindLast(str);
    forall h, d | IsEncoding(Lowered(str), h, d)
      ensures |h| == pos && pos + 7 + |d| == |str|
    {
      var all := EncodingParses(str, h, d);
      LastSeparatorUnique(str, |h|, pos);
      EncodingLength(str, h, d);
    }
    if |str| > MAX_LENGTH || pos == -1 || pos == 0 || pos + 7 > |str| {
      return None;
    }
    var values := ReadValues(str, pos);
    if values.None? {
      forall h, d | IsEncoding(Lowered(str), h, d)
        ensures false
      {
        var all := EncodingParses(str, h, d);
      }
      return None;
    }
    ReadsLength(str, pos, values.value);
    var hrp := LowerPrefix(str, pos);
    forall h, d | IsEncoding(Lowered(str), h, d)
      ensures h == hrp && d == values.value[..|str| - pos - 7] && Verifies(hrp, values.value)
    {
      var all := EncodingParses(str, h, d);
      LastSeparatorUnique(str, |h|, pos);
      ReadsUnique(str, pos, all, values.value);
      EncodingLength(str, h, d);
    }
    var verified := VerifyChecksum(hrp, values.value);
    if !verified {
      return None;
    }
    r := Some((hrp, values.value[..|values.value| - CHECKSUM_LENGTH]));
    DecodedEncoding(str, pos, values.value);
  }

  /** Exactly the inputs that survive encoding and decoding. */
  ghost predicate Encodable(hrp: Text, values: seq<Quintet>) {
    && hrp != []
    && |hrp| + 1 + |values| + CHECKSUM_LENGTH <= MAX_LENGTH
    && forall i :: 0 <= i < |hrp| ==> Printable(hrp[i]) && !IsUpper(hrp[i])
  }

  lemma EncodedLower(str: Text, hrp: Text, values: seq<Quintet>)
    requires IsEncoding(str, hrp, values)
    ensures Lowered(str) == str <==> forall i :: 0 <= i < |hrp| ==> !IsUpper(hrp[i])
    ensures Encodable(hrp, values) ==> OneCase(str)
    ensures OneCase(str) ==> forall i :: 0 <= i < |hrp| ==> Printable(hrp[i])
  {
    hide Letter, Verifies, Value;
    var all :| |all| == |values| + CHECKSUM_LENGTH && values <= all && Verifies(hrp, all) && str == Written(hrp, all);
    forall i | |hrp| < i < |str|
      ensures LowerCase(str[i]) == str[i] && Printable(str[i]) && !IsUpper(str[i])
    {
      LowerLetter(all[i - |hrp| - 1]);
    }
    assert forall i :: 0 <= i < |hrp| ==> str[i] == hrp[i];
    if Lowered(str) == str {
      forall i | 0 <= i < |hrp|
        ensures !IsUpper(hrp[i])
      {
        assert LowerCase(str[i]) == Lowered(str)[i] == str[i];
      }
    }
  }

  lemma EncodingUnique(str: Text, h: Text, d: seq<Quintet>, hrp: Text, values: seq<Quintet>)
    requires IsEncoding(Lowered(str), h, d) && IsEncoding(str, hrp, values)
    ensures h == Lowered(hrp)
  {
    hide Letter, Verifies, Value, LowerCase, Reads;
    var all := EncodingParses(str, h, d);
    var own :| |own| == |values| + CHECKSUM_LENGTH && values <= own && Verifies(hrp, own) && str == Written(hrp, own);
    assert str[|hrp|] == SEPARATOR;
    forall i | |hrp| < i < |str|
      ensures str[i] != SEPARATOR
    {
      LowerLetter(own[i - |hrp| - 1]);
    }
    LastSeparatorUnique(str, |h|, |hrp|);
    assert str[..|hrp|] == hrp;
  }

  method RoundTrip(hrp: Text, values: seq<Quintet>) returns (r: Option<(Text, seq<Quintet>)>)
    ensures r == Some((hrp, values)) <==> Encodable(hrp, values)
  {
    hide IsEncoding, OneCase, Lowered;
    var str := Encode(hrp, values);
    r := Decode(str);
    EncodedLower(str, hrp, values);
    EncodedLength(str, hrp, values);
    if r.Some? {
      EncodingUnique(str, r.value.0, r.value.1, hrp, values);
      LoweredPlain(hrp);
    }
  }

  lemma EncodedLength(str: Text, hrp: Text, values: seq<Quintet>)
    requires IsEncoding(str, hrp, values)
    ensures |str| == |hrp| + 1 + |values| + CHECKSUM_LENGTH
  {
  }

  lemma LoweredPlain(hrp: Text)
    ensures Lowered(hrp) == hrp ==> forall i :: 0 <= i < |hrp| ==> !IsUpper(hrp[i])
  {
    if Lowered(hrp) == hrp {
      forall i | 0 <= i < |hrp|
        ensures !IsUpper(hrp[i])
      {
        assert LowerCase(hrp[i]) == Lowered(hrp)[i];
      }
    }
  }

  // ---- What the checksum detects -----------------------------------------------------------

  /** The two lists differ, and only inside a window of at most six symbols. */
  ghost predicate Burst(a: seq<Quintet>, b: seq<Quintet>, from: nat, end: nat) {
    && |a| == |b| && from <= end <= |a| && end - from <= 6
    && a[..from] == b[..from] && a[end..] == b[end..]
    && a != b
  }

  ghost function Difference(a: seq<Symbol>, b: seq<Symbol>): (d: seq<Symbol>)
    requires |a| == |b|
    ensures XorsTo(a, b, d)
  {
    XorSymbols();
    seq(|a|, i requires 0 <= i < |a| => Xor(a[i], b[i]))
  }

  lemma XorSymbols()
    ensures forall v: Symbol, w: Symbol :: Xor(v, w) < 32
  {
    forall v: Symbol, w: Symbol
      ensures Xor(v, w) < 32
    {
      XorSymbol(v, w);
    }
  }

  lemma XorSymbol(v: bv32, w: bv32)
    requires v < 32 && w < 32
    ensures Xor(v, w) < 32 && (Xor(v, w) == 0 <==> v == w)
  {
  }

  /** Two registers that differ keep differing over a common tail. */
  lemma TailKeepsApart(c: bv32, d: bv32, tail: seq<Symbol>)
    requires c != d && c < 0x4000_0000 && d < 0x4000_0000
    ensures Run(c, tail) != Run(d, tail)
  {
    hide Xor, Step;
    var delta := Xor(c, d);
    XorBelow(c, d);
    var zeros := seq(|tail|, i => 0 as bv32);
    forall i | 0 <= i < |tail|
      ensures zeros[i] == Xor(tail[i], tail[i])
    {
      XorZero(tail[i]);
    }
    RunLinear(c, d, tail, tail, zeros);
    ZerosKeepApart(delta, zeros);
    XorZero(Run(c, tail));
  }

  lemma XorBelow(c: bv32, d: bv32)
    requires c != d && c < 0x4000_0000 && d < 0x4000_0000
    ensures 0 < Xor(c, d) < 0x4000_0000
  {
  }

  /** At most six differing symbols split the register. */
  lemma WindowSplits(c: bv32, v: seq<Symbol>, w: seq<Symbol>)
    requires |v| == |w| <= 6 && v != w
    ensures Run(c, v) != Run(c, w)
  {
    hide Xor, Step, Limit;
    var z := Difference(v, w);
    var i :| 0 <= i < |v| && v[i] != w[i];
    XorSymbol(v[i], w[i]);
    assert z[i] != 0;
    LimitPositive(6 - |v|);
    ShortRunTraces(0, z);
    RunLinear(c, c, v, w, z);
    XorZero(c);
    XorZero(Run(c, v));
  }

  lemma LimitPositive(k: nat)
    requires k <= 6
    ensures 0 < Limit(k)
  {
  }

  /** Of two lists that differ in such a window, at any length, at most one verifies. */
  lemma BurstDetected(hrp: Text, a: seq<Quintet>, b: seq<Quintet>, from: nat, end: nat)
    requires Burst(a, b, from, end)
    ensures !(Verifies(hrp, a) && Verifies(hrp, b))
  {
    hide Step, Word;
    var p := Expanded(hrp) + a[..from];
    var tail := a[end..];
    var m, n := a[from..end], b[from..end];
    assert Expanded(hrp) + a == p + m + tail;
    assert Expanded(hrp) + b == p + n + tail;
    ThreeParts(p, m, tail);
    ThreeParts(p, n, tail);
    BurstMiddle(a, b, from, end);
    WordsDiffer(m, n);
    var c := Run(1, Words(p));
    WindowSplits(c, Words(m), Words(n));
    RunBound(1, Words(p));
    RunBound(c, Words(m));
    RunBound(c, Words(n));
    TailKeepsApart(Run(c, Words(m)), Run(c, Words(n)), Words(tail));
  }

  lemma BurstMiddle(a: seq<Quintet>, b: seq<Quintet>, from: nat, end: nat)
    requires Burst(a, b, from, end)
    ensures a[from..end] != b[from..end]
  {
    assert a == a[..from] + a[from..end] + a[end..];
    assert b == b[..from] + b[from..end] + b[end..];
  }

  lemma ThreeParts(p: seq<Quintet>, m: seq<Quintet>, tail: seq<Quintet>)
    ensures Run(1, Words(p + m + tail)) == Run(Run(Run(1, Words(p)), Words(m)), Words(tail))
  {
    hide Step, Word;
    WordsAppend(p + m, tail);
    WordsAppend(p, m);
    RunAppend(1, Words(p) + Words(m), Words(tail));
    RunAppend(1, Words(p), Words(m));
  }

  lemma WordsDiffer(m: seq<Quintet>, n: seq<Quintet>)
    requires |m| == |n| && m != n
    ensures Words(m) != Words(n)
  {
    hide Word, FromWord;
    var i :| 0 <= i < |m| && m[i] != n[i];
    WordRoundTrip(m[i], 0);
    WordRoundTrip(n[i], 0);
    assert Words(m)[i] != Words(n)[i];
  }

  /** A valid string whose data symbols are changed inside such a window is rejected. */
  method CorruptionRejected(hrp: Text, a: seq<Quintet>, b: seq<Quintet>, from: nat, end: nat, str: Text)
    returns (r: Option<(Text, seq<Quintet>)>)
    requires Verifies(hrp, a) && Burst(a, b, from, end)
    requires Lowered(str) == Written(hrp, b)
    ensures r.None?
  {
    hide Verifies, Burst, Letter, LastSeparator, Lowered;
    r := Decode(str);
    BurstDetected(hrp, a, b, from, end);
    if r.Some? {
      var all := EncodingParses(str, r.value.0, r.value.1);
      WrittenParses(str, hrp, b);
      LastSeparatorUnique(str, |hrp|, |r.value.0|);
      ReadsUnique(str, |hrp|, all, b);
    }
  }

  /** The two lists differ, and only at p, q and r, within a window of 1023 symbols. */
  ghost predicate Scattered(a: seq<Quintet>, b: seq<Quintet>, p: nat, q: nat, r: nat) {
    && |a| == |b| && p < q < r < |a| && r - p < 1023 && a != b
    && forall i :: 0 <= i < |a| && a[i] != b[i] ==> i == p || i == q || i == r
  }

  /** Of two lists that differ in at most three places within such a window, at most one verifies. */
  lemma ScatteredDetected(hrp: Text, a: seq<Quintet>, b: seq<Quintet>, p: nat, q: nat, r: nat)
    requires Scattered(a, b, p, q, r)
    ensures !(Verifies(hrp, a) && Verifies(hrp, b))
  {
    hide Step, Word, Run, Xor;
    var v, w := Words(a), Words(b);
    var z := Difference(v, w);
    ScatteredDifference(a, b, z, p, q, r);
    if Verifies(hrp, a) && Verifies(hrp, b) {
      var c := Run(1, Words(Expanded(hrp)));
      WordsAppend(Expanded(hrp), a);
      WordsAppend(Expanded(hrp), b);
      RunAppend(1, Words(Expanded(hrp)), v);
      RunAppend(1, Words(Expanded(hrp)), w);
      RunLinear(c, c, v, w, z);
      XorZero(c);
      XorZero(1);
      ErrorsTrace(z, p, q, r);
    }
  }

  lemma ScatteredDifference(a: seq<Quintet>, b: seq<Quintet>, z: seq<Symbol>, p: nat, q: nat, r: nat)
    requires Scattered(a, b, p, q, r) && XorsTo(Words(a), Words(b), z)
    ensures OnlyAt(z, p, q, r) && !(z[p] == 0 && z[q] == 0 && z[r] == 0)
  {
    hide Word, FromWord, Xor;
    forall i | 0 <= i < |z| ensures z[i] == 0 <==> a[i] == b[i] {
      XorSymbol(Words(a)[i], Words(b)[i]);
      WordRoundTrip(a[i], 0);
      WordRoundTrip(b[i], 0);
    }
    var i :| 0 <= i < |a| && a[i] != b[i];
  }

  /** A valid string with up to three wrong data symbols is rejected. */
  method ScatteredRejected(hrp: Text, a: seq<Quintet>, b: seq<Quintet>, p: nat, q: nat, s: nat, str: Text)
    returns (r: Option<(Text, seq<Quintet>)>)
    requires Verifies(hrp, a) && Scattered(a, b, p, q, s)
    requires Lowered(str) == Written(hrp, b)
    ensures r.None?
  {
    hide Verifies, Scattered, Letter, LastSeparator, Lowered;
    r := Decode(str);
    ScatteredDetected(hrp, a, b, p, q, s);
    if r.Some? {
      var all := EncodingParses(str, r.value.0, r.value.1);
      WrittenParses(str, hrp, b);
      LastSeparatorUnique(str, |hrp|, |r.value.0|);
      ReadsUnique(str, |hrp|, all, b);
    }
  }

  // ---- Changes of the prefix ---------------------------------------------------------------

  /** Two lists that differ only in three places within a window of 1023 do not both verify. */
  lemma ListsDetected(x: seq<Quintet>, y: seq<Quintet>, p: nat, q: nat, r: nat)
    requires Scattered(x, y, p, q, r)
    ensures !(Run(1, Words(x)) == 1 && Run(1, Words(y)) == 1)
  {
    hide Step, Word, Run, Xor;
    var v, w := Words(x), Words(y);
    var z := Difference(v, w);
    ScatteredDifference(x, y, z, p, q, r);
    if Run(1, v) == 1 && Run(1, w) == 1 {
      RunLinear(1, 1, v, w, z);
      XorZero(1);
      ErrorsTrace(z, p, q, r);
    }
  }

  /** Prefixes of one length, short enough for the window, that differ at most in the characters i, j and k. */
  ghost predicate DifferAt(a: Text, b: Text, i: nat, j: nat, k: nat) {
    && |a| == |b| && 2 * |a| + 1 <= 1023 && a != b && i <= j <= k < |a|
    && forall n :: 0 <= n < |a| && a[n] != b[n] ==> n == i || n == j || n == k
  }

  /**
   * The prefixes differ in one character, or in up to three that agree in their upper bits, as letters of one case and
   * digits do.
   */
  ghost predicate CloseAt(a: Text, b: Text, i: nat, j: nat, k: nat) {
    && DifferAt(a, b, i, j, k)
    && (i == k || forall n :: 0 <= n < |a| ==> a[n] as int / 32 == b[n] as int / 32)
  }

  /** Changing such characters of the prefix, at most one of two texts with the same values verifies. */
  lemma PrefixDetected(a: Text, b: Text, values: seq<Quintet>, i: nat, j: nat, k: nat)
    requires CloseAt(a, b, i, j, k)
    ensures !(Verifies(a, values) && Verifies(b, values))
  {
    hide Run, Word, Expanded;
    var n := |a|;
    var x, y := Expanded(a) + values, Expanded(b) + values;
    SamePlaces(a, b, values, i, j, k);
    if i == k {
      ListsDetected(x, y, i, n, n + 1 + i);
    } else if i == j {
      ListsDetected(x, y, n, n + 1 + i, n + 1 + k);
    } else if j == k {
      ListsDetected(x, y, n, n + 1 + i, n + 1 + k);
    } else {
      ListsDetected(x, y, n + 1 + i, n + 1 + j, n + 1 + k);
    }
  }

  /** Where the expanded lists differ: at the upper and the lower bits of a changed character. */
  lemma SamePlaces(a: Text, b: Text, values: seq<Quintet>, i: nat, j: nat, k: nat)
    requires CloseAt(a, b, i, j, k)
    ensures var n := |a|;
            var x, y := Expanded(a) + values, Expanded(b) + values;
            && |x| == |y| >= 2 * n + 1 && x != y
            && (forall p :: 0 <= p < |x| && x[p] != y[p] ==>
                  p == n + 1 + i || p == n + 1 + j || p == n + 1 + k || (i == k && p == i))
  {
    var n := |a|;
    var x, y := Expanded(a) + values, Expanded(b) + values;
    var m :| 0 <= m < n && a[m] != b[m];
    assert x[m] == a[m] as int / 32 && y[m] == b[m] as int / 32;
    assert x[n + 1 + m] == a[m] as int % 32 && y[n + 1 + m] == b[m] as int % 32;
    forall p | 0 <= p < |x| && x[p] != y[p]
      ensures p == n + 1 + i || p == n + 1 + j || p == n + 1 + k || (i == k && p == i)
    {
      if p < n {
        assert a[p] != b[p];
      } else if p > n && p < 2 * n + 1 {
        assert a[p - n - 1] != b[p - n - 1];
      }
    }
  }

  /** A valid string whose prefix is changed so is rejected. */
  method PrefixRejected(a: Text, b: Text, values: seq<Quintet>, i: nat, j: nat, k: nat, str: Text)
    returns (r: Option<(Text, seq<Quintet>)>)
    requires Verifies(a, values) && CloseAt(a, b, i, j, k)
    requires Lowered(str) == Written(b, values)
    ensures r.None?
  {
    hide Verifies, CloseAt, Letter, LastSeparator, Lowered;
    r := Decode(str);
    PrefixDetected(a, b, values, i, j, k);
    if r.Some? {
      var all := EncodingParses(str, r.value.0, r.value.1);
      WrittenParses(str, b, values);
      LastSeparatorUnique(str, |b|, |r.value.0|);
      ReadsUnique(str, |b|, all, values);
    }
  }

  // ---- A known text ------------------------------------------------------------------------

  /** The shortest text of the tests: the prefix "a", no values, and its checksum. */
  lemma KnownText()
    ensures IsEncoding("a12uel5l", "a", [])
  {
    hide Step, Run, Word;
    var all: seq<Quintet> := [10, 28, 25, 31, 20, 31];
    assert Verifies("a", all) by {
      assert Expanded("a") == [3, 0, 1];
      assert Expanded("a") + all == [3, 0, 1, 10, 28, 25, 31, 20, 31];
      KnownRun();
    }
    assert Written("a", all) == "a12uel5l";
  }

  lemma KnownRun()
    ensures Run(1, Words([3, 0, 1, 10, 28, 25, 31, 20, 31])) == 1
  {
    hide Step;
    var w: seq<Symbol> := [3, 0, 1, 10, 28, 25, 31, 20, 31];
    assert Words([3, 0, 1, 10, 28, 25, 31, 20, 31]) == w;
    KnownSteps();
    assert w[1..][1..] == w[2..] && w[2..][1..] == w[3..] && w[3..] == [10, 28, 25, 31, 20, 31];
    assert Run(1, w) == Run(Step(1, 3), w[1..]) == Run(Step(0x23, 0), w[2..]) == Run(Step(0x460, 1), w[3..]);
    SixSteps(0x8c01, w[3..]);
  }

  lemma KnownSteps()
    ensures Step(0x1, 3) == 0x23 && Step(0x23, 0) == 0x460 && Step(0x460, 1) == 0x8c01 && Step(0x8c01, 10) == 0x11802a
    ensures Step(0x11802a, 28) == 0x230055c && Step(0x230055c, 25) == 0x3d6afc2b
    ensures Step(0x3d6afc2b, 31) == 0x2f84386 && Step(0x2f84386, 20) == 0x24622766
    ensures Step(0x24622766, 31) == 1
  {}
}
