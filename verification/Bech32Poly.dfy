/**
 * The Bech32 checksum register as linear algebra: one step is linear over exclusive or,
 * loses nothing, and the last six symbols enter the register unmixed.
 */
module Bech32Poly {
  /** A 5-bit value. */
  type Symbol = v: bv32 | v < 32

  function Xor(a: bv32, b: bv32): bv32 { a ^ b }

  function Shifted(c: bv32): bv32 { (c & 0x1ffffff) << 5 }

  function Top(c: bv32): bv32 { c >> 25 }

  function Term(t: bv32, bit: bv32, k: bv32): bv32 { if t & bit != 0 then k else 0 }

  /** The remainder of t(x) * x^6: one generator multiple for each set bit of the top symbol. */
  function Remainder(t: bv32): bv32 {
    Xor(Term(t, 1, 0x3b6a57b2), Xor(Term(t, 2, 0x26508e6d), Xor(Term(t, 4, 0x1ea119fa),
    Xor(Term(t, 8, 0x3d4233dd), Term(t, 16, 0x2a1462b3)))))
  }

  function Step(c: bv32, v: bv32): bv32 {
    Xor(Xor(Shifted(c), v), Remainder(Top(c)))
  }

  function Run(c: bv32, v: seq<Symbol>): bv32
    decreases |v|
  {
    if v == [] then c else Run(Step(c, v[0]), v[1..])
  }

  // ---- Exclusive or ------------------------------------------------------------------------

  lemma XorAssociates(a: bv32, b: bv32, c: bv32)
    ensures Xor(Xor(a, b), c) == Xor(a, Xor(b, c))
  {
  }

  lemma XorCommutes(a: bv32, b: bv32)
    ensures Xor(a, b) == Xor(b, a)
  {
  }

  lemma XorZero(a: bv32)
    ensures Xor(a, 0) == a && Xor(0, a) == a && Xor(a, a) == 0
  {
  }

  lemma XorCancels(a: bv32, b: bv32)
    ensures Xor(a, Xor(a, b)) == b
  {
    hide Xor;
    XorAssociates(a, a, b);
    XorZero(a);
    XorZero(b);
  }

  lemma Exchange(a: bv32, b: bv32, c: bv32, d: bv32)
    ensures Xor(Xor(a, b), Xor(c, d)) == Xor(Xor(a, c), Xor(b, d))
  {
    hide Xor;
    XorAssociates(a, b, Xor(c, d));
    XorAssociates(b, c, d);
    XorCommutes(b, c);
    XorAssociates(c, b, d);
    XorAssociates(a, c, Xor(b, d));
  }

  // ---- One step ----------------------------------------------------------------------------

  lemma TermLinear(a: bv32, b: bv32, bit: bv32, k: bv32)
    requires bit & (bit - 1) == 0
    ensures Term(Xor(a, b), bit, k) == Xor(Term(a, bit, k), Term(b, bit, k))
  {
    assert (a ^ b) & bit == (a & bit) ^ (b & bit);
  }

  lemma RemainderLinear(a: bv32, b: bv32)
    ensures Remainder(Xor(a, b)) == Xor(Remainder(a), Remainder(b))
  {
    hide Xor, Term;
    TermLinear(a, b, 1, 0x3b6a57b2);
    TermLinear(a, b, 2, 0x26508e6d);
    TermLinear(a, b, 4, 0x1ea119fa);
    TermLinear(a, b, 8, 0x3d4233dd);
    TermLinear(a, b, 16, 0x2a1462b3);
    var a4, b4 := Term(a, 16, 0x2a1462b3), Term(b, 16, 0x2a1462b3);
    var a3, b3 := Xor(Term(a, 8, 0x3d4233dd), a4), Xor(Term(b, 8, 0x3d4233dd), b4);
    var a2, b2 := Xor(Term(a, 4, 0x1ea119fa), a3), Xor(Term(b, 4, 0x1ea119fa), b3);
    var a1, b1 := Xor(Term(a, 2, 0x26508e6d), a2), Xor(Term(b, 2, 0x26508e6d), b2);
    Exchange(Term(a, 8, 0x3d4233dd), Term(b, 8, 0x3d4233dd), a4, b4);
    Exchange(Term(a, 4, 0x1ea119fa), Term(b, 4, 0x1ea119fa), a3, b3);
    Exchange(Term(a, 2, 0x26508e6d), Term(b, 2, 0x26508e6d), a2, b2);
    Exchange(Term(a, 1, 0x3b6a57b2), Term(b, 1, 0x3b6a57b2), a1, b1);
  }

  lemma ShiftLinear(c: bv32, d: bv32)
    ensures Shifted(Xor(c, d)) == Xor(Shifted(c), Shifted(d))
    ensures Top(Xor(c, d)) == Xor(Top(c), Top(d))
  {
  }

  lemma StepLinear(c: bv32, d: bv32, v: bv32, w: bv32)
    ensures Step(Xor(c, d), Xor(v, w)) == Xor(Step(c, v), Step(d, w))
  {
    hide Remainder, Xor, Top, Shifted;
    ShiftLinear(c, d);
    RemainderLinear(Top(c), Top(d));
    Exchange(Shifted(c), Shifted(d), v, w);
    Exchange(Xor(Shifted(c), v), Xor(Shifted(d), w), Remainder(Top(c)), Remainder(Top(d)));
  }

  /** A step on a non-zero register never gives zero: the generator has a constant term. */
  lemma StepLosesNothing(c: bv32)
    requires c < 0x4000_0000 && Step(c, 0) == 0
    ensures c == 0
  {
  }

  lemma StepBound(c: bv32, v: Symbol)
    requires c < 0x4000_0000
    ensures Step(c, v) < 0x4000_0000
  {
  }

  /** The register holding at most k symbols. */
  function Limit(k: nat): bv32
    requires k <= 6
  {
    if k == 0 then 0x1 else if k == 1 then 0x20 else if k == 2 then 0x400 else if k == 3 then 0x8000
    else if k == 4 then 0x10_0000 else if k == 5 then 0x200_0000 else 0x4000_0000
  }

  /** Into a register with room a symbol is only appended. */
  lemma StepAppends(c: bv32, v: Symbol, k: nat)
    requires k <= 5 && c < Limit(k)
    ensures Step(c, v) == (c << 5) | v
    ensures Step(c, v) < Limit(k + 1)
    ensures Step(c, v) == 0 <==> c == 0 && v == 0
  {
    assert c < 0x200_0000;
    StepRoom(c, v);
    AppendBound(c, v, k);
  }

  lemma StepRoom(c: bv32, v: Symbol)
    requires c < 0x200_0000
    ensures Step(c, v) == (c << 5) | v
    ensures Step(c, v) == 0 <==> c == 0 && v == 0
  {
  }

  lemma AppendBound(c: bv32, v: Symbol, k: nat)
    requires k <= 5 && c < Limit(k)
    ensures (c << 5) | v < Limit(k + 1)
  {
  }

  // ---- Runs --------------------------------------------------------------------------------

  lemma {:induction false} RunAppend(c: bv32, a: seq<Symbol>, b: seq<Symbol>)
    ensures Run(c, a + b) == Run(Run(c, a), b)
    decreases |a|
  {
    hide Step;
    if a == [] {
      assert a + b == b;
    } else {
      assert (a + b)[1..] == a[1..] + b;
      RunAppend(Step(c, a[0]), a[1..], b);
    }
  }

  lemma {:induction false} RunBound(c: bv32, v: seq<Symbol>)
    requires c < 0x4000_0000
    ensures Run(c, v) < 0x4000_0000
    decreases |v|
  {
    hide Step;
    if v != [] {
      StepBound(c, v[0]);
      RunBound(Step(c, v[0]), v[1..]);
    }
  }

  ghost predicate XorsTo(v: seq<Symbol>, w: seq<Symbol>, z: seq<Symbol>) {
    |v| == |w| == |z| && forall i :: 0 <= i < |v| ==> z[i] == Xor(v[i], w[i])
  }

  lemma {:induction false} RunLinear(c: bv32, d: bv32, v: seq<Symbol>, w: seq<Symbol>, z: seq<Symbol>)
    requires XorsTo(v, w, z)
    ensures Run(Xor(c, d), z) == Xor(Run(c, v), Run(d, w))
    decreases |v|
  {
    hide Step, Xor;
    if v != [] {
      StepLinear(c, d, v[0], w[0]);
      RunLinear(Step(c, v[0]), Step(d, w[0]), v[1..], w[1..], z[1..]);
    }
  }

  lemma {:induction false} ZerosKeepApart(c: bv32, zeros: seq<Symbol>)
    requires 0 < c < 0x4000_0000 && forall i :: 0 <= i < |zeros| ==> zeros[i] == 0
    ensures Run(c, zeros) != 0
    decreases |zeros|
  {
    hide Step;
    if zeros != [] {
      StepBound(c, 0);
      if Step(c, 0) == 0 {
        StepLosesNothing(c);
      } else {
        ZerosKeepApart(Step(c, 0), zeros[1..]);
      }
    }
  }

  ghost predicate NonZero(v: seq<Symbol>) {
    exists i :: 0 <= i < |v| && v[i] != 0
  }

  lemma NonZeroTail(v: seq<Symbol>)
    requires NonZero(v) && v[0] == 0
    ensures NonZero(v[1..])
  {
    var i :| 0 <= i < |v| && v[i] != 0;
    assert v[1..][i - 1] != 0;
  }

  lemma StepFills(c: bv32, v: Symbol, k: nat)
    requires k <= 5 && c < Limit(k)
    ensures Step(c, v) < Limit(k + 1)
    ensures Step(c, v) == 0 <==> c == 0 && v == 0
  {
    StepAppends(c, v, k);
  }

  /** At most six symbols, not all zero, leave a trace in the empty register. */
  lemma {:induction false} ShortRunTraces(c: bv32, v: seq<Symbol>)
    requires |v| <= 6 && c < Limit(6 - |v|)
    requires c != 0 || NonZero(v)
    ensures Run(c, v) != 0
    decreases |v|
  {
    hide Step, Limit;
    if v != [] {
      StepFills(c, v[0], 6 - |v|);
      if c == 0 && v[0] == 0 {
        NonZeroTail(v);
      }
      ShortRunTraces(Step(c, v[0]), v[1..]);
    }
  }

  // ---- Six symbols as one word -------------------------------------------------------------

  function Group(x: bv32, i: nat): Symbol
    requires i < 6
  {
    if i == 0 then (x >> 25) & 31 else if i == 1 then (x >> 20) & 31 else if i == 2 then (x >> 15) & 31
    else if i == 3 then (x >> 10) & 31 else if i == 4 then (x >> 5) & 31 else x & 31
  }

  lemma GroupsRebuild(x: bv32)
    requires x < 0x4000_0000
    ensures
      (((((((((((Group(x, 0) << 5) | Group(x, 1)) << 5) | Group(x, 2)) << 5) | Group(x, 3)) << 5)
        | Group(x, 4)) << 5) | Group(x, 5))) == x
  {
  }

  /** Running the six groups of a word through the empty register gives the word. */
  lemma GroupsRun(x: bv32, s: seq<Symbol>)
    requires x < 0x4000_0000
    requires |s| == 6 && forall i :: 0 <= i < 6 ==> s[i] == Group(x, i)
    ensures Run(0, s) == x
  {
    hide Step, Group;
    var s0, s1, s2, s3, s4, s5 := s[0], s[1], s[2], s[3], s[4], s[5];
    var c1 := Step(0, s0);
    StepAppends(0, s0, 0);
    ZeroShift(s0);
    var c2 := Step(c1, s1);
    StepAppends(c1, s1, 1);
    var c3 := Step(c2, s2);
    StepAppends(c2, s2, 2);
    var c4 := Step(c3, s3);
    StepAppends(c3, s3, 3);
    var c5 := Step(c4, s4);
    StepAppends(c4, s4, 4);
    var c6 := Step(c5, s5);
    StepAppends(c5, s5, 5);
    GroupsRebuild(x);
    SixSteps(0, s);
  }

  lemma ZeroShift(v: bv32)
    ensures ((0 as bv32) << 5) | v == v
  {
  }

  lemma SixSteps(c: bv32, s: seq<Symbol>)
    requires |s| == 6
    ensures Run(c, s) == Step(Step(Step(Step(Step(Step(c, s[0]), s[1]), s[2]), s[3]), s[4]), s[5])
  {
    hide Step;
    assert s[1..][1..] == s[2..] && s[2..][1..] == s[3..] && s[3..][1..] == s[4..] && s[4..][1..] == s[5..];
    assert s[5..][1..] == [];
    var c1 := Step(c, s[0]);
    var c2 := Step(c1, s[1]);
    var c3 := Step(c2, s[2]);
    var c4 := Step(c3, s[3]);
    var c5 := Step(c4, s[4]);
    assert Run(c, s) == Run(c1, s[1..]) == Run(c2, s[2..]) == Run(c3, s[3..]) == Run(c4, s[4..]) == Run(c5, s[5..]);
    assert Run(c5, s[5..]) == Run(Step(c5, s[5]), []);
  }
}
