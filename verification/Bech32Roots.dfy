/**
 * The roots of the Bech32 generator: z^24, z^25 and z^26. A step of the checksum register
 * multiplies its value at a root by the root and adds the symbol.
 */
module Bech32Roots {
  import opened Bech32Poly
  import opened Bech32Field

  // ---- Symbols as field elements -----------------------------------------------------------

  function Pick(v: bv32, bit: bv32, e: bv10): bv10 { if v & bit != 0 then e else 0 }

  /** The symbols are the subfield of 32 elements. */
  function Embed(v: bv32): bv10 {
    Add(Pick(v, 1, 1), Add(Pick(v, 2, 0x0e), Add(Pick(v, 4, 0x54), Add(Pick(v, 8, 0x358), Pick(v, 16, 0xbf)))))
  }

  lemma PickLinear(a: bv32, b: bv32, bit: bv32, e: bv10)
    requires bit & (bit - 1) == 0
    ensures Pick(Xor(a, b), bit, e) == Add(Pick(a, bit, e), Pick(b, bit, e))
  {
    assert (a ^ b) & bit == (a & bit) ^ (b & bit);
  }

  lemma EmbedLinear(a: bv32, b: bv32)
    ensures Embed(Xor(a, b)) == Add(Embed(a), Embed(b))
  {
    hide Add, Pick, Xor;
    PickLinear(a, b, 1, 1);
    PickLinear(a, b, 2, 0x0e);
    PickLinear(a, b, 4, 0x54);
    PickLinear(a, b, 8, 0x358);
    PickLinear(a, b, 16, 0xbf);
    var a3, b3 := Add(Pick(a, 8, 0x358), Pick(a, 16, 0xbf)), Add(Pick(b, 8, 0x358), Pick(b, 16, 0xbf));
    var a2, b2 := Add(Pick(a, 4, 0x54), a3), Add(Pick(b, 4, 0x54), b3);
    var a1, b1 := Add(Pick(a, 2, 0x0e), a2), Add(Pick(b, 2, 0x0e), b2);
    Exchanged(Pick(a, 8, 0x358), Pick(b, 8, 0x358), Pick(a, 16, 0xbf), Pick(b, 16, 0xbf));
    Exchanged(Pick(a, 4, 0x54), Pick(b, 4, 0x54), a3, b3);
    Exchanged(Pick(a, 2, 0x0e), Pick(b, 2, 0x0e), a2, b2);
    Exchanged(Pick(a, 1, 1), Pick(b, 1, 1), a1, b1);
  }

  lemma EmbedInjective(v: Symbol)
    requires Embed(v) == 0
    ensures v == 0
  {}

  // ---- The register at a root --------------------------------------------------------------

  /** The six symbols of the register as a polynomial, evaluated at e. */
  function Eval(e: bv10, c: bv32): bv10 {
    Next(e, Next(e, Next(e, Next(e, Next(e, Embed(Group(c, 0)), Group(c, 1)), Group(c, 2)), Group(c, 3)), Group(c, 4)),
         Group(c, 5))
  }

  function Next(e: bv10, y: bv10, v: bv32): bv10 { Add(Times(e, y), Embed(v)) }

  lemma GroupLinear(a: bv32, b: bv32, i: nat)
    requires i < 6
    ensures Group(Xor(a, b), i) == Xor(Group(a, i), Group(b, i))
  {
    hide Xor;
    if i == 0 {
      Symbol0Linear(a, b);
    } else if i == 1 {
      Symbol1Linear(a, b);
    } else if i == 2 {
      Symbol2Linear(a, b);
    } else if i == 3 {
      Symbol3Linear(a, b);
    } else if i == 4 {
      Symbol4Linear(a, b);
    } else {
      Symbol5Linear(a, b);
    }
  }

  lemma Symbol0Linear(a: bv32, b: bv32)
    ensures (Xor(a, b) >> 25) & 31 == Xor((a >> 25) & 31, (b >> 25) & 31)
  {}

  lemma Symbol1Linear(a: bv32, b: bv32)
    ensures (Xor(a, b) >> 20) & 31 == Xor((a >> 20) & 31, (b >> 20) & 31)
  {}

  lemma Symbol2Linear(a: bv32, b: bv32)
    ensures (Xor(a, b) >> 15) & 31 == Xor((a >> 15) & 31, (b >> 15) & 31)
  {}

  lemma Symbol3Linear(a: bv32, b: bv32)
    ensures (Xor(a, b) >> 10) & 31 == Xor((a >> 10) & 31, (b >> 10) & 31)
  {}

  lemma Symbol4Linear(a: bv32, b: bv32)
    ensures (Xor(a, b) >> 5) & 31 == Xor((a >> 5) & 31, (b >> 5) & 31)
  {}

  lemma Symbol5Linear(a: bv32, b: bv32)
    ensures Xor(a, b) & 31 == Xor(a & 31, b & 31)
  {}

  lemma TimesAdd(k: nat, e: bv10, a: bv10, b: bv10)
    requires Power(k, 1) == e
    ensures Times(e, Add(a, b)) == Add(Times(e, a), Times(e, b)) && Times(e, 0) == 0
  {
    hide Times, Power, Add;
    PowerTimes(k, a);
    PowerTimes(k, b);
    PowerTimes(k, Add(a, b));
    PowerLinear(k, a, b);
    PowerTimes(k, 0);
    PowerZero(k);
  }

  lemma NextLinear(k: nat, e: bv10, y: bv10, x: bv10, v: bv32, w: bv32)
    requires Power(k, 1) == e
    ensures Next(e, Add(y, x), Xor(v, w)) == Add(Next(e, y, v), Next(e, x, w))
  {
    hide Times, Power, Add, Embed, Xor;
    TimesAdd(k, e, y, x);
    EmbedLinear(v, w);
    Exchanged(Times(e, y), Times(e, x), Embed(v), Embed(w));
  }

  lemma EvalLinear(k: nat, e: bv10, a: bv32, b: bv32)
    requires Power(k, 1) == e
    ensures Eval(e, Xor(a, b)) == Add(Eval(e, a), Eval(e, b))
  {
    hide Next, Power, Add, Embed, Xor, Group;
    GroupLinear(a, b, 0);
    GroupLinear(a, b, 1);
    GroupLinear(a, b, 2);
    GroupLinear(a, b, 3);
    GroupLinear(a, b, 4);
    GroupLinear(a, b, 5);
    EmbedLinear(Group(a, 0), Group(b, 0));
    var a0, b0 := Embed(Group(a, 0)), Embed(Group(b, 0));
    var a1, b1 := Next(e, a0, Group(a, 1)), Next(e, b0, Group(b, 1));
    var a2, b2 := Next(e, a1, Group(a, 2)), Next(e, b1, Group(b, 2));
    var a3, b3 := Next(e, a2, Group(a, 3)), Next(e, b2, Group(b, 3));
    var a4, b4 := Next(e, a3, Group(a, 4)), Next(e, b3, Group(b, 4));
    NextLinear(k, e, a0, b0, Group(a, 1), Group(b, 1));
    NextLinear(k, e, a1, b1, Group(a, 2), Group(b, 2));
    NextLinear(k, e, a2, b2, Group(a, 3), Group(b, 3));
    NextLinear(k, e, a3, b3, Group(a, 4), Group(b, 4));
    NextLinear(k, e, a4, b4, Group(a, 5), Group(b, 5));
  }

  // ---- The roots ---------------------------------------------------------------------------

  /** The symbols of a register, from the top. */
  ghost predicate HasGroups(c: bv32, v0: bv32, v1: bv32, v2: bv32, v3: bv32, v4: bv32, v5: bv32) {
    && Group(c, 0) == v0 && Group(c, 1) == v1 && Group(c, 2) == v2
    && Group(c, 3) == v3 && Group(c, 4) == v4 && Group(c, 5) == v5
  }

  lemma EvalIs(e: bv10, c: bv32, v0: bv32, v1: bv32, v2: bv32, v3: bv32, v4: bv32, v5: bv32,
               y1: bv10, y2: bv10, y3: bv10, y4: bv10, y5: bv10)
    requires HasGroups(c, v0, v1, v2, v3, v4, v5)
    requires Next(e, Embed(v0), v1) == y1 && Next(e, y1, v2) == y2 && Next(e, y2, v3) == y3
    requires Next(e, y3, v4) == y4 && Next(e, y4, v5) == y5
    ensures Eval(e, c) == y5
  {
    hide Next, Embed;
  }

  lemma Groups1()
    ensures HasGroups(0x3b6a57b2, 29, 22, 20, 21, 29, 18)
  {}

  lemma Groups2()
    ensures HasGroups(0x26508e6d, 19, 5, 1, 3, 19, 13)
  {}

  lemma Groups4()
    ensures HasGroups(0x1ea119fa, 15, 10, 2, 6, 15, 26)
  {}

  lemma Groups8()
    ensures HasGroups(0x3d4233dd, 30, 20, 4, 12, 30, 29)
  {}

  lemma Groups16()
    ensures HasGroups(0x2a1462b3, 21, 1, 8, 24, 21, 19)
  {}

  lemma Generator1At24()
    ensures Eval(0x3f0, 0x3b6a57b2) == 0x2ba
  {
    hide HasGroups, Eval;
    Groups1();
    EvalIs(0x3f0, 0x3b6a57b2, 29, 22, 20, 21, 29, 18, 0x7d, 0x7d, 0x7c, 0xd4, 0x2ba);
  }

  lemma Generator2At24()
    ensures Eval(0x3f0, 0x26508e6d) == 0x1a5
  {
    hide HasGroups, Eval;
    Groups2();
    EvalIs(0x3f0, 0x26508e6d, 19, 5, 1, 3, 19, 13, 0x2e6, 0x2e6, 0x2e8, 0x17b, 0x1a5);
  }

  lemma Generator4At24()
    ensures Eval(0x3f0, 0x1ea119fa) == 0x2b0
  {
    hide HasGroups, Eval;
    Groups4();
    EvalIs(0x3f0, 0x1ea119fa, 15, 10, 2, 6, 15, 26, 0x28d, 0x28d, 0x2d9, 0x3a7, 0x2b0);
  }

  lemma Generator8At24()
    ensures Eval(0x3f0, 0x3d4233dd) == 0x1c9
  {
    hide HasGroups, Eval;
    Groups8();
    EvalIs(0x3f0, 0x3d4233dd, 30, 20, 4, 12, 30, 29, 0xaf, 0xaf, 0x3f7, 0x66, 0x1c9);
  }

  lemma Generator16At24()
    ensures Eval(0x3f0, 0x2a1462b3) == 0xb8
  {
    hide HasGroups, Eval;
    Groups16();
    EvalIs(0x3f0, 0x2a1462b3, 21, 1, 8, 24, 21, 19, 0x3b9, 0x3b9, 0x306, 0x264, 0xb8);
  }

  lemma Generator1At25()
    ensures Eval(0x2c3, 0x3b6a57b2) == 0xa6
  {
    hide HasGroups, Eval;
    Groups1();
    EvalIs(0x2c3, 0x3b6a57b2, 29, 22, 20, 21, 29, 18, 0x1d5, 0x3ad, 0x69, 0x3df, 0xa6);
  }

  lemma Generator2At25()
    ensures Eval(0x2c3, 0x26508e6d) == 0x3c7
  {
    hide HasGroups, Eval;
    Groups2();
    EvalIs(0x2c3, 0x26508e6d, 19, 5, 1, 3, 19, 13, 0x10, 0xa, 0x23e, 0x2b6, 0x3c7);
  }

  lemma Generator4At25()
    ensures Eval(0x2c3, 0x1ea119fa) == 0x226
  {
    hide HasGroups, Eval;
    Groups4();
    EvalIs(0x2c3, 0x1ea119fa, 15, 10, 2, 6, 15, 26, 0xe0, 0x6c, 0x3be, 0x1ed, 0x226);
  }

  lemma Generator8At25()
    ensures Eval(0x2c3, 0x3d4233dd) == 0x32e
  {
    hide HasGroups, Eval;
    Groups8();
    EvalIs(0x2c3, 0x3d4233dd, 30, 20, 4, 12, 30, 29, 0x63, 0x208, 0xf8, 0x140, 0x32e);
  }

  lemma Generator16At25()
    ensures Eval(0x2c3, 0x2a1462b3) == 0x23b
  {
    hide HasGroups, Eval;
    Groups16();
    EvalIs(0x2c3, 0x2a1462b3, 21, 1, 8, 24, 21, 19, 0x252, 0x2ba, 0xf3, 0x2e5, 0x23b);
  }

  lemma Generator1At26()
    ensures Eval(0xa5, 0x3b6a57b2) == 0x98
  {
    hide HasGroups, Eval;
    Groups1();
    EvalIs(0xa5, 0x3b6a57b2, 29, 22, 20, 21, 29, 18, 0x285, 0xaa, 0x137, 0x193, 0x98);
  }

  lemma Generator2At26()
    ensures Eval(0xa5, 0x26508e6d) == 0x2b3
  {
    hide HasGroups, Eval;
    Groups2();
    EvalIs(0xa5, 0x26508e6d, 19, 5, 1, 3, 19, 13, 0xdf, 0x38f, 0x6f, 0x3b4, 0x2b3);
  }

  lemma Generator4At26()
    ensures Eval(0xa5, 0x1ea119fa) == 0x1db
  {
    hide HasGroups, Eval;
    Groups4();
    EvalIs(0xa5, 0x1ea119fa, 15, 10, 2, 6, 15, 26, 0x119, 0x1d6, 0x21a, 0x94, 0x1db);
  }

  lemma Generator8At26()
    ensures Eval(0xa5, 0x3d4233dd) == 0x44
  {
    hide HasGroups, Eval;
    Groups8();
    EvalIs(0xa5, 0x3d4233dd, 30, 20, 4, 12, 30, 29, 0x1fb, 0x2, 0x246, 0x2fb, 0x44);
  }

  lemma Generator16At26()
    ensures Eval(0xa5, 0x2a1462b3) == 0x3b8
  {
    hide HasGroups, Eval;
    Groups16();
    EvalIs(0xa5, 0x2a1462b3, 21, 1, 8, 24, 21, 19, 0x184, 0x1c, 0x16e, 0x22b, 0x3b8);
  }

  /** What makes e = z^k a root of the generator; f is e to the sixth. */
  ghost predicate IsRoot(k: nat, e: bv10, f: bv10) {
    && Power(k, 1) == e && Power(6 * k, 1) == f
    && Eval(e, 0x3b6a57b2) == Times(f, 1) && Eval(e, 0x26508e6d) == Times(f, 0x0e)
        && Eval(e, 0x1ea119fa) == Times(f, 0x54)
    && Eval(e, 0x3d4233dd) == Times(f, 0x358) && Eval(e, 0x2a1462b3) == Times(f, 0xbf)
  }

  lemma EvalZero(k: nat, e: bv10)
    requires Power(k, 1) == e
    ensures Eval(e, 0) == 0
  {
    hide Eval, Power, Add;
    EvalLinear(k, e, 0, 0);
    XorZero(0);
    AddFacts(Eval(e, 0), Eval(e, 0), 0);
  }

  lemma TermAt(k: nat, e: bv10, f: bv10, t: bv32, bit: bv32, g: bv32, x: bv10)
    requires Power(k, 1) == e && Power(6 * k, 1) == f && Eval(e, g) == Times(f, x)
    ensures Eval(e, Term(t, bit, g)) == Times(f, Pick(t, bit, x))
  {
    hide Eval, Power, Times;
    EvalZero(k, e);
    TimesAdd(6 * k, f, 0, 0);
  }

  lemma SumAt(k: nat, e: bv10, f: bv10, c: bv32, d: bv32, y: bv10, x: bv10)
    requires Power(k, 1) == e && Power(6 * k, 1) == f && Eval(e, c) == Times(f, y) && Eval(e, d) == Times(f, x)
    ensures Eval(e, Xor(c, d)) == Times(f, Add(y, x))
  {
    hide Eval, Power, Times, Add, Xor;
    EvalLinear(k, e, c, d);
    TimesAdd(6 * k, f, y, x);
  }

  /** At a root, the remainder of t(x) * x^6 has the value that t * x^6 has. */
  lemma RemainderAt(k: nat, e: bv10, f: bv10, t: bv32)
    requires IsRoot(k, e, f)
    ensures Eval(e, Remainder(t)) == Times(f, Embed(t))
  {
    hide Eval, Power, Times, Add, Xor, Term, Pick;
    TermAt(k, e, f, t, 1, 0x3b6a57b2, 1);
    TermAt(k, e, f, t, 2, 0x26508e6d, 0x0e);
    TermAt(k, e, f, t, 4, 0x1ea119fa, 0x54);
    TermAt(k, e, f, t, 8, 0x3d4233dd, 0x358);
    TermAt(k, e, f, t, 16, 0x2a1462b3, 0xbf);
    var c4, y4 := Term(t, 16, 0x2a1462b3), Pick(t, 16, 0xbf);
    var c3, y3 := Xor(Term(t, 8, 0x3d4233dd), c4), Add(Pick(t, 8, 0x358), y4);
    var c2, y2 := Xor(Term(t, 4, 0x1ea119fa), c3), Add(Pick(t, 4, 0x54), y3);
    var c1, y1 := Xor(Term(t, 2, 0x26508e6d), c2), Add(Pick(t, 2, 0x0e), y2);
    SumAt(k, e, f, Term(t, 8, 0x3d4233dd), c4, Pick(t, 8, 0x358), y4);
    SumAt(k, e, f, Term(t, 4, 0x1ea119fa), c3, Pick(t, 4, 0x54), y3);
    SumAt(k, e, f, Term(t, 2, 0x26508e6d), c2, Pick(t, 2, 0x0e), y2);
    SumAt(k, e, f, Term(t, 1, 0x3b6a57b2), c1, Pick(t, 1, 1), y1);
  }

  // ---- One step at a root ------------------------------------------------------------------

  function Sixth(e: bv10, y: bv10): bv10 { Times(e, Times(e, Times(e, Times(e, Times(e, Times(e, y)))))) }

  lemma SixthPower(k: nat, e: bv10, f: bv10, y: bv10)
    requires Power(k, 1) == e && Power(6 * k, 1) == f
    ensures Sixth(e, y) == Times(f, y)
  {
    hide Power, Times;
    var y1 := Times(e, y);
    var y2 := Times(e, y1);
    var y3 := Times(e, y2);
    var y4 := Times(e, y3);
    var y5 := Times(e, y4);
    PowerTimes(k, y);
    PowerTimes(k, y1);
    PowerTimes(k, y2);
    PowerTimes(k, y3);
    PowerTimes(k, y4);
    PowerTimes(k, y5);
    PowerAdd(k, k, y);
    PowerAdd(k, 2 * k, y);
    PowerAdd(k, 3 * k, y);
    PowerAdd(k, 4 * k, y);
    PowerAdd(k, 5 * k, y);
    PowerTimes(6 * k, y);
  }

  lemma ShiftedGroups(c: bv32)
    requires c < 0x4000_0000
    ensures HasGroups(Shifted(c), Group(c, 1), Group(c, 2), Group(c, 3), Group(c, 4), Group(c, 5), 0)
    ensures Top(c) == Group(c, 0)
  {}

  lemma SymbolGroups(v: Symbol)
    ensures HasGroups(v, 0, 0, 0, 0, 0, v)
  {}

  lemma EmbedZero()
    ensures Embed(0) == 0
  {}

  lemma NextZero(k: nat, e: bv10, y: bv10)
    requires Power(k, 1) == e
    ensures Next(e, y, 0) == Times(e, y) && Next(e, 0, 0) == 0
  {
    hide Times, Add, Power, Embed;
    EmbedZero();
    AddFacts(Times(e, y), 0, 0);
    TimesAdd(k, e, y, y);
    AddFacts(0, 0, 0);
  }

  lemma EvalSymbol(k: nat, e: bv10, v: Symbol)
    requires Power(k, 1) == e
    ensures Eval(e, v) == Embed(v)
  {
    hide Next, Power, Embed, Group, Add, Times;
    SymbolGroups(v);
    EmbedZero();
    NextZero(k, e, 0);
    assert Next(e, 0, v) == Embed(v) by {
      TimesAdd(k, e, 0, 0);
      AddFacts(Embed(v), 0, 0);
      NextIs(e, 0, v);
    }
  }

  lemma NextIs(e: bv10, y: bv10, v: bv32)
    ensures Next(e, y, v) == Add(Times(e, y), Embed(v))
  {}

  // A first value y apart, the next one is e times that apart.
  lemma NextApart(k: nat, e: bv10, a: bv10, b: bv10, y: bv10, v: bv32)
    requires Power(k, 1) == e && a == Add(b, y)
    ensures Next(e, a, v) == Add(Next(e, b, v), Times(e, y))
  {
    hide Next, Power, Add, Times, Xor;
    NextLinear(k, e, b, y, v, 0);
    XorZero(v);
    NextZero(k, e, y);
  }

  /** The value of the five lower symbols, and what the top one adds. */
  lemma EvalApart(k: nat, e: bv10, c: bv32)
    requires Power(k, 1) == e && c < 0x4000_0000
    ensures Eval(e, Shifted(c)) == Times(e, Lower(e, c))
    ensures Times(e, Eval(e, c)) == Add(Times(e, Lower(e, c)), Sixth(e, Embed(Group(c, 0))))
  {
    hide Next, Power, Embed, Group, Add, Times;
    ShiftedGroups(c);
    NextZero(k, e, Lower(e, c));
    var b1 := Embed(Group(c, 1));
    var b2 := Next(e, b1, Group(c, 2));
    var b3 := Next(e, b2, Group(c, 3));
    var b4 := Next(e, b3, Group(c, 4));
    var a0 := Embed(Group(c, 0));
    var a1 := Next(e, a0, Group(c, 1));
    var a2 := Next(e, a1, Group(c, 2));
    var a3 := Next(e, a2, Group(c, 3));
    var a4 := Next(e, a3, Group(c, 4));
    NextIs(e, a0, Group(c, 1));
    AddFacts(Times(e, a0), b1, 0);
    var y1 := Times(e, a0);
    var y2 := Times(e, y1);
    var y3 := Times(e, y2);
    var y4 := Times(e, y3);
    NextApart(k, e, a1, b1, y1, Group(c, 2));
    NextApart(k, e, a2, b2, y2, Group(c, 3));
    NextApart(k, e, a3, b3, y3, Group(c, 4));
    NextApart(k, e, a4, b4, y4, Group(c, 5));
    TimesAdd(k, e, Lower(e, c), Times(e, y4));
  }

  function Lower(e: bv10, c: bv32): bv10 {
    Next(e, Next(e, Next(e, Next(e, Embed(Group(c, 1)), Group(c, 2)), Group(c, 3)), Group(c, 4)), Group(c, 5))
  }

  /** A step of the register multiplies its value at a root by the root and adds the symbol. */
  lemma EvalStep(k: nat, e: bv10, f: bv10, c: bv32, v: Symbol)
    requires IsRoot(k, e, f) && c < 0x4000_0000
    ensures Eval(e, Step(c, v)) == Add(Times(e, Eval(e, c)), Embed(v))
  {
    hide Eval, Lower, Power, Embed, Group, Add, Times, Xor, Shifted, Top, Remainder, Sixth;
    ShiftedGroups(c);
    EvalLinear(k, e, Xor(Shifted(c), v), Remainder(Top(c)));
    EvalLinear(k, e, Shifted(c), v);
    EvalSymbol(k, e, v);
    RemainderAt(k, e, f, Top(c));
    EvalApart(k, e, c);
    SixthPower(k, e, f, Embed(Group(c, 0)));
    var x, y, w := Times(e, Lower(e, c)), Embed(v), Sixth(e, Embed(Group(c, 0)));
    AddFacts(x, y, w);
    AddFacts(y, w, 0);
    AddFacts(x, w, y);
  }

  // ---- The three roots ---------------------------------------------------------------------

  lemma RootPowers()
    ensures Power(24, 1) == 0x3f0 && Power(25, 1) == 0x2c3 && Power(26, 1) == 0xa5
    ensures Power(144, 1) == 0x2ba && Power(150, 1) == 0xa6 && Power(156, 1) == 0x98
  {
    hide Power;
    SmallPowers();
    LargePowers();
    PowerSum(16, 0x119, 8, 0x100, 0x3f0);
    PowerSum(24, 0x3f0, 1, 0x2, 0x2c3);
    PowerSum(24, 0x3f0, 2, 0x4, 0xa5);
    PowerSum(128, 0x346, 16, 0x119, 0x2ba);
    PowerSum(144, 0x2ba, 4, 0x10, 0x2b8);
    PowerSum(148, 0x2b8, 2, 0x4, 0xa6);
    PowerSum(150, 0xa6, 4, 0x10, 0x26);
    PowerSum(154, 0x26, 2, 0x4, 0x98);
  }

  lemma RootProducts24()
    ensures Times(0x2ba, 1) == 0x2ba && Times(0x2ba, 0x0e) == 0x1a5 && Times(0x2ba, 0x54) == 0x2b0
    ensures Times(0x2ba, 0x358) == 0x1c9 && Times(0x2ba, 0xbf) == 0xb8
  {}

  lemma Root24()
    ensures IsRoot(24, 0x3f0, 0x2ba)
  {
    hide Eval, Times, Power;
    RootPowers();
    RootProducts24();
    Generator1At24();
    Generator2At24();
    Generator4At24();
    Generator8At24();
    Generator16At24();
  }

  lemma RootProducts25()
    ensures Times(0xa6, 1) == 0xa6 && Times(0xa6, 0x0e) == 0x3c7 && Times(0xa6, 0x54) == 0x226
    ensures Times(0xa6, 0x358) == 0x32e && Times(0xa6, 0xbf) == 0x23b
  {}

  lemma Root25()
    ensures IsRoot(25, 0x2c3, 0xa6)
  {
    hide Eval, Times, Power;
    RootPowers();
    RootProducts25();
    Generator1At25();
    Generator2At25();
    Generator4At25();
    Generator8At25();
    Generator16At25();
  }

  lemma RootProducts26()
    ensures Times(0x98, 1) == 0x98 && Times(0x98, 0x0e) == 0x2b3 && Times(0x98, 0x54) == 0x1db
    ensures Times(0x98, 0x358) == 0x44 && Times(0x98, 0xbf) == 0x3b8
  {}

  lemma Root26()
    ensures IsRoot(26, 0xa5, 0x98)
  {
    hide Eval, Times, Power;
    RootPowers();
    RootProducts26();
    Generator1At26();
    Generator2At26();
    Generator4At26();
    Generator8At26();
    Generator16At26();
  }
}
