/**
 * Skip heights, and how many steps a walk down the skip list takes: for heights up to 2^18 at most 110, and always on
 * the
 * order of the square of the height's length in bits.
 */
module SkipHeights {
  import opened Numbers

  function BitAnd(x: nat, y: nat): (r: nat)
    ensures r <= x && r <= y
    decreases x
  {
    if x == 0 || y == 0 then 0
    else (if x % 2 == 1 && y % 2 == 1 then 1 else 0) + 2 * BitAnd(x / 2, y / 2)
  }

  /** Turns the lowest set bit off. */
  function InvertLowestOne(n: nat): (r: nat)
    ensures r <= n && (0 < n ==> r < n)
  {
    if n == 0 then 0 else BitAnd(n, n - 1)
  }

  function GetSkipHeight(height: nat): (r: nat)
    ensures 0 < height ==> r < height
  {
    if height < 2 then 0
    else if height % 2 == 1 then InvertLowestOne(InvertLowestOne(height - 1)) + 1
    else InvertLowestOne(height)
  }

  /** Whether the walk from height h to height t takes the skip link. */
  predicate TakesSkip(h: nat, t: nat)
    requires t < h
  {
    var skip := GetSkipHeight(h);
    var skipPrev := GetSkipHeight(h - 1);
    skip == t || (skip > t && !(skipPrev < skip - 2 && skipPrev >= t))
  }

  function NextHeight(h: nat, t: nat): (r: nat)
    requires t < h
    ensures t <= r < h
  {
    if TakesSkip(h, t) then GetSkipHeight(h) else h - 1
  }

  /** The number of steps of the walk. */
  ghost function Steps(h: nat, t: nat): nat
    requires t <= h
    decreases h - t
  {
    if h == t then 0 else 1 + Steps(NextHeight(h, t), t)
  }

  // ---- The lowest set bit ------------------------------------------------------------------

  lemma {:induction false} AndSelf(x: nat)
    ensures BitAnd(x, x) == x
  {
    if x > 0 { AndSelf(x / 2); }
  }

  lemma InvOdd(n: nat)
    requires n % 2 == 1
    ensures InvertLowestOne(n) == n - 1
  {
    AndSelf(n / 2);
    assert (n - 1) / 2 == n / 2;
  }

  lemma InvEven(n: nat)
    requires n > 0 && n % 2 == 0
    ensures InvertLowestOne(n) == 2 * InvertLowestOne(n / 2)
  {
    assert (n - 1) / 2 == n / 2 - 1 && (n - 1) % 2 == 1;
  }

  /** Below a power of two the rest of the number does not matter. */
  lemma {:induction false} InvPrefix(d: nat, a: nat, l: nat)
    requires 0 < l < Pow2(d)
    ensures InvertLowestOne(Pow2(d) * a + l) == Pow2(d) * a + InvertLowestOne(l)
  {
    hide InvertLowestOne;
    var p := Pow2(d - 1);
    Halved(p, a, l);
    if l % 2 == 1 {
      InvOdd(l);
      InvOdd(2 * p * a + l);
    } else {
      InvPrefix(d - 1, a, l / 2);
      InvEven(l);
      InvEven(2 * p * a + l);
      assert 2 * (p * a + InvertLowestOne(l / 2)) == 2 * p * a + 2 * InvertLowestOne(l / 2);
    }
  }

  lemma Halved(p: nat, a: nat, l: nat)
    ensures (2 * p * a + l) % 2 == l % 2 && (2 * p * a + l) / 2 == p * a + l / 2
  {
    assert 2 * p * a + l == 2 * (p * a) + l;
  }

  lemma {:induction false} InvScale(d: nat, a: nat)
    ensures InvertLowestOne(Pow2(d) * a) == Pow2(d) * InvertLowestOne(a)
  {
    hide InvertLowestOne;
    if d > 0 {
      var p := Pow2(d - 1);
      InvScale(d - 1, a);
      Halved(p, a, 0);
      if a > 0 {
        Positive(p, a);
        InvEven(2 * p * a);
        assert 2 * (p * InvertLowestOne(a)) == 2 * p * InvertLowestOne(a);
      } else {
        InvZero();
      }
    }
  }

  lemma Positive(p: nat, a: nat)
    requires p > 0 && a > 0
    ensures 2 * p * a > 0
  {}

  lemma InvZero()
    ensures InvertLowestOne(0) == 0
  {}

  // ---- Counting ones -----------------------------------------------------------------------

  function Ones(n: nat): nat { if n == 0 then 0 else n % 2 + Ones(n / 2) }

  lemma {:induction false} OnesInv(n: nat)
    requires n > 0
    ensures Ones(InvertLowestOne(n)) == Ones(n) - 1
  {
    hide InvertLowestOne;
    if n % 2 == 1 {
      InvOdd(n);
    } else {
      InvEven(n);
      OnesInv(n / 2);
    }
  }

  lemma {:induction false} OnesBound(n: nat, d: nat)
    requires n < Pow2(d)
    ensures Ones(n) <= d
  {
    if n > 0 { OnesBound(n / 2, d - 1); }
  }

  lemma OnesZero(n: nat)
    ensures Ones(n) == 0 <==> n == 0
  {
    if n > 0 { OnesPositive(n); }
  }

  lemma {:induction false} OnesPositive(n: nat)
    requires n > 0
    ensures Ones(n) > 0
  {
    if n % 2 == 0 { OnesPositive(n / 2); }
  }

  lemma OnesDouble(n: nat)
    ensures Ones(2 * n) == Ones(n)
  {
    assert (2 * n) / 2 == n;
  }

  // ---- Where h and t part ------------------------------------------------------------------

  /** w has only zeros up to bit d; a tells whether it is zero. */
  ghost predicate Common(d: nat, a: nat, w: nat) { a % 2 == 1 && w == Pow2(d) * (a - 1) }

  /** Bit d is the highest in which h and t differ; w is what they share above it, l and m are their lower bits. */
  ghost predicate PartAt(h: nat, t: nat, d: nat, a: nat, w: nat, l: nat, m: nat) {
    Common(d, a, w) && l < Pow2(d) && m < Pow2(d) && h == w + Pow2(d) + l && t == w + m
  }

  lemma {:induction false} Part(h: nat, t: nat) returns (d: nat, a: nat, w: nat, l: nat, m: nat)
    requires t < h
    ensures PartAt(h, t, d, a, w, l, m)
    decreases h
  {
    hide Common;
    if h / 2 == t / 2 {
      d, a, w, l, m := 0, h, h - 1, 0, 0;
      CommonLowest(h);
    } else {
      d, a, w, l, m := Part(h / 2, t / 2);
      CommonDoubled(d, a, w);
      d, w, l, m := d + 1, 2 * w, 2 * l + h % 2, 2 * m + t % 2;
    }
  }

  lemma CommonLowest(h: nat)
    requires h % 2 == 1
    ensures Common(0, h, h - 1)
  {}

  lemma CommonDoubled(d: nat, a: nat, w: nat)
    requires Common(d, a, w)
    ensures Common(d + 1, a, 2 * w) && Pow2(d + 1) == 2 * Pow2(d)
  {
    var q := Pow2(d);
    assert (2 * q) * (a - 1) == 2 * (q * (a - 1));
  }

  /** A number whose d lowest bits are all ones parts from a smaller one that agrees above at a lower bit. */
  lemma {:induction false} PartOnes(d: nat, b: nat, m: nat) returns (e: nat, a: nat, w: nat, k: nat)
    requires m < Pow2(d) - 1
    ensures e < d && PartAt(Pow2(d) * b + Pow2(d) - 1, Pow2(d) * b + m, e, a, w, Pow2(e) - 1, k)
    decreases d
  {
    var p := Pow2(d - 1);
    assert Pow2(d) * b == p * (2 * b) && p * (2 * b + 1) == p * (2 * b) + p;
    if m < p {
      e, a, w, k := d - 1, 2 * b + 1, p * (2 * b), m;
    } else {
      e, a, w, k := PartOnes(d - 1, 2 * b + 1, m - p);
    }
  }

  // ---- Skip heights near the parting -------------------------------------------------------

  lemma TwiceOff(d: nat, a: nat, x: nat)
    requires a % 2 == 1 && x < Pow2(d)
    ensures var r := InvertLowestOne(InvertLowestOne(Pow2(d) * a + x));
            && (Ones(x) >= 2 ==> r == Pow2(d) * a + InvertLowestOne(InvertLowestOne(x)))
            && (Ones(x) == 1 ==> r == Pow2(d) * (a - 1))
            && (x == 0 ==> r == Pow2(d) * InvertLowestOne(a - 1))
  {
    hide InvertLowestOne, Ones, Pow2;
    InvOdd(a);
    InvScale(d, a);
    if x == 0 {
      InvScale(d, a - 1);
      OnesZero(0);
    } else {
      InvPrefix(d, a, x);
      OnesInv(x);
      var y := InvertLowestOne(x);
      OnesZero(y);
      if y > 0 { InvPrefix(d, a, y); }
    }
  }

  lemma EvenOff(e: nat)
    requires e > 0 && e % 2 == 0
    ensures InvertLowestOne(e) <= e - 2
  {
    hide InvertLowestOne;
    InvEven(e);
  }

  lemma FarBelow(d: nat, a: nat)
    requires a % 2 == 1
    ensures a == 1 ==> Pow2(d) * InvertLowestOne(a - 1) == 0
    ensures a > 1 ==> Pow2(d) * InvertLowestOne(a - 1) + 2 * Pow2(d) <= Pow2(d) * (a - 1)
  {
    hide InvertLowestOne, Pow2;
    if a == 1 {
      InvZero();
    } else {
      EvenOff(a - 1);
      Scaled(Pow2(d), InvertLowestOne(a - 1), a - 1 - 2 - InvertLowestOne(a - 1));
    }
  }

  lemma Scaled(q: nat, x: nat, z: nat)
    ensures q * x + 2 * q + q * z == q * (x + 2 + z)
    ensures q * z >= 0
  {}

  /** Two bits off, when the bits below d are x. */
  lemma TwiceCommon(d: nat, a: nat, w: nat, x: nat)
    requires Common(d, a, w) && x < Pow2(d)
    ensures var r := InvertLowestOne(InvertLowestOne(w + Pow2(d) + x));
            && (Ones(x) >= 2 ==> r == w + Pow2(d) + InvertLowestOne(InvertLowestOne(x)))
            && (Ones(x) == 1 ==> r == w)
            && (x == 0 && a == 1 ==> r == 0 == w)
            && (x == 0 && a > 1 ==> r + 2 * Pow2(d) <= w)
  {
    hide InvertLowestOne, Ones, Pow2;
    assert Pow2(d) * a == w + Pow2(d);
    TwiceOff(d, a, x);
    FarBelow(d, a);
  }

  /** One bit off. */
  lemma OnceCommon(d: nat, a: nat, w: nat, x: nat)
    requires Common(d, a, w) && x < Pow2(d)
    ensures InvertLowestOne(w + Pow2(d) + x) == if x == 0 then w else w + Pow2(d) + InvertLowestOne(x)
  {
    hide InvertLowestOne, Pow2;
    assert Pow2(d) * a == w + Pow2(d);
    if x == 0 {
      InvScale(d, a);
      InvOdd(a);
    } else {
      InvPrefix(d, a, x);
    }
  }

  lemma CommonEight(d: nat, a: nat, w: nat) returns (u: nat, v: nat)
    requires Common(d, a, w) && d >= 3
    ensures w == 8 * u && Pow2(d) == 8 * v && v > 0 && a > 0
  {
    v := Pow2(d - 3);
    assert Pow2(d) == 2 * Pow2(d - 1) == 4 * Pow2(d - 2) == 8 * v;
    u := v * (a - 1);
    assert (8 * v) * (a - 1) == 8 * u;
  }

  // From an odd height the skip link is taken whenever it does not go too far.
  lemma OddTakes(h: nat, t: nat)
    requires t < h && h % 2 == 1 && h > 1
    ensures GetSkipHeight(h) == InvertLowestOne(InvertLowestOne(h - 1)) + 1
    ensures NextHeight(h, t) == if GetSkipHeight(h) >= t then GetSkipHeight(h) else h - 1
  {
    hide InvertLowestOne;
    InvLess(h - 1);
  }

  lemma InvLess(n: nat)
    ensures InvertLowestOne(InvertLowestOne(n)) <= InvertLowestOne(n)
  {}

  /** The next height from an odd h. */
  lemma OddNext(h: nat, t: nat, d: nat, a: nat, w: nat, y: nat, m: nat)
    requires PartAt(h, t, d, a, w, 2 * y + 1, m) && d >= 3
    ensures Ones(y) >= 2 ==> NextHeight(h, t) == w + Pow2(d) + InvertLowestOne(InvertLowestOne(2 * y)) + 1
    ensures Ones(y) <= 1 ==> NextHeight(h, t) == if m <= 1 && (Ones(y) == 1 || a == 1) then w + 1 else h - 1
  {
    hide InvertLowestOne, Ones, GetSkipHeight, NextHeight, Pow2, Common;
    var u, v := CommonEight(d, a, w);
    assert h == 2 * (4 * u + 4 * v + y) + 1;
    OddTakes(h, t);
    OnesDouble(y);
    TwiceCommon(d, a, w, 2 * y);
    OnesZero(y);
  }

  // What an even height compares.
  lemma EvenTakes(h: nat, t: nat)
    requires t < h && h % 2 == 0 && h > 2
    ensures TakesSkip(h, t) <==>
      var skip, prev := InvertLowestOne(h), InvertLowestOne(InvertLowestOne(h - 2)) + 1;
      skip == t || (skip > t && !(prev < skip - 2 && prev >= t))
    ensures GetSkipHeight(h) == InvertLowestOne(h)
  {}

  /** The next height from an even h with no lower bits: down to t, or just below. */
  lemma CrossNext(h: nat, t: nat, d: nat, a: nat, w: nat, m: nat)
    requires PartAt(h, t, d, a, w, 0, m) && d >= 3
    ensures NextHeight(h, t) == if m == 0 then t else h - 1
  {
    hide InvertLowestOne, Pow2, Common;
    var u, v := CommonEight(d, a, w);
    OnceCommon(d, a, w, 0);
  }

  lemma InvDouble(n: nat)
    requires n > 0
    ensures InvertLowestOne(2 * n) == 2 * InvertLowestOne(n)
  {
    hide InvertLowestOne;
    InvEven(2 * n);
  }

  lemma InvNext(n: nat)
    ensures InvertLowestOne(2 * n + 1) == 2 * n
  {
    hide InvertLowestOne;
    InvOdd(2 * n + 1);
  }

  /** From an even h whose lowest one is bit 3 or higher the skip link is taken. */
  lemma HighNext(h: nat, t: nat, d: nat, a: nat, w: nat, k: nat, m: nat)
    requires PartAt(h, t, d, a, w, 8 * k, m) && d >= 3 && k > 0
    ensures NextHeight(h, t) == w + Pow2(d) + 8 * InvertLowestOne(k)
  {
    hide InvertLowestOne, Pow2, Common, GetSkipHeight, TakesSkip, NextHeight;
    var u, v := CommonEight(d, a, w);
    var j := u + v + k;
    InvBelow(k);
    OnceCommon(d, a, w, 8 * k);
    EightOff(j - 1);
    EightTimes(k);
    EvenJumps(h, t, 4 * j);
  }

  lemma EvenJumps(h: nat, t: nat, g: nat)
    requires t < h && h == 2 * g && h > 2
    requires InvertLowestOne(h) > t && InvertLowestOne(InvertLowestOne(h - 2)) >= InvertLowestOne(h)
    ensures NextHeight(h, t) == InvertLowestOne(h)
  {
    hide InvertLowestOne;
    EvenTakes(h, t);
  }

  lemma EightOff(j: nat)
    ensures InvertLowestOne(InvertLowestOne(8 * j + 6)) == 8 * j
  {
    hide InvertLowestOne;
    InvDouble(4 * j + 3);
    InvNext(2 * j + 1);
    FourOff(j);
  }

  lemma FourOff(j: nat)
    ensures InvertLowestOne(8 * j + 4) == 8 * j
  {
    hide InvertLowestOne;
    InvDouble(4 * j + 2);
    InvDouble(2 * j + 1);
    InvNext(j);
  }

  lemma TwoOff(j: nat)
    ensures InvertLowestOne(4 * j + 2) == 4 * j
  {
    hide InvertLowestOne;
    InvDouble(2 * j + 1);
    InvNext(j);
  }

  lemma EightTimes(k: nat)
    requires k > 0
    ensures InvertLowestOne(8 * k) == 8 * InvertLowestOne(k)
  {
    hide InvertLowestOne;
    InvDouble(4 * k);
    InvDouble(2 * k);
    InvDouble(k);
  }

  /** From an even h whose lowest one is bit 2. */
  lemma FourNext(h: nat, t: nat, d: nat, a: nat, w: nat, k: nat, m: nat)
    requires PartAt(h, t, d, a, w, 8 * k + 4, m) && d >= 3
    ensures k > 0 ==> NextHeight(h, t) == h - 1
    ensures k == 0 ==> NextHeight(h, t) == if m <= 1 then h - 1 else h - 4
  {
    hide InvertLowestOne, Pow2, Common, GetSkipHeight, TakesSkip;
    var u, v := CommonEight(d, a, w);
    var j := u + v + k;
    assert h == 2 * (4 * j + 2);
    EvenTakes(h, t);
    FourOff(j);
    assert h - 2 == 4 * (2 * j) + 2;
    TwoOff(2 * j);
    OnceCommon(d, a, w, 8 * k);
    if k > 0 { EightTimes(k); }
  }

  /** From an even h whose lowest one is bit 1. */
  lemma TwoNext(h: nat, t: nat, d: nat, a: nat, w: nat, k: nat, m: nat)
    requires PartAt(h, t, d, a, w, 4 * k + 2, m) && d >= 3
    ensures Ones(k) >= 2 ==> NextHeight(h, t) == h - 1
    ensures Ones(k) <= 1 ==> NextHeight(h, t) == if m <= 1 && (Ones(k) == 1 || a == 1) then h - 1 else h - 2
  {
    hide InvertLowestOne, Pow2, Common, Ones, GetSkipHeight, TakesSkip;
    var u, v := CommonEight(d, a, w);
    var j := 2 * u + 2 * v + k;
    assert h == 2 * (2 * j + 1);
    EvenTakes(h, t);
    TwoOff(j);
    assert h - 2 == w + Pow2(d) + 4 * k;
    TwoPrev(d, a, w, k);
  }

  // The skip height of the height before.
  lemma TwoPrev(d: nat, a: nat, w: nat, k: nat)
    requires Common(d, a, w) && d >= 3 && 4 * k < Pow2(d)
    ensures var prev := InvertLowestOne(InvertLowestOne(w + Pow2(d) + 4 * k)) + 1;
            && (Ones(k) >= 2 ==> w + Pow2(d) < prev < w + Pow2(d) + 4 * k - 2)
            && (Ones(k) == 1 || (Ones(k) == 0 && a == 1) ==> prev == w + 1)
            && (Ones(k) == 0 && a > 1 ==> prev < w)
            && 8 <= Pow2(d)
  {
    hide InvertLowestOne, Pow2, Common, Ones;
    var u, v := CommonEight(d, a, w);
    TwiceCommon(d, a, w, 4 * k);
    OnesDouble(k);
    OnesDouble(2 * k);
    OnesZero(k);
    if k > 0 { FourBelow(k); }
  }

  lemma FourBelow(k: nat)
    requires k > 0
    ensures InvertLowestOne(InvertLowestOne(4 * k)) <= InvertLowestOne(4 * k) <= 4 * k - 4
  {
    hide InvertLowestOne;
    InvDouble(2 * k);
    InvDouble(k);
    InvLess(4 * k);
  }

  // ---- The bound ---------------------------------------------------------------------------

  /** Steps from a height with no lower bits, when it parts from t at bit d >= 3. */
  function Epoch(d: nat): nat { if d <= 3 then 5 else Epoch(d - 1) + 2 + (d - 1) / 2 }

  /** When h and t part at bit 0, 1 or 2. */
  function SmallBound(d: nat, l: nat, m: nat): nat {
    if d == 0 then 1
    else if d == 1 then 1 + l
    else if l == 0 then (if m == 1 then 3 else if m == 2 then 2 else 1)
    else if l == 1 then (if m == 1 then 4 else if m == 2 then 3 else 2)
    else if l == 2 then (if m == 1 then 5 else if m == 3 then 2 else 3)
    else (if m == 0 then 2 else if m == 1 then 1 else if m == 2 then 4 else 3)
  }

  /** From h = w + 2^d + 2y + 1: two bits at a time. */
  function OddBound(d: nat, a: nat, y: nat, m: nat): nat {
    if Ones(y) <= 1 && m <= 1 && (Ones(y) == 1 || a == 1) then 2
    else (Ones(y) + 1) / 2 + 1 + Epoch(d)
  }

  /** From h = w + 2^d + 2y: one bit at a time, or over to an odd height. */
  function EvenBound(d: nat, y: nat): nat {
    var n := Ones(y);
    if n <= 1 then n + Epoch(d)
    else if y % 2 == 1 then (if n == 2 then 2 else n / 2 + 2) + Epoch(d)
    else if y % 4 == 2 then (n + 1) / 2 + 2 + Epoch(d)
    else n + Epoch(d)
  }

  function Bound(d: nat, a: nat, l: nat, m: nat): nat {
    if d <= 2 then SmallBound(d, l, m)
    else if l % 2 == 1 then OddBound(d, a, l / 2, m)
    else EvenBound(d, l / 2)
  }

  lemma OneStep(h: nat, t: nat)
    requires t < h
    ensures Steps(h, t) == 1 + Steps(NextHeight(h, t), t)
    ensures h == t + 1 ==> Steps(h, t) == 1
    ensures Steps(t, t) == 0
  {}

  lemma {:induction false} StepsBound(h: nat, t: nat, d: nat, a: nat, w: nat, l: nat, m: nat)
    requires PartAt(h, t, d, a, w, l, m)
    ensures Steps(h, t) <= Bound(d, a, l, m)
    decreases h, 1
  {
    hide Steps, Common, OddBound, EvenBound, SmallBound;
    if d <= 2 {
      StepsSmall(h, t, d, a, w, l, m);
    } else if l % 2 == 1 {
      StepsOdd(h, t, d, a, w, l / 2, m);
    } else if l == 0 {
      StepsCross(h, t, d, a, w, m);
    } else if l % 4 == 2 {
      StepsTwo(h, t, d, a, w, l / 4, m);
    } else if l % 8 == 4 {
      StepsFour(h, t, d, a, w, l / 8, m);
    } else {
      StepsHigh(h, t, d, a, w, l / 8, m);
    }
  }

  lemma StepsSmall(h: nat, t: nat, d: nat, a: nat, w: nat, l: nat, m: nat)
    requires PartAt(h, t, d, a, w, l, m) && d <= 2
    ensures Steps(h, t) <= SmallBound(d, l, m)
  {
    hide Steps, NextHeight;
    assert Pow2(0) == 1 && Pow2(1) == 2 && Pow2(2) == 4;
    if d == 0 {
      OneStep(h, t);
    } else if d == 1 {
      StepsOneBit(a, w, l, m);
    } else {
      StepsTwoBits(a, w, l, m);
    }
  }

  lemma EvenHeight(h: nat)
    requires h > 0 && h % 2 == 0
    ensures GetSkipHeight(h) == InvertLowestOne(h)
  {}

  // A skip link that hits t is taken.
  lemma Hits(h: nat, t: nat)
    requires t < h && GetSkipHeight(h) == t
    ensures Steps(h, t) == 1
  {
    hide Steps;
    OneStep(h, t);
    OneStep(t + 1, t);
  }

  // A skip link that goes too far is not taken.
  lemma Misses(h: nat, t: nat)
    requires t < h && GetSkipHeight(h) < t
    ensures Steps(h, t) == 1 + Steps(h - 1, t)
  {
    hide Steps;
    OneStep(h, t);
  }

  lemma StepsOneBit(a: nat, w: nat, l: nat, m: nat)
    requires a % 2 == 1 && w == 2 * (a - 1) && l < 2 && m < 2
    ensures Steps(w + 2 + l, w + m) <= 1 + l
  {
    hide Steps, InvertLowestOne, GetSkipHeight, NextHeight;
    assert Pow2(1) == 2 * Pow2(0);
    OnceCommon(1, a, w, 0);
    TwiceCommon(1, a, w, 0);
    EvenHeight(w + 2);
    if m == 0 { Hits(w + 2, w); } else { OneStep(w + 2, w + 1); }
    if l == 1 {
      OddTakes(w + 3, w + m);
      OneStep(w + 3, w + m);
      if a == 1 { OneStep(1, 0); }
    }
  }

  lemma CommonFour(a: nat, w: nat)
    requires a % 2 == 1 && w == 4 * (a - 1)
    ensures Common(2, a, w) && Pow2(2) == 4
  {
    assert Pow2(2) == 2 * Pow2(1) == 4 * Pow2(0);
  }

  lemma StepsFourUp(a: nat, w: nat, m: nat)
    requires a % 2 == 1 && w == 4 * (a - 1) && m < 4
    ensures Steps(w + 4, w + m) <= SmallBound(2, 0, m)
  {
    hide Steps, InvertLowestOne, GetSkipHeight, NextHeight, Pow2, Common, Ones;
    CommonFour(a, w);
    OnceCommon(2, a, w, 0);
    EvenHeight(w + 4);
    if m == 0 {
      Hits(w + 4, w);
    } else {
      Misses(w + 4, w + m);
      if m == 1 {
        StepsOneBit(2 * a - 1, w, 1, 1);
      } else {
        OneStep(w + 3, w + 2);
        OneStep(w + 4, w + 3);
      }
    }
  }

  lemma StepsFiveUp(a: nat, w: nat, m: nat)
    requires a % 2 == 1 && w == 4 * (a - 1) && m < 4
    ensures Steps(w + 5, w + m) <= SmallBound(2, 1, m)
  {
    hide Steps, InvertLowestOne, GetSkipHeight, NextHeight, Pow2, Common, Ones;
    CommonFour(a, w);
    TwiceCommon(2, a, w, 0);
    OddTakes(w + 5, w + m);
    OneStep(w + 5, w + m);
    StepsFourUp(a, w, m);
    if a == 1 && m <= 1 { OneStep(1, 0); }
  }

  lemma StepsTwoBits(a: nat, w: nat, l: nat, m: nat)
    requires a % 2 == 1 && w == 4 * (a - 1) && l < 4 && m < 4
    ensures Steps(w + 4 + l, w + m) <= SmallBound(2, l, m)
  {
    hide Steps, SmallBound;
    if l == 0 {
      StepsFourUp(a, w, m);
    } else if l == 1 {
      StepsFiveUp(a, w, m);
    } else if l == 2 {
      StepsSixUp(a, w, m);
    } else {
      StepsSevenUp(a, w, m);
    }
  }

  lemma StepsSevenUp(a: nat, w: nat, m: nat)
    requires a % 2 == 1 && w == 4 * (a - 1) && m < 4
    ensures Steps(w + 7, w + m) <= SmallBound(2, 3, m)
  {
    hide Steps, InvertLowestOne, GetSkipHeight, NextHeight, Pow2, Common, Ones;
    CommonFour(a, w);
    OnesOfTwo();
    TwiceCommon(2, a, w, 2);
    assert w + 4 + 2 == w + 7 - 1;
    OddTakes(w + 7, w + m);
    OneStep(w + 7, w + m);
    StepsSixUp(a, w, m);
    if m <= 1 { OneStep(w + 1, w); }
  }

  lemma OnesOfTwo()
    ensures Ones(2) == 1
  {
    assert Ones(1) == 1 + Ones(0);
  }

  lemma StepsSixUp(a: nat, w: nat, m: nat)
    requires a % 2 == 1 && w == 4 * (a - 1) && m < 4
    ensures Steps(w + 6, w + m) <= SmallBound(2, 2, m)
  {
    hide Steps, InvertLowestOne, GetSkipHeight, Pow2, Common, Ones;
    CommonFour(a, w);
    StepsFourUp(a, w, m);
    StepsFiveUp(a, w, m);
    OneStep(w + 6, w + m);
    EvenTakes(w + 6, w + m);
    TwoOff(0);
    OnceCommon(2, a, w, 2);
    TwiceCommon(2, a, w, 0);
  }

  lemma {:induction false} StepsOdd(h: nat, t: nat, d: nat, a: nat, w: nat, y: nat, m: nat)
    requires PartAt(h, t, d, a, w, 2 * y + 1, m) && d >= 3
    ensures Steps(h, t) <= OddBound(d, a, y, m)
    decreases h, 0
  {
    hide Steps, Common, InvertLowestOne, NextHeight, Ones, Pow2, EvenBound;
    OneStep(h, t);
    OddNext(h, t, d, a, w, y, m);
    EpochLarge(d);
    if Ones(y) >= 2 {
      var z := InvertLowestOne(InvertLowestOne(y));
      OnesOff(y);
      StepsBound(NextHeight(h, t), t, d, a, w, 2 * z + 1, m);
      BoundOdd(d, a, z, m);
    } else if m <= 1 && (Ones(y) == 1 || a == 1) {
      if m == 0 { OneStep(w + 1, t); }
    } else {
      StepsBound(h - 1, t, d, a, w, 2 * y, m);
      BoundEven(d, a, y, m);
      EvenFew(d, y);
    }
  }

  lemma OnesOff(y: nat)
    requires Ones(y) >= 2
    ensures var z := InvertLowestOne(InvertLowestOne(y));
            InvertLowestOne(InvertLowestOne(2 * y)) == 2 * z && Ones(z) == Ones(y) - 2 && z <= y
  {
    hide InvertLowestOne, Ones;
    OnesZero(y);
    InvDouble(y);
    OnesInv(y);
    var x := InvertLowestOne(y);
    OnesZero(x);
    InvDouble(x);
    OnesInv(x);
  }

  lemma BoundOdd(d: nat, a: nat, y: nat, m: nat)
    requires d >= 3
    ensures Bound(d, a, 2 * y + 1, m) == OddBound(d, a, y, m)
  {
    assert (2 * y + 1) / 2 == y;
  }

  lemma BoundEven(d: nat, a: nat, y: nat, m: nat)
    requires d >= 3
    ensures Bound(d, a, 2 * y, m) == EvenBound(d, y)
  {
    assert (2 * y) / 2 == y;
  }

  lemma EvenFew(d: nat, y: nat)
    requires Ones(y) <= 1
    ensures EvenBound(d, y) == Ones(y) + Epoch(d)
  {}

  lemma {:induction false} EpochLarge(d: nat)
    ensures Epoch(d) >= 5
  {
    if d > 3 { EpochLarge(d - 1); }
  }

  lemma {:induction false} StepsCross(h: nat, t: nat, d: nat, a: nat, w: nat, m: nat)
    requires PartAt(h, t, d, a, w, 0, m) && d >= 3
    ensures Steps(h, t) <= Bound(d, a, 0, m)
    decreases h, 0
  {
    hide Steps, NextHeight, Ones, Pow2, Epoch, SmallBound, OddBound, Bound;
    OneStep(h, t);
    CrossNext(h, t, d, a, w, m);
    EpochLarge(d);
    BoundCross(d, a, m);
    if m > 0 && m < Pow2(d) - 1 {
      var e, b, v, k := PartOnes(d, a - 1, m);
      StepsBound(h - 1, t, e, b, v, Pow2(e) - 1, k);
      BoundOnes(d, e, b, k);
    }
  }

  lemma BoundCross(d: nat, a: nat, m: nat)
    requires d >= 3
    ensures Bound(d, a, 0, m) == Epoch(d)
  {
    hide Epoch;
  }

  lemma {:induction false} EpochMono(c: nat, d: nat)
    requires c <= d
    ensures Epoch(c) <= Epoch(d)
    decreases d
  {
    if c < d { EpochMono(c, d - 1); }
  }

  lemma {:induction false} OnesOfOnes(e: nat)
    ensures Ones(Pow2(e) - 1) == e
  {
    if e > 0 {
      OnesOfOnes(e - 1);
      assert (Pow2(e) - 1) / 2 == Pow2(e - 1) - 1;
    }
  }

  // After the step below a height without lower bits.
  lemma BoundOnes(d: nat, e: nat, a: nat, m: nat)
    requires 3 <= d && e < d && m < Pow2(e)
    ensures Bound(e, a, Pow2(e) - 1, m) <= Epoch(d) - 1
  {
    if e <= 2 {
      EpochMono(3, d);
      SmallOnes(e, a, m);
    } else {
      LargeOnes(e, a, m);
      EpochMono(e + 1, d);
    }
  }

  lemma SmallOnes(e: nat, a: nat, m: nat)
    requires e <= 2 && m < Pow2(e)
    ensures Bound(e, a, Pow2(e) - 1, m) <= 4
  {
    assert Pow2(0) == 1 && Pow2(1) == 2 && Pow2(2) == 4;
  }

  lemma LargeOnes(e: nat, a: nat, m: nat)
    requires e > 2
    ensures Bound(e, a, Pow2(e) - 1, m) <= Epoch(e + 1) - 1
  {
    hide Ones, Bound;
    var y := Pow2(e - 1) - 1;
    assert Pow2(e) - 1 == 2 * y + 1;
    OnesOfOnes(e - 1);
    BoundOdd(e, a, y, m);
    EpochLarge(e);
  }

  lemma {:induction false} StepsHigh(h: nat, t: nat, d: nat, a: nat, w: nat, k: nat, m: nat)
    requires PartAt(h, t, d, a, w, 8 * k, m) && d >= 3 && k > 0
    ensures Steps(h, t) <= EvenBound(d, 4 * k)
    decreases h, 0
  {
    hide Steps, NextHeight, Pow2, Epoch, Ones, Common, InvertLowestOne, EvenBound;
    OneStep(h, t);
    HighNext(h, t, d, a, w, k, m);
    var j := InvertLowestOne(k);
    OnesInv(k);
    InvBelow(k);
    StepsBound(NextHeight(h, t), t, d, a, w, 8 * j, m);
    BoundEven(d, a, 4 * j, m);
    EvenHigh(d, j);
    EvenHigh(d, k);
  }

  lemma InvBelow(k: nat)
    requires k > 0
    ensures InvertLowestOne(k) < k
  {}

  lemma EvenHigh(d: nat, k: nat)
    ensures EvenBound(d, 4 * k) == Ones(k) + Epoch(d)
  {
    hide Ones, Epoch;
    OnesDouble(2 * k);
    OnesDouble(k);
    assert (4 * k) % 4 == 0;
  }

  lemma {:induction false} StepsFour(h: nat, t: nat, d: nat, a: nat, w: nat, k: nat, m: nat)
    requires PartAt(h, t, d, a, w, 8 * k + 4, m) && d >= 3
    ensures Steps(h, t) <= EvenBound(d, 4 * k + 2)
    decreases h, 0
  {
    hide Steps, NextHeight, Pow2, Epoch, Ones, Common, InvertLowestOne, EvenBound, OddBound;
    OneStep(h, t);
    FourNext(h, t, d, a, w, k, m);
    EpochLarge(d);
    EvenFour(d, k);
    if k > 0 || m <= 1 {
      StepsOdd(h - 1, t, d, a, w, 4 * k + 1, m);
      OddFour(d, a, k, m);
    } else {
      StepsBound(h - 4, t, d, a, w, 0, m);
      BoundCross(d, a, m);
    }
  }

  lemma EvenFour(d: nat, k: nat)
    ensures EvenBound(d, 4 * k + 2) == if k == 0 then 1 + Epoch(d) else (Ones(k) + 2) / 2 + 2 + Epoch(d)
  {
    hide Epoch;
    assert (4 * k + 2) / 2 == 2 * k + 1 && (2 * k + 1) / 2 == k;
    assert Ones(4 * k + 2) == Ones(2 * k + 1) == 1 + Ones(k);
    OnesZero(k);
  }

  lemma OddFour(d: nat, a: nat, k: nat, m: nat)
    ensures k > 0 ==> OddBound(d, a, 4 * k + 1, m) == (Ones(k) + 2) / 2 + 1 + Epoch(d)
    ensures k == 0 && m <= 1 ==> OddBound(d, a, 4 * k + 1, m) == 2
  {
    hide Epoch;
    assert (4 * k + 1) / 2 == 2 * k;
    OnesDouble(k);
    assert Ones(4 * k + 1) == 1 + Ones(k);
    OnesZero(k);
  }

  lemma {:induction false} StepsTwo(h: nat, t: nat, d: nat, a: nat, w: nat, k: nat, m: nat)
    requires PartAt(h, t, d, a, w, 4 * k + 2, m) && d >= 3
    ensures Steps(h, t) <= EvenBound(d, 2 * k + 1)
    decreases h, 0
  {
    hide Steps, NextHeight, Pow2, Epoch, Ones, Common, InvertLowestOne, EvenBound;
    OneStep(h, t);
    TwoNext(h, t, d, a, w, k, m);
    EpochLarge(d);
    EvenTwo(d, k);
    OnesDouble(k);
    if NextHeight(h, t) == h - 1 {
      StepsOdd(h - 1, t, d, a, w, 2 * k, m);
    } else {
      StepsBound(h - 2, t, d, a, w, 4 * k, m);
      BoundEven(d, a, 2 * k, m);
      EvenFew(d, 2 * k);
    }
  }

  lemma EvenTwo(d: nat, k: nat)
    ensures EvenBound(d, 2 * k + 1) == Epoch(d) + if Ones(k) <= 1 then 1 + Ones(k) else (1 + Ones(k)) / 2 + 2
  {
    hide Epoch;
    assert (2 * k + 1) / 2 == k;
    assert Ones(2 * k + 1) == 1 + Ones(k);
  }

  // ---- Over all starting points ------------------------------------------------------------

  /** The bound at level d, whatever the lower bits are. */
  function LevelBound(d: nat): nat { if d <= 2 then 5 else Epoch(d) + Max(d - 3, d / 2 + 2) }

  lemma BoundByLevel(d: nat, a: nat, l: nat, m: nat)
    requires l < Pow2(d)
    ensures Bound(d, a, l, m) <= LevelBound(d)
  {
    hide Ones, Epoch;
    if d > 2 {
      var y := l / 2;
      OnesBound(y, d - 1);
      EpochLarge(d);
      if l % 2 == 0 { EvenByLevel(d, y); }
    }
  }

  lemma EvenByLevel(d: nat, y: nat)
    requires d >= 3 && y < Pow2(d - 1)
    ensures EvenBound(d, y) <= Epoch(d) + Max(d - 3, d / 2 + 2)
  {
    hide Epoch, Ones;
    OnesBound(y, d - 1);
    var k := y / 4;
    assert k < Pow2(d - 3) by { assert Pow2(d - 1) == 2 * Pow2(d - 2) == 4 * Pow2(d - 3); }
    OnesBound(k, d - 3);
    if y % 4 == 0 {
      assert y == 4 * k;
      EvenHigh(d, k);
    }
  }

  lemma {:induction false} LevelMono(c: nat, d: nat)
    requires c <= d
    ensures LevelBound(c) <= LevelBound(d)
    decreases d
  {
    if c < d { LevelMono(c, d - 1); }
  }

  lemma {:induction false} PowMono(c: nat, d: nat)
    requires c <= d
    ensures Pow2(c) <= Pow2(d)
    decreases d
  {
    if c < d { PowMono(c, d - 1); }
  }

  /** A walk from a height below 2^k takes on the order of k * k steps. */
  lemma StepsQuadratic(h: nat, t: nat, k: nat)
    requires t <= h < Pow2(k)
    ensures Steps(h, t) <= (k * k + 11 * k) / 4 + 5
  {
    hide Steps, Bound, LevelBound;
    if t == h {
      OneStep(t + 1, t);
    } else {
      var d, a, w, l, m := Part(h, t);
      if d >= k { PowMono(k, d); }
      StepsBound(h, t, d, a, w, l, m);
      BoundByLevel(d, a, l, m);
      LevelMono(d, k);
      LevelQuadratic(k);
    }
  }

  lemma LevelQuadratic(k: nat)
    ensures LevelBound(k) <= (k * k + 11 * k) / 4 + 5
  {
    hide Epoch;
    if k > 2 { EpochQuadratic(k); }
  }

  lemma {:induction false} EpochQuadratic(d: nat)
    requires d >= 3
    ensures 4 * Epoch(d) <= d * d + 7 * d
  {
    if d > 3 {
      EpochQuadratic(d - 1);
      assert d * d == (d - 1) * (d - 1) + 2 * d - 1;
    }
  }

  lemma Epoch17()
    ensures Epoch(17) == 96 && Epoch(18) == 106
  {
    assert Epoch(6) == 16 && Epoch(9) == 32;
    assert Epoch(12) == 52 && Epoch(15) == 77;
  }

  /** Up to height 2^18, a walk to any lower height takes at most 110 steps. */
  lemma MaxSteps(h: nat, t: nat)
    requires t <= h <= 0x40000
    ensures Steps(h, t) <= 110
  {
    hide Steps, Bound, LevelBound;
    if t < h {
      var d, a, w, l, m := Part(h, t);
      Two18();
      if d >= 19 { PowMono(19, d); }
      StepsBound(h, t, d, a, w, l, m);
      Epoch17();
      if d == 18 {
        BoundCross(d, a, m);
      } else {
        BoundByLevel(d, a, l, m);
        LevelMono(d, 17);
        LevelSeventeen();
      }
    } else {
      OneStep(t + 1, t);
    }
  }

  lemma LevelSeventeen()
    ensures LevelBound(17) == 110
  {
    Epoch17();
  }

  lemma Two18()
    ensures Pow2(18) == 0x40000 && Pow2(19) == 0x80000
  {
    assert Pow2(6) == 64 && Pow2(12) == 0x1000;
  }

  // ---- The bound is reached ----------------------------------------------------------------

  lemma PartTwo(d: nat, l: nat)
    requires d >= 3 && l < Pow2(d)
    ensures PartAt(Pow2(d) + l, 2, d, 1, 0, l, 2)
  {
    PowMono(3, d);
    assert Pow2(3) == 8;
  }

  // One last bit goes with the skip link.
  lemma LastBit(d: nat, y: nat)
    requires d >= 3 && 2 * y < Pow2(d) && Ones(y) == 1
    ensures NextHeight(Pow2(d) + 2 * y, 2) == Pow2(d)
  {
    hide NextHeight, Pow2, InvertLowestOne, Ones;
    PartTwo(d, 2 * y);
    var h := Pow2(d) + 2 * y;
    var k := y / 4;
    OneLeft(y);
    if y == 1 {
      OnesZero(0);
      TwoNext(h, 2, d, 1, 0, 0, 2);
    } else if y == 2 {
      FourNext(h, 2, d, 1, 0, 0, 2);
    } else {
      HighNext(h, 2, d, 1, 0, k, 2);
    }
  }

  lemma OneLeft(y: nat)
    requires Ones(y) == 1
    ensures y == 1 || y == 2 || (y == 4 * (y / 4) && y / 4 > 0 && InvertLowestOne(y / 4) == 0)
  {
    hide InvertLowestOne;
    var k := y / 4;
    assert y == 4 * k + y % 4 && y / 2 / 2 == k;
    assert Ones(y) == y % 2 + Ones(y / 2) && Ones(y / 2) == (y / 2) % 2 + Ones(k);
    OnesZero(k);
    if k > 0 {
      OnesInv(k);
      OnesZero(InvertLowestOne(k));
    }
  }

  lemma {:induction false} OddWalk(d: nat, y: nat)
    requires d >= 3 && 2 * y + 1 < Pow2(d)
    ensures Steps(Pow2(d) + 2 * y + 1, 2) == (Ones(y) + 1) / 2 + 1 + Steps(Pow2(d), 2)
    decreases y
  {
    hide Steps, NextHeight, Pow2, InvertLowestOne, Ones;
    PartTwo(d, 2 * y + 1);
    var h := Pow2(d) + 2 * y + 1;
    OneStep(h, 2);
    OddNext(h, 2, d, 1, 0, y, 2);
    if Ones(y) >= 2 {
      OnesOff(y);
      var z := InvertLowestOne(InvertLowestOne(y));
      OnesSmaller(y, z);
      OddWalk(d, z);
    } else if Ones(y) == 1 {
      PartTwo(d, 2 * y);
      OneStep(h - 1, 2);
      LastBit(d, y);
    } else {
      OnesZero(y);
    }
  }

  lemma OnesSmaller(y: nat, z: nat)
    requires z <= y && Ones(z) < Ones(y)
    ensures z < y
  {}

  /** From a power of two to height 2. */
  lemma {:induction false} PowerWalk(d: nat)
    requires d >= 3
    ensures Steps(Pow2(d), 2) == Epoch(d)
  {
    hide Steps, Ones;
    if d == 3 {
      assert Pow2(3) == 8;
      EightWalk();
    } else {
      var y := Pow2(d - 2) - 1;
      PartTwo(d, 0);
      OneStep(Pow2(d), 2);
      CrossNext(Pow2(d), 2, d, 1, 0, 2);
      assert Pow2(d) - 1 == Pow2(d - 1) + 2 * y + 1;
      OddWalk(d - 1, y);
      OnesOfOnes(d - 2);
      PowerWalk(d - 1);
    }
  }

  lemma EightWalk()
    ensures Steps(8, 2) == 5
  {
    hide Steps;
    OneStep(8, 2);
    OneStep(7, 2);
    OneStep(6, 2);
    OneStep(4, 2);
    OneStep(3, 2);
    SmallSkips();
  }

  lemma SmallSkips()
    ensures GetSkipHeight(8) == 0 && GetSkipHeight(7) == 1 && GetSkipHeight(6) == 4 && GetSkipHeight(5) == 1
    ensures GetSkipHeight(4) == 0 && GetSkipHeight(3) == 1
  {
    hide InvertLowestOne;
    InvZero();
    InvNext(0);
    InvNext(1);
    InvDouble(1);
    InvDouble(2);
    InvDouble(3);
    InvDouble(4);
  }

  lemma {:induction false} HighWalk(d: nat, k: nat)
    requires d >= 3 && 8 * k < Pow2(d)
    ensures Steps(Pow2(d) + 8 * k, 2) == Ones(k) + Steps(Pow2(d), 2)
    decreases k
  {
    hide Steps, NextHeight, Pow2, InvertLowestOne;
    if k > 0 {
      PartTwo(d, 8 * k);
      OneStep(Pow2(d) + 8 * k, 2);
      HighNext(Pow2(d) + 8 * k, 2, d, 1, 0, k, 2);
      InvBelow(k);
      OnesInv(k);
      HighWalk(d, InvertLowestOne(k));
    }
  }

  /** The walk from height 2^18 - 8 to height 2 takes 110 steps. */
  lemma LongestWalk()
    ensures Steps(0x3fff8, 2) == 110
  {
    hide Steps, Ones, Epoch;
    Two18();
    assert Pow2(18) == 2 * Pow2(17) == 16 * Pow2(14);
    OnesOfOnes(14);
    HighWalk(17, Pow2(14) - 1);
    PowerWalk(17);
    Epoch17();
  }
}
