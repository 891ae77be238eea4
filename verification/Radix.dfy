/** Positional numerals, most significant digit first. */
module Radix {
  function Pow(b: nat, n: nat): nat {
    if n == 0 then 1 else b * Pow(b, n - 1)
  }

  function Val(b: nat, s: seq<nat>): nat {
    if s == [] then 0 else Val(b, s[..|s| - 1]) * b + s[|s| - 1]
  }

  ghost predicate Digits(b: nat, s: seq<nat>) {
    forall i :: 0 <= i < |s| ==> s[i] < b
  }

  function LeadingZeros(s: seq<nat>): (n: nat)
    ensures n <= |s|
    ensures forall i :: 0 <= i < n ==> s[i] == 0
    ensures n < |s| ==> s[n] != 0
  {
    if s == [] || s[0] != 0 then 0 else 1 + LeadingZeros(s[1..])
  }

  // ---- Powers ------------------------------------------------------------------------------

  lemma {:induction false} PowAdd(b: nat, m: nat, n: nat)
    ensures Pow(b, m + n) == Pow(b, m) * Pow(b, n)
  {
    if m > 0 {
      PowAdd(b, m - 1, n);
      MulAssociates(b, Pow(b, m - 1), Pow(b, n));
    }
  }

  lemma MulAssociates(a: nat, b: nat, c: nat)
    ensures (a * b) * c == a * (b * c)
  {
  }

  lemma {:induction false} PowMul(b: nat, m: nat, n: nat)
    ensures Pow(Pow(b, m), n) == Pow(b, m * n)
  {
    if n > 0 {
      PowMul(b, m, n - 1);
      assert m * n == m + m * (n - 1);
      PowAdd(b, m, m * (n - 1));
    } else {
      assert m * n == 0;
    }
  }

  lemma {:induction false} PowPositive(b: nat, n: nat)
    requires 0 < b
    ensures 0 < Pow(b, n)
  {
    if n > 0 {
      PowPositive(b, n - 1);
    }
  }

  lemma {:induction false} PowMonotone(b: nat, m: nat, n: nat)
    requires 0 < b && m <= n
    ensures Pow(b, m) <= Pow(b, n)
  {
    PowAdd(b, m, n - m);
    PowPositive(b, n - m);
    PowPositive(b, m);
    MulGrows(Pow(b, m), Pow(b, n - m));
  }

  lemma MulGrows(a: nat, b: nat)
    requires 0 < b
    ensures a <= a * b
  {
  }

  lemma MulMonotone(a: nat, b: nat, c: nat, d: nat)
    requires a <= c && b <= d
    ensures a * b <= c * d
  {
    assert a * b <= a * d <= c * d;
  }

  lemma {:induction false} PowBaseMonotone(a: nat, b: nat, n: nat)
    requires a <= b
    ensures Pow(a, n) <= Pow(b, n)
  {
    if n > 0 {
      PowBaseMonotone(a, b, n - 1);
      MulMonotone(a, Pow(a, n - 1), b, Pow(b, n - 1));
    }
  }

  lemma {:induction false} PowStrict(a: nat, b: nat, n: nat)
    requires a < b && 0 < n
    ensures Pow(a, n) < Pow(b, n)
  {
    PowBaseMonotone(a, b, n - 1);
    PowPositive(b, n - 1);
    MulStrict(a, Pow(a, n - 1), b, Pow(b, n - 1));
  }

  lemma MulStrict(a: nat, x: nat, b: nat, y: nat)
    requires a < b && x <= y && 0 < y
    ensures a * x < b * y
  {
    assert a * x <= a * y;
    assert a * y < b * y;
  }

  /** When p digits of base a fit in q digits of base b, n fit in m once p * m >= q * n. */
  lemma PowerFits(a: nat, b: nat, p: nat, q: nat, n: nat, m: nat)
    requires 0 < b && 0 < p && Pow(a, p) <= Pow(b, q) && n * q <= m * p
    ensures Pow(a, n) <= Pow(b, m)
  {
    hide Pow;
    PowersCompare(a, b, p, q, n, m, n * q, m * p);
    RootsCompare(Pow(a, n), Pow(b, m), p);
  }

  lemma PowersCompare(a: nat, b: nat, p: nat, q: nat, n: nat, m: nat, x: nat, y: nat)
    requires 0 < b && Pow(a, p) <= Pow(b, q) && x == n * q && y == m * p && x <= y
    ensures Pow(Pow(a, n), p) <= Pow(Pow(b, m), p)
  {
    hide Pow;
    calc {
      Pow(Pow(a, n), p);
      { PowSwap(a, n, p); }
      Pow(Pow(a, p), n);
      <= { PowBaseMonotone(Pow(a, p), Pow(b, q), n); }
      Pow(Pow(b, q), n);
      { PowSwap(b, q, n); PowSwap(b, n, q); }
      Pow(b, x);
      <= { PowMonotone(b, x, y); }
      Pow(b, y);
      { PowSwap(b, m, p); }
      Pow(Pow(b, m), p);
    }
  }

  lemma RootsCompare(x: nat, y: nat, p: nat)
    requires 0 < p && Pow(x, p) <= Pow(y, p)
    ensures x <= y
  {
    hide Pow;
    if y < x {
      PowStrict(y, x, p);
    }
  }

  lemma Commutes(m: nat, n: nat)
    ensures m * n == n * m
  {
  }

  lemma PowSwap(b: nat, m: nat, n: nat)
    ensures Pow(Pow(b, m), n) == Pow(Pow(b, n), m) == Pow(b, m * n)
  {
    hide Pow;
    PowMul(b, m, n);
    PowMul(b, n, m);
    Commutes(m, n);
  }

  // ---- Values ------------------------------------------------------------------------------

  lemma {:induction false} ValAppend(b: nat, s: seq<nat>, t: seq<nat>)
    ensures Val(b, s + t) == Val(b, s) * Pow(b, |t|) + Val(b, t)
  {
    if t == [] {
      assert s + t == s;
    } else {
      var n := |t| - 1;
      assert (s + t)[..|s + t| - 1] == s + t[..n];
      ValAppend(b, s, t[..n]);
      AppendStep(Val(b, s), Pow(b, n), Val(b, t[..n]), b, t[n]);
    }
  }

  lemma AppendStep(v: nat, p: nat, w: nat, b: nat, d: nat)
    ensures (v * p + w) * b + d == v * (b * p) + (w * b + d)
  {
  }

  lemma {:induction false} ValBound(b: nat, s: seq<nat>)
    requires Digits(b, s)
    ensures Val(b, s) < Pow(b, |s|)
  {
    if s != [] {
      ValBound(b, s[..|s| - 1]);
      BoundStep(Val(b, s[..|s| - 1]), Pow(b, |s| - 1), b, s[|s| - 1]);
    }
  }

  lemma BoundStep(v: nat, p: nat, b: nat, d: nat)
    requires v < p && d < b
    ensures v * b + d < b * p
  {
    assert (v + 1) * b <= p * b;
  }

  lemma {:induction false} ValZeros(b: nat, s: seq<nat>)
    requires forall i :: 0 <= i < |s| ==> s[i] == 0
    ensures Val(b, s) == 0
  {
    if s != [] {
      ValZeros(b, s[..|s| - 1]);
    }
  }

  lemma ValSkip(b: nat, s: seq<nat>, n: nat)
    requires n <= |s| && forall i :: 0 <= i < n ==> s[i] == 0
    ensures Val(b, s) == Val(b, s[n..])
  {
    ValZeros(b, s[..n]);
    ValAppend(b, s[..n], s[n..]);
    assert s[..n] + s[n..] == s;
  }

  lemma ValFirst(b: nat, s: seq<nat>)
    requires s != [] && s[0] != 0 && 0 < b
    ensures Val(b, s) >= Pow(b, |s| - 1)
  {
    ValAppend(b, s[..1], s[1..]);
    assert s[..1] + s[1..] == s;
    assert s[..1][..0] == [];
    assert Val(b, s[..1]) == s[0];
    PowPositive(b, |s| - 1);
    MulMonotone(1, Pow(b, |s| - 1), s[0], Pow(b, |s| - 1));
  }

  /** Numerals of one length and value are equal. */
  lemma {:induction false} SameLengthUnique(b: nat, s: seq<nat>, t: seq<nat>)
    requires Digits(b, s) && Digits(b, t) && |s| == |t| && Val(b, s) == Val(b, t)
    ensures s == t
  {
    if s != [] {
      var n := |s| - 1;
      LastDigit(Val(b, s[..n]), s[n], Val(b, t[..n]), t[n], b);
      SameLengthUnique(b, s[..n], t[..n]);
      assert s == s[..n] + [s[n]] && t == t[..n] + [t[n]];
    }
  }

  lemma LastDigit(v: nat, d: nat, w: nat, e: nat, b: nat)
    requires d < b && e < b && v * b + d == w * b + e
    ensures v == w && d == e
  {
    if v < w {
      MulMonotone(v + 1, b, w, b);
    } else if w < v {
      MulMonotone(w + 1, b, v, b);
    }
  }

  /** A numeral without leading zeros is determined by its value. */
  lemma CanonicalUnique(b: nat, s: seq<nat>, t: seq<nat>)
    requires 1 < b && Digits(b, s) && Digits(b, t) && Val(b, s) == Val(b, t)
    requires (s == [] || s[0] != 0) && (t == [] || t[0] != 0)
    ensures s == t
  {
    if |s| < |t| {
      CanonicalLonger(b, s, t);
    } else if |t| < |s| {
      CanonicalLonger(b, t, s);
    } else {
      SameLengthUnique(b, s, t);
    }
  }

  lemma CanonicalLonger(b: nat, s: seq<nat>, t: seq<nat>)
    requires 1 < b && Digits(b, s) && |s| < |t| && t[0] != 0
    ensures Val(b, s) < Val(b, t)
  {
    ValBound(b, s);
    ValFirst(b, t);
    PowMonotone(b, |s|, |t| - 1);
  }

  /** The two numerals have the same value and the same number of leading zeros. */
  ghost predicate Same(a: nat, s: seq<nat>, b: nat, t: seq<nat>) {
    LeadingZeros(s) == LeadingZeros(t) && Val(a, s) == Val(b, t)
  }

  /** So each has at most one counterpart in the other base. */
  lemma SameUnique(a: nat, s: seq<nat>, b: nat, t: seq<nat>, u: seq<nat>)
    requires 1 < b && Digits(b, t) && Digits(b, u)
    requires Same(a, s, b, t) && Same(a, s, b, u)
    ensures t == u
  {
    hide Val, LeadingZeros;
    var n := LeadingZeros(s);
    ValSkip(b, t, n);
    ValSkip(b, u, n);
    CanonicalUnique(b, t[n..], u[n..]);
    assert t == t[..n] + t[n..] && u == u[..n] + u[n..];
    assert t[..n] == u[..n];
  }
}
