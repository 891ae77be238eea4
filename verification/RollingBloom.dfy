/**
 * The rolling Bloom filter. Each position has a two-bit code spread over two words: 0 for
 * unset, otherwise the number (1, 2 or 3) of the generation that last set it. The proofs tie
 * the code of every position to the last insertion that reached it, over the whole history
 * since the last reset.
 */
module RollingBloom {
  import opened Bits64

  type Word32 = h: nat | h < 0x1_0000_0000

  /** A position: a pair of words and a bit of both. */
  datatype Cell = Cell(pair: nat, mask: bv64)

  /** What the constructor fixes; the sizing formulas and the hash stay abstract. */
  datatype Setup<!K> = Setup(hash: (nat, nat, K) -> Word32, funcs: nat, pairs: nat, perGeneration: nat)

  ghost predicate SetupOk<K>(s: Setup<K>) {
    1 <= s.pairs && 2 * s.pairs < 0x1_0000_0000 && 1 <= s.perGeneration
  }

  function FastMod(x: Word32, n: nat): (r: nat)
    requires 0 < n
    ensures r < n && r * 0x1_0000_0000 <= x * n < (r + 1) * 0x1_0000_0000
  {
    assert x * n < 0x1_0000_0000 * n;
    x * n / 0x1_0000_0000
  }

  function BitOf(h: Word32): bv6 { (h % 64) as bv6 }

  function PairOf<K>(s: Setup<K>, h: Word32): (p: nat)
    requires 1 <= s.pairs
    ensures p < s.pairs
  {
    FastMod(h, 2 * s.pairs) / 2
  }

  /** Every bit of every pair is used: some hash leads there; its upper bits choose the pair, its lower ones the bit. */
  lemma EveryCellUsed<K>(s: Setup<K>, p: nat, b: nat) returns (h: Word32)
    requires p < s.pairs && 2 * s.pairs <= 0x400_0000 && b < 64
    ensures PairOf(s, h) == p && BitOf(h) == b as bv6
  {
    hide FastMod;
    var n := 2 * s.pairs;
    var x := 2 * p * 0x1_0000_0000 + n - 1;
    var low := x / n;   // the least number whose product with n reaches 2p times 2^32
    LeastProduct(p, n, x, low);
    var up := low + 63;
    var g := up - (up - b) % 64;
    assert low <= g <= low + 63 && g % 64 == b;
    WithinPair(p, n, low, g);
    h := g;
    FastModIs(h, n, p);
  }

  lemma LeastProduct(p: nat, n: nat, x: nat, low: nat)
    requires 0 < n && x == 2 * p * 0x1_0000_0000 + n - 1 && low == x / n
    ensures 2 * p * 0x1_0000_0000 <= low * n < 2 * p * 0x1_0000_0000 + n
  {
    assert low * n <= x < low * n + n;
  }

  lemma WithinPair(p: nat, n: nat, low: nat, g: nat)
    requires 2 * p + 2 <= n <= 0x400_0000 && low <= g <= low + 63
    requires 2 * p * 0x1_0000_0000 <= low * n < 2 * p * 0x1_0000_0000 + n
    ensures 2 * p * 0x1_0000_0000 <= g * n < (2 * p + 2) * 0x1_0000_0000 && g < 0x1_0000_0000
  {
    var k := g - low;
    assert g * n == low * n + k * n;
    assert 0 <= k * n <= 63 * n by { Scaled(k, n); }
    if g >= 0x1_0000_0000 { Scaled2(g, n); }
  }

  lemma Scaled(k: nat, n: nat)
    requires k <= 63
    ensures k * n <= 63 * n
  {
    assert 63 * n == k * n + (63 - k) * n;
  }

  lemma Scaled2(g: nat, n: nat)
    requires g >= 0x1_0000_0000
    ensures g * n >= 0x1_0000_0000 * n
  {
    assert g * n == 0x1_0000_0000 * n + (g - 0x1_0000_0000) * n;
  }

  lemma FastModIs(h: Word32, n: nat, p: nat)
    requires 0 < n && 2 * p * 0x1_0000_0000 <= h * n < (2 * p + 2) * 0x1_0000_0000
    ensures FastMod(h, n) / 2 == p
  {}

  ghost function Place<K>(s: Setup<K>, tweak: nat, n: nat, key: K): Cell
    requires 1 <= s.pairs
  {
    var h := s.hash(n, tweak, key);
    Cell(PairOf(s, h), Mask(BitOf(h)))
  }

  /** One of the first n hash functions sends the key to the cell. */
  ghost predicate ReachesBefore<K>(s: Setup<K>, tweak: nat, n: nat, key: K, c: Cell)
    requires 1 <= s.pairs
  {
    exists i :: 0 <= i < n && Place(s, tweak, i, key) == c
  }

  ghost predicate Reaches<K>(s: Setup<K>, tweak: nat, key: K, c: Cell)
    requires 1 <= s.pairs
  {
    ReachesBefore(s, tweak, s.funcs, key, c)
  }

  /** The index of the last insertion that reached the cell, or -1. */
  ghost function Last<K>(s: Setup<K>, tweak: nat, history: seq<K>, c: Cell): (r: int)
    requires 1 <= s.pairs
    ensures -1 <= r < |history|
    ensures 0 <= r ==> Reaches(s, tweak, history[r], c)
    ensures forall i :: r < i < |history| ==> !Reaches(s, tweak, history[i], c)
  {
    if history == [] then -1
    else if Reaches(s, tweak, history[|history| - 1], c) then |history| - 1
    else Last(s, tweak, history[..|history| - 1], c)
  }

  function Next(g: nat): nat { if g == 3 then 1 else g + 1 }

  function Previous(g: nat): nat { if g <= 1 then 3 else g - 1 }

  /**
   * The code a position has when the last insertion reaching it is `last`, the current
   * generation is g and began with insertion `start`.
   */
  ghost function Code(last: int, start: int, length: int, g: nat): nat {
    if last < 0 || last < start - 2 * length then 0
    else if last < start - length then Previous(Previous(g))
    else if last < start then Previous(g)
    else g
  }

  ghost predicate InTable(c: Cell, data: seq<bv64>) {
    2 * c.pair + 1 < |data| && OneHot(c.mask)
  }

  ghost function Stored(data: seq<bv64>, c: Cell): nat
    requires InTable(c, data)
  {
    (if Has(data[2 * c.pair], c.mask) then 1 else 0) + (if Has(data[2 * c.pair + 1], c.mask) then 2 else 0)
  }

  ghost predicate Represents<K>(s: Setup<K>, tweak: nat, history: seq<K>, start: int, g: nat, data: seq<bv64>)
    requires 1 <= s.pairs
  {
    forall c :: InTable(c, data) ==>
      Stored(data, c) == Code(Last(s, tweak, history, c), start, s.perGeneration, g)
  }

  /** Starting a generation clears exactly the positions whose code is reused. */
  ghost predicate Wiped(was: seq<bv64>, data: seq<bv64>, g: nat) {
    && |data| == |was|
    && forall c :: InTable(c, data) ==>
         Stored(data, c) == if Stored(was, c) == g then 0 else Stored(was, c)
  }

  /** Setting some cells to g leaves the others. */
  ghost predicate MarkedTo<K>(s: Setup<K>, tweak: nat, n: nat, key: K, g: nat, was: seq<bv64>, data: seq<bv64>)
    requires 1 <= s.pairs
  {
    && |data| == |was|
    && forall c :: InTable(c, data) ==>
         Stored(data, c) == if ReachesBefore(s, tweak, n, key, c) then g else Stored(was, c)
  }

  lemma LastGrows<K>(s: Setup<K>, tweak: nat, history: seq<K>, key: K, c: Cell)
    requires 1 <= s.pairs
    ensures Last(s, tweak, history + [key], c)
         == if Reaches(s, tweak, key, c) then |history| else Last(s, tweak, history, c)
  {
    assert (history + [key])[..|history|] == history;
  }

  /** The new generation begins exactly when the current one is full. */
  lemma WipeRepresents<K>(s: Setup<K>, tweak: nat, history: seq<K>, start: int, g: nat,
                          was: seq<bv64>, data: seq<bv64>)
    requires 1 <= s.pairs && 1 <= g <= 3
    requires start + s.perGeneration == |history|
    requires Represents(s, tweak, history, start, g, was)
    requires Wiped(was, data, Next(g))
    ensures Represents(s, tweak, history, start + s.perGeneration, Next(g), data)
  {
    hide Last, Stored, InTable;
    forall c | InTable(c, data)
      ensures Stored(data, c) == Code(Last(s, tweak, history, c), start + s.perGeneration, s.perGeneration, Next(g))
    {
      InTableSize(c, was, data);
    }
  }

  lemma InTableSize(c: Cell, was: seq<bv64>, data: seq<bv64>)
    requires |was| == |data|
    ensures InTable(c, was) == InTable(c, data)
  {
  }

  lemma MarkRepresents<K>(s: Setup<K>, tweak: nat, history: seq<K>, key: K, start: int, g: nat,
                          was: seq<bv64>, data: seq<bv64>)
    requires 1 <= s.pairs && 1 <= g <= 3
    requires start <= |history|
    requires Represents(s, tweak, history, start, g, was)
    requires MarkedTo(s, tweak, s.funcs, key, g, was, data)
    ensures Represents(s, tweak, history + [key], start, g, data)
  {
    hide Last, Stored, InTable, ReachesBefore;
    forall c | InTable(c, data)
      ensures Stored(data, c) == Code(Last(s, tweak, history + [key], c), start, s.perGeneration, g)
    {
      InTableSize(c, was, data);
      LastGrows(s, tweak, history, key, c);
    }
  }

  ghost predicate CellSet(place: Cell, g: nat, was: seq<bv64>, data: seq<bv64>) {
    && |data| == |was|
    && forall c :: InTable(c, data) ==> Stored(data, c) == if c == place then g else Stored(was, c)
  }

  /** Overwriting a bit of both words of a pair sets one cell. */
  lemma PutCell(was: seq<bv64>, data: seq<bv64>, pair: nat, bit: bv6, g: nat)
    requires 1 <= g <= 3 && 2 * pair + 1 < |was|
    requires data == was[2 * pair := Put(was[2 * pair], g % 2 == 1, bit)]
                        [2 * pair + 1 := Put(was[2 * pair + 1], g / 2 == 1, bit)]
    ensures CellSet(Cell(pair, Mask(bit)), g, was, data)
  {
    hide Has, OneHot, Mask, Put;
    forall c | InTable(c, data)
      ensures Stored(data, c) == if c == Cell(pair, Mask(bit)) then g else Stored(was, c)
    {
      if c.pair == pair {
        HasPut(was[2 * pair], g % 2 == 1, bit, c.mask);
        HasPut(was[2 * pair + 1], g / 2 == 1, bit, c.mask);
      }
    }
  }

  lemma MarkNone<K>(s: Setup<K>, tweak: nat, key: K, g: nat, data: seq<bv64>)
    requires 1 <= s.pairs
    ensures MarkedTo(s, tweak, 0, key, g, data, data)
  {
  }

  lemma MarkNext<K>(s: Setup<K>, tweak: nat, n: nat, key: K, g: nat,
                    first: seq<bv64>, was: seq<bv64>, data: seq<bv64>)
    requires 1 <= s.pairs
    requires MarkedTo(s, tweak, n, key, g, first, was)
    requires CellSet(Place(s, tweak, n, key), g, was, data)
    ensures MarkedTo(s, tweak, n + 1, key, g, first, data)
  {
    hide Stored, Place, Has, OneHot;
    forall c | InTable(c, data)
      ensures Stored(data, c) == if ReachesBefore(s, tweak, n + 1, key, c) then g else Stored(first, c)
    {
      assert InTable(c, was);
      if c == Place(s, tweak, n, key) {
        assert ReachesBefore(s, tweak, n + 1, key, c);
      } else {
        assert ReachesBefore(s, tweak, n + 1, key, c) == ReachesBefore(s, tweak, n, key, c);
      }
    }
  }

  /** Some insertion from index `from` on reaches the cell. */
  ghost predicate ReachedSince<K>(s: Setup<K>, tweak: nat, history: seq<K>, from: int, c: Cell)
    requires 1 <= s.pairs
  {
    exists i :: 0 <= i < |history| && from <= i && Reaches(s, tweak, history[i], c)
  }

  /** What the filter reports: every cell of the key was reached by the last three generations. */
  ghost predicate Reported<K>(s: Setup<K>, tweak: nat, history: seq<K>, from: int, key: K)
    requires 1 <= s.pairs
  {
    forall n :: 0 <= n < s.funcs ==> ReachedSince(s, tweak, history, from, Place(s, tweak, n, key))
  }

  lemma StoredReached<K>(s: Setup<K>, tweak: nat, history: seq<K>, start: int, g: nat, data: seq<bv64>, c: Cell)
    requires 1 <= s.pairs && 1 <= g <= 3
    requires Represents(s, tweak, history, start, g, data)
    requires InTable(c, data)
    ensures Stored(data, c) != 0 <==> ReachedSince(s, tweak, history, start - 2 * s.perGeneration, c)
  {
    hide Stored, InTable, ReachesBefore;
  }

  /** Every key inserted from index `from` on is reported. */
  lemma RecentReported<K>(s: Setup<K>, tweak: nat, history: seq<K>, from: int, i: nat)
    requires 1 <= s.pairs
    requires from <= i < |history|
    ensures Reported(s, tweak, history, from, history[i])
  {
    forall n | 0 <= n < s.funcs
      ensures ReachedSince(s, tweak, history, from, Place(s, tweak, n, history[i]))
    {
      assert Reaches(s, tweak, history[i], Place(s, tweak, n, history[i]));
    }
  }

  /** The generation after `completed` full ones: where it starts and what number it reuses. */
  ghost predicate Numbered(completed: nat, length: nat, start: int, g: nat) {
    start == completed * length && g == completed % 3 + 1
  }

  lemma NumberedNext(completed: nat, length: nat, start: int, g: nat)
    requires Numbered(completed, length, start, g)
    ensures 1 <= g <= 3 && Numbered(completed + 1, length, start + length, Next(g))
  {
    assert (completed + 1) * length == completed * length + length;
  }

  class RollingBloomFilter<!K> {
    const elements: nat
    const setup: Setup<K>
    const data: array<bv64>
    var tweak: nat
    var entriesThisGeneration: nat
    var generation: nat
    /** The keys inserted since the last reset, and the number of generations completed. */
    ghost var history: seq<K>
    ghost var completed: nat

    /** The first insertion of the running generation. */
    ghost function Start(): int
      reads this
    {
      |history| - entriesThisGeneration
    }

    /** The first insertion that still shows: two generations before the running one. */
    ghost function WindowStart(): int
      reads this
    {
      Start() - 2 * setup.perGeneration
    }

    ghost predicate Valid()
      reads this, data
    {
      && SetupOk(setup)
      && setup.perGeneration == (elements + 1) / 2
      && data.Length == 2 * setup.pairs
      && entriesThisGeneration <= setup.perGeneration
      && (history != [] ==> 1 <= entriesThisGeneration)
      && Numbered(completed, setup.perGeneration, Start(), generation)
      && Represents(setup, tweak, history, Start(), generation, data[..])
    }

    constructor (elements: nat, hash: (nat, nat, K) -> Word32, funcs: nat, pairs: nat, tweak: nat)
      requires 1 <= elements
      requires 1 <= pairs && 2 * pairs < 0x1_0000_0000
      ensures Valid() && fresh(data)
      ensures this.elements == elements && this.tweak == tweak && history == []
      ensures setup == Setup(hash, funcs, pairs, (elements + 1) / 2)
    {
      this.elements := elements;
      setup := Setup(hash, funcs, pairs, (elements + 1) / 2);
      data := new bv64[2 * pairs];
      this.tweak := tweak;
      new;
      Reset(tweak);
    }

    method Reset(newTweak: nat)
      requires SetupOk(setup) && setup.perGeneration == (elements + 1) / 2 && data.Length == 2 * setup.pairs
      modifies this, data
      ensures Valid()
      ensures tweak == newTweak && history == []
    {
      hide Last, Has;
      tweak, entriesThisGeneration, generation, history, completed := newTweak, 0, 1, [], 0;
      for i := 0 to data.Length
        modifies data
        invariant forall j :: 0 <= j < i ==> data[j] == 0
      {
        data[i] := 0;
      }
      forall c | InTable(c, data[..])
        ensures Stored(data[..], c) == 0
      {
        ZeroHas(c.mask);
      }
    }

    method Insert(key: K)
      requires Valid()
      modifies this, data
      ensures Valid()
      ensures history == old(history) + [key]
      ensures tweak == old(tweak)
    {
      hide Represents, Wiped, MarkedTo, Numbered;
      NumberedNext(completed, setup.perGeneration, Start(), generation);
      if entriesThisGeneration == setup.perGeneration {
        ghost var start, was := Start(), data[..];
        entriesThisGeneration := 0;
        generation := generation + 1;
        if generation == 4 {
          generation := 1;
        }
        Wipe();
        WipeRepresents(setup, tweak, history, start, old(generation), was, data[..]);
        completed := completed + 1;
      }
      ghost var start, was := Start(), data[..];
      entriesThisGeneration := entriesThisGeneration + 1;
      MarkAll(key);
      MarkRepresents(setup, tweak, history, key, start, generation, was, data[..]);
      history := history + [key];
    }

    method Wipe()
      requires 1 <= generation <= 3 && data.Length == 2 * setup.pairs
      modifies data
      ensures Wiped(old(data[..]), data[..], generation)
    {
      hide Has, OneHot, And, WipeMask;
      ghost var was := data[..];
      for i := 0 to setup.pairs
        modifies data
        invariant forall c :: InTable(c, was) && c.pair < i ==>
          Stored(data[..], c) == if Stored(was, c) == generation then 0 else Stored(was, c)
        invariant forall j :: 2 * i <= j < data.Length ==> data[j] == was[j]
      {
        var p1, p2 := data[2 * i], data[2 * i + 1];
        var mask := WipeMask(p1, p2, generation % 2 == 1, generation / 2 == 1);
        data[2 * i] := And(p1, mask);
        data[2 * i + 1] := And(p2, mask);
        forall c | InTable(c, was) && c.pair == i
          ensures Stored(data[..], c) == if Stored(was, c) == generation then 0 else Stored(was, c)
        {
          HasWiped(p1, p2, generation % 2 == 1, generation / 2 == 1, c.mask);
        }
      }
    }

    method MarkAll(key: K)
      requires SetupOk(setup) && 1 <= generation <= 3 && data.Length == 2 * setup.pairs
      modifies data
      ensures MarkedTo(setup, tweak, setup.funcs, key, generation, old(data[..]), data[..])
    {
      hide Stored, InTable, MarkedTo;
      MarkNone(setup, tweak, key, generation, data[..]);
      for n := 0 to setup.funcs
        modifies data
        invariant MarkedTo(setup, tweak, n, key, generation, old(data[..]), data[..])
      {
        ghost var was := data[..];
        Mark(setup.hash(n, tweak, key));
        MarkNext(setup, tweak, n, key, generation, old(data[..]), was, data[..]);
      }
    }

    method Mark(h: Word32)
      requires SetupOk(setup) && 1 <= generation <= 3 && data.Length == 2 * setup.pairs
      modifies data
      ensures CellSet(Cell(PairOf(setup, h), Mask(BitOf(h))), generation, old(data[..]), data[..])
    {
      hide CellSet, Mask, Put, FastMod;
      var bit := BitOf(h);
      var pos := FastMod(h, 2 * setup.pairs);
      ghost var was := data[..];
      data[pos - pos % 2] := Put(data[pos - pos % 2], generation % 2 == 1, bit);
      data[pos - pos % 2 + 1] := Put(data[pos - pos % 2 + 1], generation / 2 == 1, bit);
      PutCell(was, data[..], pos / 2, bit, generation);
    }

    /**
     * Reports exactly the keys whose every position was reached by the last three generations;
     * so each of the last `elements` keys is reported.
     */
    method Contains(key: K) returns (found: bool)
      requires Valid()
      ensures found <==> Reported(setup, tweak, history, WindowStart(), key)
      ensures forall i :: 0 <= i < |history| && |history| - elements <= i && history[i] == key ==> found
    {
      hide Represents, ReachedSince, Last, Numbered;
      NumberedNext(completed, setup.perGeneration, Start(), generation);
      found := true;
      forall i | 0 <= i < |history| && |history| - elements <= i && history[i] == key
        ensures Reported(setup, tweak, history, WindowStart(), key)
      {
        RecentReported(setup, tweak, history, WindowStart(), i);
      }
      for n := 0 to setup.funcs
        invariant forall m :: 0 <= m < n ==>
          ReachedSince(setup, tweak, history, WindowStart(), Place(setup, tweak, m, key))
      {
        var h := setup.hash(n, tweak, key);
        var lit := Read(h);
        ghost var c := Place(setup, tweak, n, key);
        MaskOneHot(BitOf(h));
        StoredReached(setup, tweak, history, Start(), generation, data[..], c);
        if !lit {
          return false;
        }
      }
    }

    method Read(h: Word32) returns (lit: bool)
      requires SetupOk(setup) && data.Length == 2 * setup.pairs
      ensures var c := Cell(PairOf(setup, h), Mask(BitOf(h)));
        InTable(c, data[..]) && (lit <==> Stored(data[..], c) != 0)
    {
      hide Has, OneHot, Mask, Or, FastMod;
      var bit := BitOf(h);
      var pos := FastMod(h, 2 * setup.pairs);
      var both := Or(data[pos - pos % 2], data[pos - pos % 2 + 1]);
      lit := (both >> bit) & 1 == 1;
      ShiftedBit(both, bit);
      MaskOneHot(bit);
      HasOr(data[pos - pos % 2], data[pos - pos % 2 + 1], Mask(bit));
    }
  }
}
