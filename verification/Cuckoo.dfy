/** The cuckoo cache: eight locations per element, bounded displacement, and lazily collected garbage. */
module Cuckoo {
  import opened Numbers

  datatype Element = Element(id: nat)

  const TWO_32 := 0x1_0000_0000
  const INVALID := 0xffff_ffff

  type Uint32 = x: nat | x < TWO_32

  // The hash functions h<0> .. h<7>.
  type Hasher = (nat, Element) -> Uint32

  // Reducing a 32-bit hash to a location: the high half of a 32 by 32 bit product.
  function Reduce(h: Uint32, size: nat): (r: nat)
    ensures r * TWO_32 <= h * size < (r + 1) * TWO_32
  {
    h * size / TWO_32
  }

  // Every location of a table of at most 2^32 slots is the reduction of some hash.
  lemma ReduceReaches(r: nat, size: nat) returns (h: Uint32)
    requires r < size <= TWO_32
    ensures Reduce(h, size) == r
  {
    // The least h with h * size >= r * TWO_32.
    var x := r * TWO_32 + size - 1;
    var g := x / size;
    Rounded(r, size, x, g);
    h := g;
    ReduceUnique(h, size, r);
  }

  lemma Rounded(r: nat, size: nat, x: nat, g: nat)
    requires r < size <= TWO_32 && x == r * TWO_32 + size - 1 && g == x / size
    ensures g < TWO_32 && r * TWO_32 <= g * size < (r + 1) * TWO_32
  {
    assert g * size <= x < g * size + size;
    assert r * TWO_32 + TWO_32 <= size * TWO_32;
    if g >= TWO_32 { ProductAtLeast(g, size); }
  }

  lemma ProductAtLeast(g: nat, size: nat)
    requires g >= TWO_32
    ensures g * size >= TWO_32 * size
  {
    assert g * size == TWO_32 * size + (g - TWO_32) * size;
  }

  lemma ReduceUnique(h: Uint32, size: nat, r: nat)
    requires r * TWO_32 <= h * size < (r + 1) * TWO_32
    ensures Reduce(h, size) == r
  {}

  lemma ReduceInRange(h: Uint32, size: nat)
    requires size > 0
    ensures Reduce(h, size) < size
  {
    ProductBelow(h, TWO_32, size);
    QuotientBelow(h * size, size);
  }

  lemma ProductBelow(a: nat, b: nat, c: nat)
    requires a < b && c > 0
    ensures a * c < b * c
  {}

  lemma QuotientBelow(x: nat, size: nat)
    requires x < TWO_32 * size
    ensures x / TWO_32 < size
  {}

  // compute_hashes.
  function Locations(hasher: Hasher, size: nat, e: Element): (locs: seq<nat>)
    requires size > 0
    ensures |locs| == 8 && forall i :: 0 <= i < 8 ==> locs[i] < size
  {
    [Location(hasher, size, 0, e), Location(hasher, size, 1, e), Location(hasher, size, 2, e),
        Location(hasher, size, 3, e),
     Location(hasher, size, 4, e), Location(hasher, size, 5, e), Location(hasher, size, 6, e),
         Location(hasher, size, 7, e)]
  }

  function Location(hasher: Hasher, size: nat, i: nat, e: Element): (loc: nat)
    requires size > 0
    ensures loc < size
  {
    ReduceInRange(hasher(i, e), size);
    Reduce(hasher(i, e), size)
  }

  // contains: the element is at one of its locations.
  ghost predicate Reported(hasher: Hasher, table: seq<Element>, e: Element) {
    exists i :: 0 <= i < |table| && i in Locations(hasher, |table|, e) && table[i] == e
  }

  // Every slot not marked for collection holds an element at one of its own locations.
  ghost predicate Placed(hasher: Hasher, table: seq<Element>, collected: seq<bool>) {
    && |table| == |collected|
    && forall i :: 0 <= i < |table| && !collected[i] ==> i in Locations(hasher, |table|, table[i])
  }

  // The live entries of the current epoch.
  function LiveCount(epoch: seq<bool>, collected: seq<bool>): nat
    requires |epoch| == |collected|
  {
    if epoch == [] then 0 else (if epoch[0] && !collected[0] then 1 else 0) + LiveCount(epoch[1..], collected[1..])
  }

  function One(b: bool): nat { if b then 1 else 0 }

  lemma {:induction false} LiveUpdate(epoch: seq<bool>, collected: seq<bool>, i: nat, e: bool, c: bool)
    requires |epoch| == |collected| && i < |epoch|
    ensures LiveCount(epoch[i := e], collected[i := c]) + One(epoch[i] && !collected[i]) == LiveCount(epoch, collected)
        + One(e && !c)
    decreases |epoch|
  {
    if i == 0 {
      assert epoch[i := e][1..] == epoch[1..] && collected[i := c][1..] == collected[1..];
    } else {
      LiveUpdate(epoch[1..], collected[1..], i - 1, e, c);
      assert epoch[i := e][1..] == epoch[1..][i - 1 := e] && collected[i := c][1..] == collected[1..][i - 1 := c];
    }
  }

  lemma {:induction false} LiveNone(epoch: seq<bool>, collected: seq<bool>)
    requires |epoch| == |collected| && forall i :: 0 <= i < |epoch| ==> !epoch[i] || collected[i]
    ensures LiveCount(epoch, collected) == 0
    decreases |epoch|
  {
    if epoch != [] { LiveNone(epoch[1..], collected[1..]); }
  }

  lemma {:induction false} LivePrefix(epoch: seq<bool>, collected: seq<bool>, n: nat)
    requires |epoch| == |collected| && n < |epoch|
    ensures LiveCount(epoch[..n + 1], collected[..n + 1]) == LiveCount(epoch[..n], collected[..n])
        + One(epoch[n] && !collected[n])
    decreases |epoch|
  {
    if n > 0 {
      LivePrefix(epoch[1..], collected[1..], n - 1);
      assert epoch[..n + 1][1..] == epoch[1..][..n] && collected[..n + 1][1..] == collected[1..][..n];
      assert epoch[..n][1..] == epoch[1..][..n - 1] && collected[..n][1..] == collected[1..][..n - 1];
    }
  }

  // ---------------------------------------------------------------- one displacement

  // While an element is displaced from slot to slot: the table with the element in hand is the old table with the new
  // element, and nothing reported before is unreported except possibly the one in hand.
  ghost predicate Carrying(hasher: Hasher, before: seq<Element>, e: Element, table: seq<Element>, hand: Element) {
    && |table| == |before|
    && multiset(table) + multiset{hand} == multiset(before) + multiset{e}
    && forall x :: Reported(hasher, before, x) || x == e ==> Reported(hasher, table, x) || x == hand
  }

  lemma MultisetUpdate(table: seq<Element>, i: nat, e: Element)
    requires i < |table|
    ensures multiset(table[i := e]) + multiset{table[i]} == multiset(table) + multiset{e}
  {
    assert table == table[..i] + [table[i]] + table[i + 1..];
    assert table[i := e] == table[..i] + [e] + table[i + 1..];
  }

  // Writing the element in hand to one of its locations and taking what was there.
  lemma Displace(hasher: Hasher, before: seq<Element>, e: Element, table: seq<Element>, hand: Element, i: nat)
    requires Carrying(hasher, before, e, table, hand)
    requires i < |table| && i in Locations(hasher, |table|, hand)
    ensures Carrying(hasher, before, e, table[i := hand], table[i])
  {
    hide Locations;
    var t2 := table[i := hand];
    MultisetUpdate(table, i, hand);
    MoveHand(multiset(table), multiset(t2), multiset(before), e, hand, table[i]);
    forall x | Reported(hasher, before, x) || x == e ensures Reported(hasher, t2, x) || x == table[i] {
      assert Reported(hasher, table, x) || x == hand;
      if x == hand {
        assert t2[i] == x;
      } else {
        var k :| 0 <= k < |table| && k in Locations(hasher, |table|, x) && table[k] == x;
        if k != i { assert t2[k] == x; }
      }
    }
  }

  lemma MoveHand(t: multiset<Element>, t2: multiset<Element>, b: multiset<Element>, e: Element, hand: Element,
      out: Element)
    requires t + multiset{hand} == b + multiset{e} && t2 + multiset{out} == t + multiset{hand}
    ensures t2 + multiset{out} == b + multiset{e}
  {}

  lemma CarryNothing(hasher: Hasher, table: seq<Element>, e: Element)
    ensures Carrying(hasher, table, e, table, e)
  {}

  lemma NotReported(hasher: Hasher, table: seq<Element>, e: Element)
    requires |table| > 0 && forall j :: 0 <= j < 8 ==> table[Locations(hasher, |table|, e)[j]] != e
    ensures !Reported(hasher, table, e)
  {}

  // std::find: the first index of x, or the length.
  function Find(locs: seq<nat>, x: nat): (k: nat)
    ensures k <= |locs| && (k < |locs| ==> locs[k] == x) && forall i :: 0 <= i < k ==> locs[i] != x
  {
    if locs == [] || locs[0] == x then 0 else 1 + Find(locs[1..], x)
  }

  // ---------------------------------------------------------------- insertion as a whole

  // The table with its flags.
  datatype Contents = Contents(table: seq<Element>, epochFlags: seq<bool>, collected: seq<bool>)
  {
    ghost predicate Shaped() { 0 < |table| <= INVALID && |table| == |epochFlags| == |collected| }
  }

  // The current epoch is demoted and the one before it marked for collection.
  ghost function Demoted(c: Contents): Contents
    requires c.Shaped()
  {
    Contents(c.table, seq(|c.table|, i => false),
             seq(|c.table|, i requires 0 <= i < |c.table| => c.collected[i] || !c.epochFlags[i]))
  }

  // epoch_check: the epoch is over when the scan, made every `counter` insertions, finds it full.
  ghost function Checked(c: Contents, counter: nat, epochSize: nat): Contents
    requires c.Shaped()
  {
    if counter == 0 && LiveCount(c.epochFlags, c.collected) >= epochSize then Demoted(c) else c
  }

  // The displacement loop between two rounds: the table and its epoch flags, the element in hand with its epoch, and
  // the location it came from.
  datatype Round = Round(table: seq<Element>, flags: seq<bool>, hand: Element, epoch: bool, from: nat)
  {
    ghost predicate Shaped() { 0 < |table| == |flags| }
  }

  ghost predicate Collectable(hasher: Hasher, c: Contents, e: Element, k: nat)
    requires c.Shaped() && k < 8
  {
    c.collected[Locations(hasher, |c.table|, e)[k]]
  }

  ghost predicate HasRoom(hasher: Hasher, c: Contents, e: Element)
    requires c.Shaped()
  {
    exists k :: 0 <= k < 8 && Collectable(hasher, c, e, k)
  }

  // One round without room: the hand is put down at the location after the one it came from, and what was there, with
  // its epoch, is taken up.
  ghost predicate Swaps(hasher: Hasher, x: Round, y: Round)
    requires x.Shaped()
  {
    var locs := Locations(hasher, |x.table|, x.hand);
    var loc := locs[(1 + Find(locs, x.from)) % 8];
    y == Round(x.table[loc := x.hand], x.flags[loc := x.epoch], x.table[loc], x.flags[loc], loc)
  }

  // The rounds from e on: none but the last has room for the hand.
  ghost predicate Rounds(hasher: Hasher, c: Contents, e: Element, trace: seq<Round>)
    requires c.Shaped()
  {
    && trace != [] && trace[0] == Round(c.table, c.epochFlags, e, true, INVALID)
    && (forall i :: 0 <= i < |trace| ==> |trace[i].table| == |c.table| == |trace[i].flags|)
    && (forall i :: 0 < i < |trace| ==> RoundAt(hasher, c, trace, i))
  }

  ghost predicate RoundAt(hasher: Hasher, c: Contents, trace: seq<Round>, i: nat)
    requires c.Shaped() && 0 < i < |trace| && trace[i - 1].Shaped()
  {
    Swaps(hasher, trace[i - 1], trace[i]) && !HasRoom(hasher, c, trace[i - 1].hand)
  }

  // How the insertion of an element that was not in the table ends: after `limit` rounds with an element left over, or
  // with the hand at its first collectable location, whose occupant is lost.
  ghost predicate Ends(hasher: Hasher, limit: nat, c: Contents, e: Element, trace: seq<Round>, d: Contents,
                       lost: Element)
    requires c.Shaped()
  {
    && Rounds(hasher, c, e, trace) && |trace| <= limit + 1
    && var last := trace[|trace| - 1];
       if |trace| == limit + 1 then d == Contents(last.table, last.flags, c.collected) && lost == last.hand
       else exists k: nat :: Stores(hasher, c, last, k, d, lost)
  }

  ghost predicate Stores(hasher: Hasher, c: Contents, last: Round, k: nat, d: Contents, lost: Element)
    requires c.Shaped() && |last.table| == |c.table| == |last.flags|
  {
    && FirstRoom(hasher, c, last.hand, k) && d == PutDown(hasher, c, last, k)
    && lost == last.table[Locations(hasher, |c.table|, last.hand)[k]]
  }

  ghost predicate FirstRoom(hasher: Hasher, c: Contents, e: Element, k: nat)
    requires c.Shaped()
  {
    k < 8 && Collectable(hasher, c, e, k) && forall j :: 0 <= j < k ==> !Collectable(hasher, c, e, j)
  }

  ghost function PutDown(hasher: Hasher, c: Contents, last: Round, k: nat): Contents
    requires c.Shaped() && |last.table| == |c.table| == |last.flags| && k < 8
  {
    var loc := Locations(hasher, |c.table|, last.hand)[k];
    Contents(last.table[loc := last.hand], last.flags[loc := last.epoch], c.collected[loc := false])
  }

  lemma FirstRoomAt(hasher: Hasher, c: Contents, e: Element, k: nat)
    requires c.Shaped() && k < 8
    requires var locs := Locations(hasher, |c.table|, e);
             c.collected[locs[k]] && forall i :: 0 <= i < k ==> !c.collected[locs[i]]
    ensures FirstRoom(hasher, c, e, k)
  {
    hide Locations;
  }

  lemma NoRoomAt(hasher: Hasher, c: Contents, e: Element)
    requires c.Shaped()
    requires var locs := Locations(hasher, |c.table|, e); forall i :: 0 <= i < 8 ==> !c.collected[locs[i]]
    ensures !HasRoom(hasher, c, e)
  {
    hide Locations;
  }

  lemma SwapsAt(hasher: Hasher, x: Round, loc: nat)
    requires x.Shaped() && var locs := Locations(hasher, |x.table|, x.hand); loc == locs[(1 + Find(locs, x.from)) % 8]
    ensures Swaps(hasher, x, Round(x.table[loc := x.hand], x.flags[loc := x.epoch], x.table[loc], x.flags[loc], loc))
  {}

  lemma RoundsNext(hasher: Hasher, c: Contents, e: Element, trace: seq<Round>, y: Round) returns (more: seq<Round>)
    requires c.Shaped() && Rounds(hasher, c, e, trace) && |y.table| == |c.table| == |y.flags|
    requires var x := trace[|trace| - 1]; Swaps(hasher, x, y) && !HasRoom(hasher, c, x.hand)
    ensures more == trace + [y] && Rounds(hasher, c, e, more)
  {
    hide Locations, Swaps, HasRoom;
    more := trace + [y];
    forall i | 0 < i < |more| ensures RoundAt(hasher, c, more, i) {
      if i < |trace| { assert RoundAt(hasher, c, trace, i); }
    }
  }

  // An element that is there is only marked as live and of the current epoch, at its first location.
  ghost predicate Renewed(hasher: Hasher, c: Contents, e: Element, d: Contents)
    requires c.Shaped()
  {
    exists k: nat :: RenewedAt(hasher, c, e, d, k)
  }

  ghost predicate RenewedAt(hasher: Hasher, c: Contents, e: Element, d: Contents, k: nat)
    requires c.Shaped()
  {
    && k < 8
    && var locs := Locations(hasher, |c.table|, e);
       && c.table[locs[k]] == e && (forall j :: 0 <= j < k ==> c.table[locs[j]] != e)
       && d == Contents(c.table, c.epochFlags[locs[k] := true], c.collected[locs[k] := false])
  }

  // With room for it the element is stored at once: at its first collectable location, live and in the current epoch,
  // and nothing else changes.
  lemma RoomStores(hasher: Hasher, limit: nat, c: Contents, e: Element, trace: seq<Round>, d: Contents, lost: Element)
      returns (k: nat)
    requires c.Shaped() && limit >= 1 && HasRoom(hasher, c, e) && Ends(hasher, limit, c, e, trace, d, lost)
    ensures FirstRoom(hasher, c, e, k)
    ensures var loc := Locations(hasher, |c.table|, e)[k];
            && d == Contents(c.table[loc := e], c.epochFlags[loc := true], c.collected[loc := false])
            && lost == c.table[loc] && Reported(hasher, d.table, e)
  {
    hide Locations;
    if |trace| > 1 { FirstRoundFull(hasher, c, e, trace); }
    k :| Stores(hasher, c, trace[0], k, d, lost);
    var loc := Locations(hasher, |c.table|, e)[k];
    assert d.table[loc] == e;
  }

  lemma FirstRoundFull(hasher: Hasher, c: Contents, e: Element, trace: seq<Round>)
    requires c.Shaped() && Rounds(hasher, c, e, trace) && |trace| > 1
    ensures !HasRoom(hasher, c, e)
  {
    assert RoundAt(hasher, c, trace, 1);
  }

  // Collectable slots are not touched by the rounds.
  lemma {:induction false} RoundsSpare(hasher: Hasher, c: Contents, e: Element, trace: seq<Round>, i: nat, loc: nat)
    requires c.Shaped() && Rounds(hasher, c, e, trace) && i < |trace| && loc < |c.table| && c.collected[loc]
    ensures trace[i].table[loc] == c.table[loc]
  {
    hide Locations;
    if i > 0 {
      RoundsSpare(hasher, c, e, trace, i - 1, loc);
      var x := trace[i - 1];
      var locs := Locations(hasher, |c.table|, x.hand);
      var k := (1 + Find(locs, x.from)) % 8;
      assert RoundAt(hasher, c, trace, i);
      assert !Collectable(hasher, c, x.hand, k);
    }
  }

  // Unless the rounds run out, the element lost was up for collection.
  lemma LostCollectable(hasher: Hasher, limit: nat, c: Contents, e: Element, trace: seq<Round>, d: Contents,
                        lost: Element)
    requires c.Shaped() && Ends(hasher, limit, c, e, trace, d, lost)
    ensures |trace| == limit + 1 || exists loc :: 0 <= loc < |c.table| && c.collected[loc] && c.table[loc] == lost
  {
    hide Locations;
    if |trace| <= limit {
      var last := trace[|trace| - 1];
      var k: nat :| Stores(hasher, c, last, k, d, lost);
      var loc := Locations(hasher, |c.table|, last.hand)[k];
      assert Collectable(hasher, c, last.hand, k);
      RoundsSpare(hasher, c, e, trace, |trace| - 1, loc);
    }
  }

  // ---------------------------------------------------------------- elements keep their epoch

  datatype Aged = Aged(e: Element, epoch: bool)

  ghost function Ages(table: seq<Element>, flags: seq<bool>): seq<Aged>
    requires |table| == |flags|
  {
    seq(|table|, i requires 0 <= i < |table| => Aged(table[i], flags[i]))
  }

  lemma AgesUpdate(table: seq<Element>, flags: seq<bool>, loc: nat, e: Element, epoch: bool)
    requires |table| == |flags| && loc < |table|
    ensures multiset(Ages(table[loc := e], flags[loc := epoch])) + multiset{Aged(table[loc], flags[loc])} ==
            multiset(Ages(table, flags)) + multiset{Aged(e, epoch)}
  {
    var a := Ages(table, flags);
    assert Ages(table[loc := e], flags[loc := epoch]) == a[loc := Aged(e, epoch)];
    assert a == a[..loc] + [a[loc]] + a[loc + 1..];
    assert a[loc := Aged(e, epoch)] == a[..loc] + [Aged(e, epoch)] + a[loc + 1..];
  }

  // Every round keeps the elements with their epochs, counting the hand: the new element is of the current epoch, and a
  // displaced one keeps its own.
  lemma {:induction false} RoundsAges(hasher: Hasher, c: Contents, e: Element, trace: seq<Round>, i: nat)
    requires c.Shaped() && Rounds(hasher, c, e, trace) && i < |trace|
    ensures multiset(Ages(trace[i].table, trace[i].flags)) + multiset{Aged(trace[i].hand, trace[i].epoch)} ==
            multiset(Ages(c.table, c.epochFlags)) + multiset{Aged(e, true)}
  {
    hide Locations, Ages;
    if i > 0 {
      RoundsAges(hasher, c, e, trace, i - 1);
      var x := trace[i - 1];
      var locs := Locations(hasher, |c.table|, x.hand);
      assert RoundAt(hasher, c, trace, i);
      AgesUpdate(x.table, x.flags, locs[(1 + Find(locs, x.from)) % 8], x.hand, x.epoch);
    }
  }

  // After an insertion the table has exactly one element with its epoch less, for the new one.
  lemma InsertedAges(hasher: Hasher, limit: nat, c: Contents, e: Element, trace: seq<Round>, d: Contents, lost: Element)
      returns (epoch: bool)
    requires c.Shaped() && Ends(hasher, limit, c, e, trace, d, lost)
    ensures |d.table| == |d.epochFlags|
    ensures multiset(Ages(d.table, d.epochFlags)) + multiset{Aged(lost, epoch)} ==
            multiset(Ages(c.table, c.epochFlags)) + multiset{Aged(e, true)}
  {
    hide Locations, Ages;
    var last := trace[|trace| - 1];
    RoundsAges(hasher, c, e, trace, |trace| - 1);
    if |trace| == limit + 1 {
      epoch := last.epoch;
    } else {
      var k: nat :| Stores(hasher, c, last, k, d, lost);
      var loc := Locations(hasher, |c.table|, last.hand)[k];
      AgesUpdate(last.table, last.flags, loc, last.hand, last.epoch);
      epoch := last.flags[loc];
    }
  }

  // ---------------------------------------------------------------- the cache

  // How far the current epoch may outgrow its size between two scans.
  function Slack(epochSize: nat): int { Max(1, epochSize / 16) }

  class Cache {
    const size: nat
    const epochSize: nat
    const depthLimit: nat
    const hasher: Hasher
    const table: array<Element>
    const collected: array<bool>
    const epochFlags: array<bool>
    var counter: nat

    ghost predicate Shape() {
      && 0 < size <= INVALID && epochSize >= 1
      && table.Length == collected.Length == epochFlags.Length == size
      && collected != epochFlags
    }

    // Elements are where their hashes put them, and the current epoch cannot outgrow its bound before the next scan.
    ghost predicate Valid()
      reads this, table, collected, epochFlags
    {
      && Shape()
      && Placed(hasher, table[..], collected[..])
      && LiveCount(epochFlags[..], collected[..]) + counter <= epochSize + Slack(epochSize)
    }

    ghost function Now(): Contents
      reads table, collected, epochFlags
    {
      Contents(table[..], epochFlags[..], collected[..])
    }

    // The k-th location of e is the first one that holds it.
    ghost predicate FoundAt(k: nat, e: Element)
      requires Shape() && k < 8
      reads table
    {
      var locs := Locations(hasher, size, e);
      table[locs[k]] == e && forall j :: 0 <= j < k ==> table[locs[j]] != e
    }

    // setup. The depth limit comes from a floating-point logarithm and is a parameter.
    constructor (newSize: nat, depthLimit: nat, hasher: Hasher, blank: Element)
      requires newSize <= INVALID
      ensures Valid() && fresh(table) && fresh(collected) && fresh(epochFlags)
      ensures size == Max(2, newSize) && epochSize == Max(1, (45 * size) % TWO_32 / 100)
      ensures this.depthLimit == depthLimit && this.hasher == hasher
      ensures forall i :: 0 <= i < size ==> collected[i]
    {
      var n := Max(2, newSize);
      size := n;
      this.depthLimit := depthLimit;
      this.hasher := hasher;
      table := new Element[n](_ => blank);
      collected := new bool[n](_ => true);
      epochFlags := new bool[n](_ => false);
      epochSize := Max(1, (45 * n) % TWO_32 / 100);
      counter := Max(1, (45 * n) % TWO_32 / 100);
      new;
      LiveNone(epochFlags[..], collected[..]);
    }

    method Contains(e: Element, erase: bool) returns (found: bool)
      requires Valid()
      modifies collected
      ensures found <==> Reported(hasher, table[..], e)
      ensures Valid() && LiveCount(epochFlags[..], collected[..]) <= LiveCount(epochFlags[..], old(collected[..]))
      ensures !erase || !found ==> collected[..] == old(collected[..])
      ensures erase && found ==>
        exists k :: 0 <= k < 8 && FoundAt(k, e) && collected[..] == old(collected[..])[Locations(hasher, size,
            e)[k] := true]
    {
      hide LiveCount, Locations;
      var locs := Locations(hasher, size, e);
      for i := 0 to 8
        invariant collected[..] == old(collected[..])
        invariant forall j :: 0 <= j < i ==> table[locs[j]] != e
      {
        var loc := locs[i];
        if table[loc] == e {
          if erase {
            LiveUpdate(epochFlags[..], collected[..], loc, epochFlags[loc], true);
            assert epochFlags[..][loc := epochFlags[loc]] == epochFlags[..];
            collected[loc] := true;
            assert collected[..] == old(collected[..])[loc := true];
          }
          assert FoundAt(i, e);
          assert table[..][loc] == e;
          return true;
        }
      }
      return false;
    }

    // The scan of epoch_check: the live entries of the current epoch.
    method CountLive() returns (n: nat)
      requires Shape()
      ensures n == LiveCount(epochFlags[..], collected[..])
    {
      n := 0;
      for i := 0 to size
        invariant n == LiveCount(epochFlags[..i], collected[..i])
      {
        LivePrefix(epochFlags[..], collected[..], i);
        assert epochFlags[..][..i] == epochFlags[..i] && collected[..][..i] == collected[..i];
        assert epochFlags[..][..i + 1] == epochFlags[..i + 1] && collected[..][..i + 1] == collected[..i + 1];
        if epochFlags[i] && !collected[i] { n := n + 1; }
      }
      assert epochFlags[..size] == epochFlags[..] && collected[..size] == collected[..];
    }

    // Demote the current epoch and mark the one before it for collection.
    method Age()
      requires Shape()
      modifies collected, epochFlags
      ensures forall i :: 0 <= i < size ==> !epochFlags[i] && collected[i] == (old(collected[i]) || !old(epochFlags[i]))
    {
      for i := 0 to size
        invariant forall j :: 0 <= j < i ==>
            !epochFlags[j] && collected[j] == (old(collected[j]) || !old(epochFlags[j]))
        invariant forall j :: i <= j < size ==> epochFlags[j] == old(epochFlags[j]) && collected[j] == old(collected[j])
      {
        if epochFlags[i] { epochFlags[i] := false; } else { collected[i] := true; }
      }
    }

    // epoch_check: afterwards there is room for one more live entry. The epoch ages exactly when the counter has run
    // out and the scan finds a full epoch.
    method EpochCheck()
      requires Valid()
      modifies this, collected, epochFlags
      ensures old(counter) != 0 || LiveCount(old(epochFlags[..]), old(collected[..])) < epochSize ==>
        collected[..] == old(collected[..]) && epochFlags[..] == old(epochFlags[..])
      ensures old(counter) == 0 && LiveCount(old(epochFlags[..]), old(collected[..])) >= epochSize ==>
        forall i :: 0 <= i < size ==> !epochFlags[i] && collected[i] == (old(collected[i]) || !old(epochFlags[i]))
      ensures Shape() && Placed(hasher, table[..], collected[..])
      ensures LiveCount(epochFlags[..], collected[..]) + 1 + counter <= epochSize + Slack(epochSize)
      ensures var live := LiveCount(old(epochFlags[..]), old(collected[..]));
              counter == if old(counter) != 0 then old(counter) - 1
                         else if live >= epochSize then epochSize
                         else Max(epochSize - live, Slack(epochSize))
      ensures Now() == Checked(old(Now()), old(counter), epochSize)
    {
      hide LiveCount, Locations;
      if counter != 0 {
        counter := counter - 1;
        return;
      }
      var unused := CountLive();
      if unused >= epochSize {
        Age();
        assert collected[..] == Demoted(old(Now())).collected && epochFlags[..] == Demoted(old(Now())).epochFlags;
        LiveNone(epochFlags[..], collected[..]);
        counter := epochSize;
      } else {
        counter := Max(1, Max(epochSize / 16, epochSize - unused));
      }
    }

    // please_keep a slot, with an epoch.
    method Keep(loc: nat, epoch: bool)
      requires Shape() && loc < size
      requires Placed(hasher, table[..], collected[..]) && loc in Locations(hasher, size, table[loc])
      modifies collected, epochFlags
      ensures Placed(hasher, table[..], collected[..])
      ensures collected[..] == old(collected[..])[loc := false] && epochFlags[..] == old(epochFlags[..])[loc := epoch]
      ensures LiveCount(epochFlags[..], collected[..]) + One(old(epochFlags[loc] && !collected[loc])) ==
              LiveCount(old(epochFlags[..]), old(collected[..])) + One(epoch)
    {
      hide LiveCount, Locations;
      LiveUpdate(epochFlags[..], collected[..], loc, epoch, false);
      collected[loc] := false;
      epochFlags[loc] := epoch;
      assert collected[..] == old(collected[..])[loc := false];
      assert epochFlags[..] == old(epochFlags[..])[loc := epoch];
    }

    // The first of the locations that is marked for collection, or 8.
    method FindCollected(locs: seq<nat>) returns (k: nat)
      requires Shape() && |locs| == 8 && forall i :: 0 <= i < 8 ==> locs[i] < size
      ensures k <= 8 && (k < 8 ==> collected[locs[k]]) && forall i :: 0 <= i < k ==> !collected[locs[i]]
    {
      k := 0;
      while k < 8 && !collected[locs[k]]
        invariant k <= 8 && forall i :: 0 <= i < k ==> !collected[locs[i]]
      {
        k := k + 1;
      }
    }

    // The displacement loop of insert.
    method Displacements(e: Element) returns (ghost lost: Element, ghost trace: seq<Round>)
      requires Shape() && Placed(hasher, table[..], collected[..])
      modifies table, collected, epochFlags
      ensures Placed(hasher, table[..], collected[..])
      ensures LiveCount(epochFlags[..], collected[..]) <= LiveCount(old(epochFlags[..]), old(collected[..])) + 1
      ensures Carrying(hasher, old(table[..]), e, table[..], lost)
      ensures Ends(hasher, depthLimit, old(Now()), e, trace, Now(), lost)
    {
      hide LiveCount, Locations, Carrying, Swaps, HasRoom, Placed, FirstRoom;
      ghost var before := table[..];
      ghost var c := Now();
      ghost var live := LiveCount(epochFlags[..], collected[..]);
      CarryNothing(hasher, before, e);
      var hand, lastEpoch := e, true;
      var lastLoc: nat := INVALID;
      trace := [Round(table[..], epochFlags[..], e, true, INVALID)];
      for depth := 0 to depthLimit
        invariant Placed(hasher, table[..], collected[..]) && collected[..] == c.collected
        invariant LiveCount(epochFlags[..], collected[..]) + One(lastEpoch) <= live + 1
        invariant Carrying(hasher, before, e, table[..], hand)
        invariant Rounds(hasher, c, e, trace) && |trace| == depth + 1
        invariant trace[depth] == Round(table[..], epochFlags[..], hand, lastEpoch, lastLoc)
      {
        var locs := Locations(hasher, size, hand);
        var k := FindCollected(locs);
        if k < 8 {
          var loc := locs[k];
          lost := table[loc];
          Displace(hasher, before, e, table[..], hand, loc);
          FirstRoomAt(hasher, c, hand, k);
          Write(loc, hand);
          Keep(loc, lastEpoch);
          assert Stores(hasher, c, trace[depth], k, Now(), lost);
          return;
        }
        NoRoomAt(hasher, c, hand);
        lastLoc := locs[(1 + Find(locs, lastLoc)) % 8];
        Displace(hasher, before, e, table[..], hand, lastLoc);
        LiveUpdate(epochFlags[..], collected[..], lastLoc, lastEpoch, false);
        assert collected[..][lastLoc := false] == collected[..];
        var out, epoch := table[lastLoc], lastEpoch;
        Write(lastLoc, hand);
        hand := out;
        ghost var flags := epochFlags[..];
        lastEpoch := epochFlags[lastLoc];
        epochFlags[lastLoc] := epoch;
        assert epochFlags[..] == flags[lastLoc := epoch];
        SwapsAt(hasher, trace[depth], lastLoc);
        trace := RoundsNext(hasher, c, e, trace, Round(table[..], epochFlags[..], hand, lastEpoch, lastLoc));
      }
      lost := hand;
    }

    // Store an element at one of its locations.
    method Write(loc: nat, e: Element)
      requires Shape() && loc < size && Placed(hasher, table[..], collected[..]) && loc in Locations(hasher, size, e)
      modifies table
      ensures table[..] == old(table[..])[loc := e] && Placed(hasher, table[..], collected[..])
    {
      hide Locations;
      table[loc] := e;
      assert table[..] == old(table[..])[loc := e];
    }

    // e is at one of its locations, not up for collection and in the current epoch.
    ghost predicate Kept(e: Element)
      requires Shape()
      reads table, collected, epochFlags
    {
      exists i :: 0 <= i < 8 &&
        var loc := Locations(hasher, size, e)[i]; table[loc] == e && !collected[loc] && epochFlags[loc]
    }

    lemma KeptAt(e: Element, i: nat)
      requires Shape() && i < 8
      requires var loc := Locations(hasher, size, e)[i]; table[loc] == e && !collected[loc] && epochFlags[loc]
      ensures Kept(e)
    {
      hide Locations;
    }

    // Insert e, displacing at most depthLimit elements. `lost` is the one element the table loses, if e was not there.
    method Insert(e: Element) returns (ghost lost: Element, ghost trace: seq<Round>)
      requires Valid()
      modifies this, table, collected, epochFlags
      ensures Valid()
      ensures Reported(hasher, old(table[..]), e) ==>
        Kept(e) && Renewed(hasher, Checked(old(Now()), old(counter), epochSize), e, Now())
      ensures !Reported(hasher, old(table[..]), e) ==>
        && Carrying(hasher, old(table[..]), e, table[..], lost)
        && Ends(hasher, depthLimit, Checked(old(Now()), old(counter), epochSize), e, trace, Now(), lost)
      ensures depthLimit >= 1 && HasRoom(hasher, Checked(old(Now()), old(counter), epochSize), e) ==> Kept(e)
    {
      hide LiveCount, Locations, Carrying, Placed, Ends, HasRoom, Checked;
      lost, trace := e, [];
      EpochCheck();
      ghost var c := Now();
      ghost var before := table[..];
      assert before == old(table[..]);
      var locs := Locations(hasher, size, e);
      for i := 0 to 8
        invariant table[..] == before && Now() == c
        invariant forall j :: 0 <= j < i ==> table[locs[j]] != e
      {
        if table[locs[i]] == e {
          assert before[locs[i]] == e;
          Keep(locs[i], true);
          assert Kept(e) by { KeptAt(e, i); }
          assert RenewedAt(hasher, c, e, Now(), i);
          return;
        }
      }
      NotReported(hasher, before, e);
      lost, trace := Displacements(e);
      if depthLimit >= 1 && HasRoom(hasher, c, e) {
        ghost var k := RoomStores(hasher, depthLimit, c, e, trace, Now(), lost);
        StoredKept(this, c, e, k);
      }
    }
  }

  lemma StoredKept(cache: Cache, c: Contents, e: Element, k: nat)
    requires cache.Shape() && c.Shaped() && |c.table| == cache.size && k < 8
    requires var loc := Locations(cache.hasher, cache.size, e)[k];
             cache.Now() == Contents(c.table[loc := e], c.epochFlags[loc := true], c.collected[loc := false])
    ensures cache.Kept(e)
  {
    hide Locations;
    var loc := Locations(cache.hasher, cache.size, e)[k];
    assert cache.table[loc] == cache.Now().table[loc] && cache.collected[loc] == cache.Now().collected[loc]
           && cache.epochFlags[loc] == cache.Now().epochFlags[loc];
    cache.KeptAt(e, k);
  }

  datatype Op = InsertOp(e: Element) | ContainsOp(e: Element, erase: bool)

  ghost predicate WithinBound(c: Contents, epochSize: nat) {
    |c.epochFlags| == |c.collected| && LiveCount(c.epochFlags, c.collected) <= epochSize + Slack(epochSize)
  }

  // What one call answers, and how it changes the table.
  ghost predicate Performs(hasher: Hasher, limit: nat, c: Contents, op: Op, answer: bool, d: Contents) {
    && c.Shaped() && d.Shaped()
    && match op
       case ContainsOp(e, erase) =>
         && answer == Reported(hasher, c.table, e)
         && if erase && answer then exists k: nat :: ErasedAt(hasher, c, e, d, k) else d == c
       case InsertOp(e) => answer && (Inserts(hasher, limit, c, e, d) || Inserts(hasher, limit, Demoted(c), e, d))
  }

  // The first location that holds e is marked for collection.
  ghost predicate ErasedAt(hasher: Hasher, c: Contents, e: Element, d: Contents, k: nat)
    requires c.Shaped()
  {
    && k < 8
    && var locs := Locations(hasher, |c.table|, e);
       && c.table[locs[k]] == e && (forall j :: 0 <= j < k ==> c.table[locs[j]] != e)
       && d == c.(collected := c.collected[locs[k] := true])
  }

  // An insertion once the epoch has been checked.
  ghost predicate Inserts(hasher: Hasher, limit: nat, c: Contents, e: Element, d: Contents)
    requires c.Shaped()
  {
    if Reported(hasher, c.table, e) then Renewed(hasher, c, e, d)
    else exists trace, lost :: Ends(hasher, limit, c, e, trace, d, lost)
  }

  // An element for which the table has room is there after its insertion, and the next query says so.
  lemma InsertThenContains(hasher: Hasher, limit: nat, c: Contents, e: Element, a: bool, d: Contents, erase: bool,
      answer: bool, d2: Contents)
    requires limit >= 1 && c.Shaped() && HasRoom(hasher, c, e)
    requires Performs(hasher, limit, c, InsertOp(e), a, d)
    requires Performs(hasher, limit, d, ContainsOp(e, erase), answer, d2)
    ensures answer
  {
    hide Locations, Ends, HasRoom, Renewed, Reported;
    DemotedRoom(hasher, c, e);
    if Inserts(hasher, limit, c, e, d) {
      InsertsStores(hasher, limit, c, e, d);
    } else {
      InsertsStores(hasher, limit, Demoted(c), e, d);
    }
  }

  lemma DemotedRoom(hasher: Hasher, c: Contents, e: Element)
    requires c.Shaped() && HasRoom(hasher, c, e)
    ensures HasRoom(hasher, Demoted(c), e)
  {
    hide Locations;
    var k: nat :| k < 8 && Collectable(hasher, c, e, k);
    assert Collectable(hasher, Demoted(c), e, k);
  }

  lemma InsertsStores(hasher: Hasher, limit: nat, c: Contents, e: Element, d: Contents)
    requires limit >= 1 && c.Shaped() && HasRoom(hasher, c, e) && Inserts(hasher, limit, c, e, d)
    ensures Reported(hasher, d.table, e)
  {
    hide Locations, Ends, HasRoom;
    if Reported(hasher, c.table, e) {
      assert d.table == c.table by {
        var k: nat :| RenewedAt(hasher, c, e, d, k);
      }
    } else {
      var trace, lost :| Ends(hasher, limit, c, e, trace, d, lost);
      var k := RoomStores(hasher, limit, c, e, trace, d, lost);
    }
  }

  // Every run after setup: each call answers and changes the table as stated, and the live entries of the current epoch
  // are always within their bound, although epoch_check scans only when its counter reaches zero.
  method Run(newSize: nat, depthLimit: nat, hasher: Hasher, blank: Element, ops: seq<Op>)
      returns (answers: seq<bool>, ghost trace: seq<Contents>)
    requires newSize <= INVALID
    ensures |answers| == |ops| && |trace| == |ops| + 1
    ensures forall k :: k in trace[0].collected ==> k
    ensures forall i :: 0 <= i < |ops| ==> Performs(hasher, depthLimit, trace[i], ops[i], answers[i], trace[i + 1])
    ensures forall i :: 0 <= i <= |ops| ==> WithinBound(trace[i], Max(1, (45 * Max(2, newSize)) % TWO_32 / 100))
  {
    hide LiveCount, Locations, Carrying, Placed, Reported, Slack, Performs, WithinBound;
    var cache := new Cache(newSize, depthLimit, hasher, blank);
    answers, trace := [], [cache.Now()];
    BoundFromValid(cache);
    for i := 0 to |ops|
      invariant |answers| == i && |trace| == i + 1 && cache.Valid() && trace[i] == cache.Now()
      invariant fresh(cache) && fresh(cache.table) && fresh(cache.collected) && fresh(cache.epochFlags)
      invariant cache.hasher == hasher && cache.depthLimit == depthLimit
      invariant cache.epochSize == Max(1, (45 * Max(2, newSize)) % TWO_32 / 100)
      invariant forall k :: k in trace[0].collected ==> k
      invariant forall j :: 0 <= j < i ==> Performs(hasher, depthLimit, trace[j], ops[j], answers[j], trace[j + 1])
      invariant forall j :: 0 <= j <= i ==> WithinBound(trace[j], cache.epochSize)
    {
      var answer := Perform(cache, ops[i]);
      BoundFromValid(cache);
      answers := answers + [answer];
      trace := trace + [cache.Now()];
    }
  }

  lemma BoundFromValid(cache: Cache)
    requires cache.Valid()
    ensures WithinBound(cache.Now(), cache.epochSize)
  {
    hide LiveCount, Placed;
  }

  lemma DemotedTable(c: Contents)
    requires c.Shaped()
    ensures Demoted(c).table == c.table && Demoted(c).Shaped()
  {}

  method Perform(cache: Cache, op: Op) returns (answer: bool)
    requires cache.Valid()
    modifies cache, cache.table, cache.collected, cache.epochFlags
    ensures cache.Valid() && Performs(cache.hasher, cache.depthLimit, old(cache.Now()), op, answer, cache.Now())
  {
    hide LiveCount, Locations, Carrying, Placed, Reported, Slack, Ends, Renewed, HasRoom, Demoted;
    ghost var c := cache.Now();
    match op {
      case InsertOp(e) =>
        ghost var lost, trace := cache.Insert(e);
        assert Demoted(c).table == c.table by { DemotedTable(c); }
        answer := true;
      case ContainsOp(e, erase) =>
        answer := cache.Contains(e, erase);
        if erase && answer {
          ghost var k: nat :| k < 8 && cache.FoundAt(k, e)
            && cache.collected[..] == c.collected[Locations(cache.hasher, cache.size, e)[k] := true];
          assert ErasedAt(cache.hasher, c, e, cache.Now(), k);
        }
    }
  }
}
