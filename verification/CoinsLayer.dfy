/**
  One layer of the UTXO cache as a value: what an entry's flags claim about the view below, and
  what each step does to the coin seen through the layer.
 */
module CoinsLayer {
  import opened Options

  const OP_RETURN := 0x6a
  const MAX_SCRIPT_SIZE := 10000

  type Script = seq<int>

  datatype OutPoint = OutPoint(hash: nat, n: nat)

  datatype Coin = Coin(nValue: int, scriptPubKey: Script, nHeight: nat, coinBase: bool) {
    predicate IsSpent() { nValue == -1 }
  }

  // The coin after Clear().
  const CLEARED := Coin(-1, [], 0, false)

  predicate IsUnspendable(s: Script) {
    (|s| > 0 && s[0] == OP_RETURN) || |s| > MAX_SCRIPT_SIZE
  }

  datatype Entry = Entry(coin: Coin, isDirty: bool, isFresh: bool)

  type Coins = map<OutPoint, Coin>
  type Layer = map<OutPoint, Entry>

  function Get<K, V>(m: map<K, V>, k: K): Option<V> {
    if k in m then Some(m[k]) else None
  }

  // The unspent coins of a database.
  function Unspent(db: Coins): Coins {
    map o | o in db && !db[o].IsSpent() :: db[o]
  }

  // The coin seen at one outpoint through an entry, over what is seen below it.
  function Seen(e: Option<Entry>, below: Option<Coin>): Option<Coin> {
    match e
    case None => below
    case Some(entry) => if entry.coin.IsSpent() then None else Some(entry.coin)
  }

  // The view through a layer: a plain map of unspent coins.
  function Overlay(layer: Layer, below: Coins): Coins {
    map o | o in layer.Keys + below.Keys && Seen(Get(layer, o), Get(below, o)).Some? ::
        Seen(Get(layer, o), Get(below, o)).value
  }

  lemma OverlayAt(layer: Layer, below: Coins, o: OutPoint)
    ensures Get(Overlay(layer, below), o) == Seen(Get(layer, o), Get(below, o))
  {}

  // What the flags of an entry promise: FRESH, that nothing is visible below; not DIRTY, that the entry shows what
  // is visible below.
  ghost predicate EntryOk(e: Entry, below: Option<Coin>) {
    && (e.isFresh ==> below == None)
    && (!e.isDirty ==> Seen(Some(e), below) == below)
  }

  ghost predicate LayerOk(layer: Layer, below: Coins) {
    forall o :: o in layer ==> EntryOk(layer[o], Get(below, o))
  }

  // Two maps are the same if they agree at every outpoint.
  lemma SameCoins(a: Coins, b: Coins)
    requires forall o :: Get(a, o) == Get(b, o)
    ensures a == b
  {
    forall o ensures o in a <==> o in b { assert Get(a, o) == Get(b, o); }
    forall o | o in a ensures a[o] == b[o] { assert Get(a, o) == Get(b, o); }
  }

  ghost predicate NoneSpent(coins: Coins) {
    forall o :: o in coins ==> !coins[o].IsSpent()
  }

  lemma OverlayNoneSpent(layer: Layer, below: Coins)
    requires NoneSpent(below)
    ensures NoneSpent(Overlay(layer, below))
  {}

  function SetEntry(layer: Layer, o: OutPoint, e: Option<Entry>): Layer {
    if e.Some? then layer[o := e.value] else layer - {o}
  }

  function SetCoin(coins: Coins, o: OutPoint, c: Option<Coin>): Coins {
    if c.Some? then coins[o := c.value] else coins - {o}
  }

  // Changing one entry changes the view at that outpoint only, and keeps the layer right if the new entry is.
  lemma SetEntryView(layer: Layer, below: Coins, o: OutPoint, e: Option<Entry>)
    ensures Overlay(SetEntry(layer, o, e), below) == SetCoin(Overlay(layer, below), o, Seen(e, Get(below, o)))
    ensures LayerOk(layer, below) && (e.Some? ==> EntryOk(e.value, Get(below, o))) ==>
        LayerOk(SetEntry(layer, o, e), below)
  {
    var a, b := Overlay(SetEntry(layer, o, e), below), SetCoin(Overlay(layer, below), o, Seen(e, Get(below, o)));
    forall x ensures Get(a, x) == Get(b, x) {
      OverlayAt(SetEntry(layer, o, e), below, x);
      OverlayAt(layer, below, x);
    }
    SameCoins(a, b);
  }

  // Setting a coin to what it was changes nothing.
  lemma SetCoinSame(coins: Coins, o: OutPoint)
    ensures SetCoin(coins, o, Get(coins, o)) == coins
  {}

  // ---------------------------------------------------------------- the steps on one entry

  // FetchCoin on a miss, when the view below returned a coin.
  function Fetched(coin: Coin): Entry {
    Entry(coin, false, coin.IsSpent())
  }

  // A fetched entry shows what is below, and may be FRESH when the coin was spent.
  lemma FetchedOk(coin: Coin, below: Option<Coin>)
    requires below == if coin.IsSpent() then None else Some(coin)
    ensures EntryOk(Fetched(coin), below) && Seen(Some(Fetched(coin)), below) == below
  {}

  // AddCoin at an entry, which is the default one if there was none.
  function Added(e: Entry, coin: Coin, possibleOverwrite: bool): Entry {
    Entry(coin, true, e.isFresh || (!possibleOverwrite && !e.isDirty))
  }

  const DEFAULT_ENTRY := Entry(CLEARED, false, false)

  // SpendCoin at a fetched entry.
  function SpentEntry(e: Entry): Option<Entry> {
    if e.isFresh then None else Some(Entry(CLEARED, true, false))
  }

  // BatchWrite of a dirty child entry c over the parent's entry.
  function Merged(parent: Option<Entry>, c: Entry): Option<Entry> {
    match parent
    case None => if c.isFresh && c.coin.IsSpent() then None else Some(Entry(c.coin, true, c.isFresh))
    case Some(us) => if us.isFresh && c.coin.IsSpent() then None else Some(us.(coin := c.coin, isDirty := true))
  }

  predicate CachedUnspent(layer: Layer, o: OutPoint) { o in layer && !layer[o].coin.IsSpent() }

  predicate CachedDirty(layer: Layer, o: OutPoint) { o in layer && layer[o].isDirty }

  // The entry AddCoin writes shows the coin. Its flags are right exactly when an overwrite was announced, nothing is
  // visible below, or the entry was dirty before; so they are right when nothing was visible.
  lemma AddedEntry(e: Option<Entry>, below: Option<Coin>, coin: Coin, possibleOverwrite: bool)
    requires !coin.IsSpent() && (e.Some? ==> EntryOk(e.value, below))
    ensures var entry := if e.Some? then e.value else DEFAULT_ENTRY;
            var r := Added(entry, coin, possibleOverwrite);
            && Seen(Some(r), below) == Some(coin)
            && (EntryOk(r, below) <==> possibleOverwrite || below == None || entry.isDirty)
            && (Seen(e, below) == None ==> entry.coin.IsSpent() && (below == None || entry.isDirty))
  {}

  // One entry that is wrong makes the layer wrong.
  lemma LayerOkNow(layer: Layer, below: Coins, o: OutPoint)
    requires o in layer
    ensures LayerOk(layer, below) ==> EntryOk(layer[o], Get(below, o))
  {}

  // Spending through an entry hides the coin: a FRESH entry can be forgotten because nothing is visible below.
  lemma SpentOk(e: Entry, below: Option<Coin>)
    requires EntryOk(e, below)
    ensures Seen(SpentEntry(e), below) == None
    ensures SpentEntry(e).Some? ==> EntryOk(SpentEntry(e).value, below)
  {}

  // Writing a dirty child entry into its parent shows in the parent what the child showed, keeps the parent's promises
  // to the grandparent, and never meets a FRESH child over an unspent parent entry.
  lemma MergedOk(parent: Option<Entry>, below: Option<Coin>, c: Entry)
    requires parent.Some? ==> EntryOk(parent.value, below)
    requires EntryOk(c, Seen(parent, below)) && c.isDirty
    ensures Seen(Merged(parent, c), below) == Seen(Some(c), Seen(parent, below))
    ensures Merged(parent, c).Some? ==> EntryOk(Merged(parent, c).value, below)
    ensures parent.Some? && c.isFresh ==> parent.value.coin.IsSpent()
  {}

  // A coin that the layers below have not seen leaves no trace once it is spent: not when it is spent where it was
  // added, nor when the FRESH entry was first written to the parent, nor when its spending reaches a FRESH parent
  // entry.
  lemma NoTrace(e: Entry, c: Entry, coin: Coin)
    requires !e.isDirty && c.isFresh && !c.coin.IsSpent()
    ensures SpentEntry(Added(e, coin, false)) == None
    ensures Merged(None, c).Some? && SpentEntry(Merged(None, c).value) == None
    ensures Merged(Some(c), Entry(CLEARED, true, false)) == None && Merged(None, Entry(CLEARED, true, true)) == None
  {}

  // An entry with no flag set can be dropped without changing the view.
  lemma UncachedOk(e: Entry, below: Option<Coin>)
    requires EntryOk(e, below) && !e.isDirty && !e.isFresh
    ensures Seen(None, below) == Seen(Some(e), below)
  {}

  // ---------------------------------------------------------------- memory accounting

  // The memory held by the scripts of a layer; usage gives a script's.
  ghost function Usage(layer: Layer, usage: Script -> nat): nat
    decreases |layer|
  {
    if layer == map[] then 0 else
    var o :| o in layer;
    assert |layer - {o}| < |layer| by { Shrinks(layer, o); }
    usage(layer[o].coin.scriptPubKey) + Usage(layer - {o}, usage)
  }

  lemma Shrinks(layer: Layer, o: OutPoint)
    requires o in layer
    ensures |layer - {o}| == |layer| - 1
  {
    assert (layer - {o}).Keys == layer.Keys - {o};
  }

  // Usage does not depend on the order of counting.
  lemma {:induction false} UsageRemove(layer: Layer, usage: Script -> nat, x: OutPoint)
    requires x in layer
    ensures Usage(layer, usage) == usage(layer[x].coin.scriptPubKey) + Usage(layer - {x}, usage)
    decreases |layer|
  {
    var o :| o in layer && Usage(layer, usage) == usage(layer[o].coin.scriptPubKey) + Usage(layer - {o}, usage);
    Shrinks(layer, o);
    Shrinks(layer, x);
    if o != x {
      UsageRemove(layer - {o}, usage, x);
      UsageRemove(layer - {x}, usage, o);
      assert layer - {o} - {x} == layer - {x} - {o};
    }
  }

  lemma UsageSet(layer: Layer, usage: Script -> nat, x: OutPoint, e: Entry)
    ensures Usage(layer[x := e], usage) ==
            Usage(layer, usage) + usage(e.coin.scriptPubKey) - if x in layer then usage(layer[x].coin.scriptPubKey)
                else 0
  {
    UsageRemove(layer[x := e], usage, x);
    assert layer[x := e] - {x} == layer - {x};
    if x in layer {
      UsageRemove(layer, usage, x);
    } else {
      assert layer - {x} == layer;
    }
  }
}
