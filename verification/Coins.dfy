/**
  The UTXO cache: a chain of write-back caches over a database. Reads fill the caches they pass,
  so even they change state; what they never change is the view.
 */
module CoinsCache {
  import opened CoinsLayer
  import opened Options

  class CoinsDatabase {
    var coins: Coins

    constructor (coins: Coins)
      ensures this.coins == coins
    {
      this.coins := coins;
    }

    // Unlike a cache, the database may return true with a spent coin.
    method GetCoin(o: OutPoint) returns (found: bool, coin: Coin)
      ensures found <==> o in coins
      ensures found ==> coin == coins[o]
    {
      if o in coins { return true, coins[o]; }
      return false, CLEARED;
    }

    // Write the dirty entries, erasing spent coins.
    method BatchWrite(child: Layer)
      requires LayerOk(child, Unspent(coins))
      modifies this
      ensures Unspent(coins) == Overlay(child, Unspent(old(coins)))
    {
      ghost var before := coins;
      var rest := child.Keys;
      while rest != {}
        invariant rest <= child.Keys
        invariant forall o :: Get(Unspent(coins), o) ==
                              if o in child && o !in rest then Seen(Some(child[o]), Get(Unspent(before), o))
                                  else Get(Unspent(before), o)
        decreases |rest|
      {
        var o :| o in rest;
        if child[o].isDirty {
          coins := if child[o].coin.IsSpent() then coins - {o} else coins[o := child[o].coin];
        }
        rest := rest - {o};
      }
      forall o ensures Get(Unspent(coins), o) == Get(Overlay(child, Unspent(before)), o) {
        OverlayAt(child, Unspent(before), o);
      }
      SameCoins(Unspent(coins), Overlay(child, Unspent(before)));
    }
  }

  class CoinsViewCache {
    const base: CoinsViewCache?   // null when the database is the base
    const db: CoinsDatabase
    const usage: Script -> nat
    ghost const chain: seq<CoinsViewCache>   // this cache and those below it
    var cacheCoins: Layer
    var cachedCoinsUsage: int

    ghost predicate Linked()
      decreases |chain|
    {
      && chain != [] && chain[0] == this
      && (base == null ==> |chain| == 1)
      && (base != null ==> base.chain == chain[1..] && this !in chain[1..] && base.db == db && base.Linked())
    }

    // The coins visible through the base.
    ghost function Below(): (v: Coins)
      requires Linked()
      reads chain, db
      ensures NoneSpent(v)
      decreases |chain|, 0
    {
      if base == null then Unspent(db.coins) else base.View()
    }

    // The coins visible through this cache.
    ghost function View(): (v: Coins)
      requires Linked()
      reads chain, db
      ensures NoneSpent(v)
      decreases |chain|, 1
    {
      OverlayNoneSpent(cacheCoins, Below());
      Overlay(cacheCoins, Below())
    }

    // The views of the bases, nearest first, ending with the database.
    ghost function BelowViews(): (vs: seq<Coins>)
      requires Linked()
      reads chain, db
      ensures |vs| == |chain| && vs[0] == Below()
      decreases |chain|, 2
    {
      if base == null then [Unspent(db.coins)] else [base.View()] + base.BelowViews()
    }

    // The flags of this cache and of every cache below it are right, and so is the memory accounting.
    ghost predicate Ok()
      reads chain, db
      decreases |chain|
    {
      && Linked()
      && LayerOk(cacheCoins, Below())
      && cachedCoinsUsage == Usage(cacheCoins, usage) && usage([]) == 0
      && (base != null ==> base.Ok())
    }

    constructor (base: CoinsViewCache?, db: CoinsDatabase, usage: Script -> nat)
      requires usage([]) == 0
      requires base != null ==> base.Ok() && base.db == db
      ensures Ok() && fresh(this) && this.base == base && this.db == db
      ensures chain == [this] + if base == null then [] else base.chain
      ensures View() == Below()
    {
      this.base := base;
      this.db := db;
      this.usage := usage;
      this.chain := [this] + if base == null then [] else base.chain;
      cacheCoins := map[];
      cachedCoinsUsage := 0;
      new;
      SameView();
    }

    lemma SameView()
      requires Linked() && cacheCoins == map[]
      ensures View() == Below()
    {
      forall o ensures Get(View(), o) == Get(Below(), o) { OverlayAt(cacheCoins, Below(), o); }
      SameCoins(View(), Below());
    }

    // GetCoin of the base, which for a cache may fill the base's own cache.
    method BaseGetCoin(o: OutPoint) returns (found: bool, coin: Coin)
      requires Ok()
      modifies chain[1..]
      ensures Ok() && BelowViews() == old(BelowViews())
      ensures found ==> Seen(Some(Fetched(coin)), None) == Get(Below(), o)
      ensures !found ==> o !in Below()
      decreases |chain|, 0
    {
      if base == null {
        found, coin := db.GetCoin(o);
      } else {
        found, coin := base.GetCoin(o);
      }
    }

    // FetchCoin: bring o into this cache if the base has it. Found means that this cache has an entry afterwards.
    method FetchCoin(o: OutPoint) returns (found: bool)
      requires Ok()
      modifies chain
      ensures Ok() && View() == old(View()) && BelowViews() == old(BelowViews())
      ensures found <==> o in cacheCoins
      ensures cacheCoins - {o} == old(cacheCoins) - {o} && (o in old(cacheCoins) ==> cacheCoins == old(cacheCoins))
      ensures o !in cacheCoins ==> o !in Below()
      decreases |chain|, 1
    {
      hide Overlay, Usage, LayerOk;
      OverlayAt(cacheCoins, Below(), o);
      if o in cacheCoins { return true; }
      var coin;
      found, coin := BaseGetCoin(o);
      if !found { return false; }
      FetchedOk(coin, Get(Below(), o));
      UsageSet(cacheCoins, usage, o, Fetched(coin));
      SetEntryView(cacheCoins, Below(), o, Some(Fetched(coin)));
      SetCoinSame(View(), o);
      cacheCoins := cacheCoins[o := Fetched(coin)];
      cachedCoinsUsage := cachedCoinsUsage + usage(coin.scriptPubKey);
    }

    method GetCoin(o: OutPoint) returns (found: bool, coin: Coin)
      requires Ok()
      modifies chain
      ensures Ok() && View() == old(View()) && BelowViews() == old(BelowViews())
      ensures found <==> o in View()
      ensures found ==> coin == View()[o]
      decreases |chain|, 2
    {
      hide Overlay, Usage, LayerOk;
      var cached := FetchCoin(o);
      OverlayAt(cacheCoins, Below(), o);
      if cached {
        return !cacheCoins[o].coin.IsSpent(), cacheCoins[o].coin;
      }
      return false, CLEARED;
    }

    method HaveCoin(o: OutPoint) returns (found: bool)
      requires Ok()
      modifies chain
      ensures Ok() && View() == old(View()) && BelowViews() == old(BelowViews())
      ensures found <==> o in View()
    {
      hide Overlay, Usage, LayerOk;
      var cached := FetchCoin(o);
      OverlayAt(cacheCoins, Below(), o);
      found := cached && !cacheCoins[o].coin.IsSpent();
    }

    // AccessCoin: the visible coin, or a spent one.
    method AccessCoin(o: OutPoint) returns (coin: Coin)
      requires Ok()
      modifies chain
      ensures Ok() && View() == old(View()) && BelowViews() == old(BelowViews())
      ensures if o in View() then coin == View()[o] else coin.IsSpent()
    {
      hide Overlay, Usage, LayerOk;
      var cached := FetchCoin(o);
      OverlayAt(cacheCoins, Below(), o);
      coin := if cached then cacheCoins[o].coin else CLEARED;
    }

    // Add an unspent coin. A caller that does not announce an overwrite knows that no unspent coin is visible there.
    // Otherwise the call throws when such a coin is cached, with the accounting already reduced; and when the coin is
    // only visible below, the new entry is marked FRESH although it is not.
    method AddCoin(o: OutPoint, coin: Coin, possibleOverwrite: bool) returns (thrown: bool)
      requires Ok() && !coin.IsSpent()
      modifies this
      ensures Linked() && BelowViews() == old(BelowViews())
      ensures possibleOverwrite || o !in old(View()) ==> !thrown && Ok()
      ensures thrown <==> !IsUnspendable(coin.scriptPubKey) && !possibleOverwrite && CachedUnspent(old(cacheCoins), o)
      ensures thrown ==> cacheCoins == old(cacheCoins) && View() == old(View())
      ensures thrown ==> cachedCoinsUsage == old(cachedCoinsUsage) - usage(cacheCoins[o].coin.scriptPubKey)
      ensures !thrown ==>
        View() == if IsUnspendable(coin.scriptPubKey) then old(View()) else old(View())[o := coin]
      ensures !thrown ==>
        (Ok() <==>
            IsUnspendable(coin.scriptPubKey) || possibleOverwrite || o !in Below() || CachedDirty(old(cacheCoins), o))
    {
      hide Overlay, Usage, LayerOk, EntryOk;
      thrown := false;
      OverlayAt(cacheCoins, Below(), o);
      if IsUnspendable(coin.scriptPubKey) { return; }
      LayerOkAt(cacheCoins, Below(), o);
      AddedEntry(Get(cacheCoins, o), Get(Below(), o), coin, possibleOverwrite);
      var inserted := o !in cacheCoins;
      var entry := if inserted then DEFAULT_ENTRY else cacheCoins[o];
      var isFresh := false;
      if !inserted {
        cachedCoinsUsage := cachedCoinsUsage - usage(entry.coin.scriptPubKey);
      }
      if !possibleOverwrite {
        if !entry.coin.IsSpent() { return true; }
        isFresh := !entry.isDirty;
      }
      var e := Entry(coin, true, entry.isFresh || isFresh);
      UsageSet(cacheCoins, usage, o, e);
      SetEntryView(cacheCoins, Below(), o, Some(e));
      cacheCoins := cacheCoins[o := e];
      cachedCoinsUsage := cachedCoinsUsage + usage(coin.scriptPubKey);
      LayerOkNow(cacheCoins, Below(), o);
    }

    // Spend the coin at o. Found also holds for a spent entry this cache keeps; then the coin moved out is spent.
    method SpendCoin(o: OutPoint) returns (found: bool, moved: Coin)
      requires Ok()
      modifies chain
      ensures Ok() && BelowViews() == old(BelowViews()) && View() == old(View()) - {o}
      ensures found && !moved.IsSpent() <==> o in old(View())
      ensures o in old(View()) ==> moved == old(View())[o]
    {
      hide Overlay, Usage, LayerOk, EntryOk;
      found := FetchCoin(o);
      moved := CLEARED;
      OverlayAt(cacheCoins, Below(), o);
      if !found { return; }
      LayerOkAt(cacheCoins, Below(), o);
      var e := cacheCoins[o];
      SpentOk(e, Get(Below(), o));
      SetEntryView(cacheCoins, Below(), o, SpentEntry(e));
      UsageRemove(cacheCoins, usage, o);
      UsageSet(cacheCoins, usage, o, e.(isDirty := true, coin := CLEARED));
      cachedCoinsUsage := cachedCoinsUsage - usage(e.coin.scriptPubKey);
      moved := e.coin;
      if e.isFresh {
        cacheCoins := cacheCoins - {o};
      } else {
        cacheCoins := cacheCoins[o := e.(isDirty := true, coin := CLEARED)];
      }
    }

    // Forget an entry without flags.
    method Uncache(o: OutPoint)
      requires Ok()
      modifies this
      ensures Ok() && BelowViews() == old(BelowViews()) && View() == old(View())
      ensures cacheCoins == if o in old(cacheCoins) && !old(cacheCoins)[o].isDirty && !old(cacheCoins)[o].isFresh
                            then old(cacheCoins) - {o} else old(cacheCoins)
    {
      hide Overlay, Usage, LayerOk, EntryOk;
      if o in cacheCoins && !cacheCoins[o].isDirty && !cacheCoins[o].isFresh {
        LayerOkAt(cacheCoins, Below(), o);
        OverlayAt(cacheCoins, Below(), o);
        UncachedOk(cacheCoins[o], Get(Below(), o));
        SetEntryView(cacheCoins, Below(), o, None);
        SetCoinSame(View(), o);
        UsageRemove(cacheCoins, usage, o);
        cachedCoinsUsage := cachedCoinsUsage - usage(cacheCoins[o].coin.scriptPubKey);
        cacheCoins := cacheCoins - {o};
      }
    }

    // One dirty entry of BatchWrite.
    method Merge(o: OutPoint, c: Entry)
      requires Ok() && c.isDirty && EntryOk(c, Get(View(), o))
      modifies this
      ensures Ok() && BelowViews() == old(BelowViews())
      ensures View() == SetCoin(old(View()), o, Seen(Some(c), Get(old(View()), o)))
    {
      hide Overlay, Usage, LayerOk, EntryOk;
      OverlayAt(cacheCoins, Below(), o);
      LayerOkAt(cacheCoins, Below(), o);
      MergedOk(Get(cacheCoins, o), Get(Below(), o), c);
      SetEntryView(cacheCoins, Below(), o, Merged(Get(cacheCoins, o), c));
      ghost var layer := cacheCoins;
      UsageMerged(cacheCoins, usage, o, c);
      if o !in cacheCoins {
        if !(c.isFresh && c.coin.IsSpent()) {
          cacheCoins := cacheCoins[o := Entry(c.coin, true, c.isFresh)];
          cachedCoinsUsage := cachedCoinsUsage + usage(c.coin.scriptPubKey);
        } else {
          assert cacheCoins == cacheCoins - {o};
        }
      } else {
        if c.isFresh && !cacheCoins[o].coin.IsSpent() { assert false; }
        cachedCoinsUsage := cachedCoinsUsage - usage(cacheCoins[o].coin.scriptPubKey);
        if cacheCoins[o].isFresh && c.coin.IsSpent() {
          cacheCoins := cacheCoins - {o};
        } else {
          cacheCoins := cacheCoins[o := cacheCoins[o].(coin := c.coin, isDirty := true)];
          cachedCoinsUsage := cachedCoinsUsage + usage(c.coin.scriptPubKey);
        }
      }
      assert cacheCoins == SetEntry(layer, o, Merged(Get(layer, o), c));
    }

    // Take over a child's dirty entries: this cache then shows what the child showed.
    method BatchWrite(child: Layer)
      requires Ok() && LayerOk(child, View())
      modifies this
      ensures Ok() && BelowViews() == old(BelowViews()) && View() == Overlay(child, old(View()))
    {
      hide Usage, EntryOk, LayerOk, Overlay;
      ghost var before := View();
      var rest := child.Keys;
      while rest != {}
        invariant Ok() && BelowViews() == old(BelowViews()) && rest <= child.Keys
        invariant forall o :: Get(View(), o) == if o in child && o !in rest then Seen(Some(child[o]), Get(before, o))
            else Get(before, o)
        decreases |rest|
      {
        var o :| o in rest;
        LayerOkAt(child, before, o);
        CleanShows(child[o], Get(before, o));
        if child[o].isDirty {
          Merge(o, child[o]);
        }
        rest := rest - {o};
      }
      forall o ensures Get(View(), o) == Get(Overlay(child, before), o) { OverlayAt(child, before, o); }
      SameCoins(View(), Overlay(child, before));
    }

    // Push everything to the base: the base then shows what this cache showed.
    method Flush()
      requires Ok()
      modifies chain, db
      ensures Ok() && View() == old(View()) && cacheCoins == map[]
      ensures BelowViews() == [old(View())] + old(BelowViews())[1..]
    {
      hide Usage, EntryOk, Overlay, LayerOk;
      if base == null {
        db.BatchWrite(cacheCoins);
      } else {
        base.BatchWrite(cacheCoins);
      }
      cacheCoins := map[];
      cachedCoinsUsage := 0;
      EmptyLayer(usage, Below());
      SameView();
    }
  }

  lemma EmptyLayer(usage: Script -> nat, below: Coins)
    ensures Usage(map[], usage) == 0 && LayerOk(map[], below)
  {}

  lemma LayerOkAt(layer: Layer, below: Coins, o: OutPoint)
    requires LayerOk(layer, below)
    ensures o in layer ==> EntryOk(layer[o], Get(below, o))
  {}

  lemma CleanShows(e: Entry, below: Option<Coin>)
    requires EntryOk(e, below)
    ensures !e.isDirty ==> Seen(Some(e), below) == below
  {}

  lemma UsageMerged(layer: Layer, usage: Script -> nat, o: OutPoint, c: Entry)
    ensures var m := Merged(Get(layer, o), c);
            Usage(SetEntry(layer, o, m), usage) ==
            Usage(layer, usage) + (if m.Some? then usage(c.coin.scriptPubKey) else 0)
                                - (if o in layer then usage(layer[o].coin.scriptPubKey) else 0)
  {
    var m := Merged(Get(layer, o), c);
    if m.Some? {
      UsageSet(layer, usage, o, m.value);
    } else if o in layer {
      UsageRemove(layer, usage, o);
    } else {
      assert layer - {o} == layer;
    }
  }
}
