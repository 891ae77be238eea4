/**
  Any run over a stack of coin caches answers as plain maps do: one map per cache and one for
  the database.
 */
module CoinsStack {
  import opened CoinsLayer
  import opened Options
  import opened CoinsCache

  // Level 0 is the tip of the stack. Coins are added and spent at the tip; reads, Uncache and Flush go to any level.
  datatype Op =
    | Read(level: nat, o: OutPoint)
    | Add(o: OutPoint, coin: Coin, possibleOverwrite: bool)
    | Spend(o: OutPoint)
    | Uncache(level: nat, o: OutPoint)
    | Flush(level: nat)
    | Push
    | Pop

  // The plain maps: maps[i] for level i, the last one for the database.
  type Maps = seq<Coins>

  predicate Legal(maps: Maps, op: Op) {
    && |maps| >= 2
    && match op
       case Read(level, _) => level + 1 < |maps|
       case Add(o, coin, possibleOverwrite) => !coin.IsSpent() && (possibleOverwrite || o !in maps[0])
       case Spend(_) => true
       case Uncache(level, _) => level + 1 < |maps|
       case Flush(level) => level + 1 < |maps|
       case Push => true
       case Pop => |maps| >= 3
  }

  function Apply(maps: Maps, op: Op): Maps
    requires Legal(maps, op)
  {
    match op
    case Read(_, _) => maps
    case Add(o, coin, _) => if IsUnspendable(coin.scriptPubKey) then maps else maps[0 := maps[0][o := coin]]
    case Spend(o) => maps[0 := maps[0] - {o}]
    case Uncache(_, _) => maps
    case Flush(level) => maps[level + 1 := maps[level]]
    case Push => [maps[0]] + maps
    case Pop => maps[1..]
  }

  // What a read shows, and what a spend hands out.
  function Answer(maps: Maps, op: Op): Option<Coin>
    requires Legal(maps, op)
  {
    match op
    case Read(level, o) => Get(maps[level], o)
    case Spend(o) => Get(maps[0], o)
    case _ => None
  }

  predicate LegalRun(maps: Maps, ops: seq<Op>)
    decreases |ops|
  {
    ops == [] || (Legal(maps, ops[0]) && LegalRun(Apply(maps, ops[0]), ops[1..]))
  }

  function Answers(maps: Maps, ops: seq<Op>): seq<Option<Coin>>
    requires LegalRun(maps, ops)
    decreases |ops|
  {
    if ops == [] then [] else [Answer(maps, ops[0])] + Answers(Apply(maps, ops[0]), ops[1..])
  }

  // The caches of tip, level by level, show the maps, and all their flags are right.
  ghost predicate Shows(tip: CoinsViewCache, maps: Maps)
    reads tip.chain, tip.db
  {
    tip.Ok() && maps == [tip.View()] + tip.BelowViews()
  }

  method ReadAt(c: CoinsViewCache, level: nat, o: OutPoint, ghost maps: Maps) returns (answer: Option<Coin>)
    requires Shows(c, maps) && level < |c.chain|
    modifies c.chain
    ensures Shows(c, maps) && answer == Get(maps[level], o)
    decreases level
  {
    hide Overlay, LayerOk, Usage;
    if level == 0 {
      var found, coin := c.GetCoin(o);
      answer := if found then Some(coin) else None;
    } else {
      answer := ReadAt(c.base, level - 1, o, maps[1..]);
    }
  }

  method UncacheAt(c: CoinsViewCache, level: nat, o: OutPoint, ghost maps: Maps)
    requires Shows(c, maps) && level < |c.chain|
    modifies c.chain
    ensures Shows(c, maps)
    decreases level
  {
    hide Overlay, LayerOk, Usage;
    if level == 0 {
      c.Uncache(o);
    } else {
      UncacheAt(c.base, level - 1, o, maps[1..]);
    }
  }

  method FlushAt(c: CoinsViewCache, level: nat, ghost maps: Maps)
    requires Shows(c, maps) && level < |c.chain|
    modifies c.chain, c.db
    ensures Shows(c, maps[level + 1 := maps[level]])
    decreases level
  {
    hide Overlay, LayerOk, Usage;
    if level == 0 {
      c.Flush();
    } else {
      FlushAt(c.base, level - 1, maps[1..]);
      ghost var below := maps[1..][level := maps[1..][level - 1]];
      assert below[0] == maps[1] && c.Below() == maps[1];
      assert c.BelowViews() == below;
      assert maps[level + 1 := maps[level]] == [maps[0]] + below;
    }
  }

  // One operation on the stack under `tip`; Push and Pop move the tip.
  method Perform(tip: CoinsViewCache, op: Op, ghost maps: Maps) returns (next: CoinsViewCache, answer: Option<Coin>)
    requires Shows(tip, maps) && Legal(maps, op)
    modifies tip.chain, tip.db
    ensures Shows(next, Apply(maps, op)) && answer == Answer(maps, op) && next.db == tip.db
    ensures fresh((set c | c in next.chain) - (set c | c in tip.chain))
  {
    hide Overlay, LayerOk, Usage;
    next, answer := tip, None;
    match op
    case Read(level, o) => answer := ReadAt(tip, level, o, maps);
    case Add(o, coin, possibleOverwrite) => var _ := tip.AddCoin(o, coin, possibleOverwrite);
    case Spend(o) =>
      var found, coin := tip.SpendCoin(o);
      answer := if found && !coin.IsSpent() then Some(coin) else None;
    case Uncache(level, o) => UncacheAt(tip, level, o, maps);
    case Flush(level) => FlushAt(tip, level, maps);
    case Push => next := new CoinsViewCache(tip, tip.db, tip.usage);
    case Pop => next := tip.base;
  }

  // Every run over a stack of caches gives exactly the answers of the plain maps.
  method Simulate(coins: Coins, usage: Script -> nat, ops: seq<Op>) returns (answers: seq<Option<Coin>>)
    requires usage([]) == 0
    requires LegalRun([Unspent(coins), Unspent(coins)], ops)
    ensures answers == Answers([Unspent(coins), Unspent(coins)], ops)
  {
    hide Overlay, LayerOk, Usage, Apply, Answer, Legal, CoinsViewCache.Ok;
    var db := new CoinsDatabase(coins);
    var tip := new CoinsViewCache(null, db, usage);
    ghost var maps := [Unspent(coins), Unspent(coins)];
    answers := [];
    var i := 0;
    while i < |ops|
      invariant 0 <= i <= |ops| && Shows(tip, maps) && LegalRun(maps, ops[i..])
      invariant fresh(tip.db) && fresh(set c | c in tip.chain)
      invariant Answers([Unspent(coins), Unspent(coins)], ops) == answers + Answers(maps, ops[i..])
    {
      assert ops[i..][1..] == ops[i + 1..];
      var answer;
      tip, answer := Perform(tip, ops[i], maps);
      answers := answers + [answer];
      maps := Apply(maps, ops[i]);
      i := i + 1;
    }
  }
}
