/**
 The layered cache of unspent transaction outputs.  A cache stands on a view,
 which is the database or another cache, and holds entries flagged DIRTY and
 FRESH.  A stack of caches of any depth represents one plain map from outpoints
 to unspent coins, `Coins()`, and every operation acts on that map as the
 obvious map operation.
 */
module Coins {
  const OP_RETURN: nat := 0x6a
  const MAX_SCRIPT_SIZE := 10000

  type Script = seq<nat>

  datatype OutPoint = OutPoint(txid: nat, n: nat)

  datatype TxOut = TxOut(nValue: int, scriptPubKey: Script)

  datatype Coin = Coin(out: TxOut, fCoinBase: bool, nHeight: nat) {
    predicate IsSpent() {
      out.nValue == -1
    }

    predicate IsUnspendable() {
      (|out.scriptPubKey| > 0 && out.scriptPubKey[0] == OP_RETURN) || |out.scriptPubKey| > MAX_SCRIPT_SIZE
    }

    /** Heap memory of the script: up to 28 bytes are stored in place. */
    function DynamicMemoryUsage(): nat {
      if |out.scriptPubKey| <= 28 then 0 else (|out.scriptPubKey| + 31) / 16 * 16
    }
  }

  /** What `Coin()` and `Coin::Clear` produce. */
  const EmptyCoin := Coin(TxOut(-1, []), false, 0)

  datatype Tx = Tx(txid: nat, vin: seq<OutPoint>, vout: seq<TxOut>) {
    predicate IsCoinBase() {
      |vin| == 1 && vin[0] == OutPoint(0, 0xffff_ffff)
    }
  }

  /** A cached coin; `isDirty` and `isFresh` are the two flag bits. */
  datatype Entry = Entry(coin: Coin, isDirty: bool, isFresh: bool)

  type CoinMap = map<OutPoint, Coin>
  type Cache = map<OutPoint, Entry>

  // ------------------------------------------------------------ one layer, as values

  /** The map a cache represents on top of the map of its base. */
  ghost function Overlay(base: CoinMap, cache: Cache): CoinMap {
    map o | o in base.Keys + cache.Keys && (o in cache ==> !cache[o].coin.IsSpent()) ::
      if o in cache then cache[o].coin else base[o]
  }

  /** An entry that is not DIRTY agrees with the base, and a FRESH one is absent from it. */
  ghost predicate EntryOk(base: CoinMap, o: OutPoint, e: Entry) {
    && (e.isFresh ==> o !in base)
    && (!e.isDirty ==> if e.coin.IsSpent() then o !in base else o in base && base[o] == e.coin)
    && (e.coin.IsSpent() ==> e.coin == EmptyCoin)
  }

  ghost predicate LayerOk(base: CoinMap, cache: Cache) {
    forall o <- cache :: EntryOk(base, o, cache[o])
  }

  ghost predicate AllUnspent(coins: CoinMap) {
    forall o <- coins :: !coins[o].IsSpent()
  }

  /** The sum of the memory used by cached coins. */
  ghost function UsageSum(cache: Cache): nat
    decreases |cache|
  {
    if cache == map[] then 0 else
      var o := SomeKey(cache);
      cache[o].coin.DynamicMemoryUsage() + UsageSum(cache - {o})
  }

  ghost function SomeKey(cache: Cache): (o: OutPoint)
    requires cache != map[]
    ensures o in cache
  {
    var o :| o in cache; o
  }

  /** The sum does not depend on the order in which entries are taken. */
  lemma {:induction false} UsageWithout(cache: Cache, o: OutPoint)
    requires o in cache
    ensures UsageSum(cache) == cache[o].coin.DynamicMemoryUsage() + UsageSum(cache - {o})
    decreases |cache|
  {
    var p := SomeKey(cache);
    if p != o {
      UsageWithout(cache - {p}, o);
      assert cache - {p} - {o} == cache - {o} - {p};
      UsageWithout(cache - {o}, p);
    }
  }

  lemma UsageAfterPut(cache: Cache, o: OutPoint, e: Entry)
    ensures UsageSum(cache[o := e]) == UsageSum(cache - {o}) + e.coin.DynamicMemoryUsage()
    ensures o in cache ==> UsageSum(cache - {o}) == UsageSum(cache) - cache[o].coin.DynamicMemoryUsage()
    ensures o !in cache ==> UsageSum(cache - {o}) == UsageSum(cache)
  {
    UsageWithout(cache[o := e], o);
    assert cache[o := e] - {o} == cache - {o};
    if o in cache {
      UsageWithout(cache, o);
    } else {
      assert cache - {o} == cache;
    }
  }

  lemma EntryFacts(base: CoinMap, cache: Cache, o: OutPoint)
    requires LayerOk(base, cache)
    ensures o in cache ==> EntryOk(base, o, cache[o])
    ensures o in cache ==> (o in Overlay(base, cache) <==> !cache[o].coin.IsSpent())
    ensures o in cache && o in Overlay(base, cache) ==> Overlay(base, cache)[o] == cache[o].coin
    ensures o !in cache ==> (o in Overlay(base, cache) <==> o in base)
  {
  }

  lemma NoUsage()
    ensures UsageSum(map[]) == 0
  {
  }

  /** The effect of storing an entry on the represented map. */
  lemma OverlayPut(base: CoinMap, cache: Cache, o: OutPoint, e: Entry)
    ensures Overlay(base, cache[o := e]) == if e.coin.IsSpent() then Overlay(base, cache) - {o} else Overlay(base, cache)[o := e.coin]
  {
  }

  /** The effect of erasing an entry the base knows nothing about. */
  lemma OverlayDrop(base: CoinMap, cache: Cache, o: OutPoint)
    requires o !in base
    ensures Overlay(base, cache - {o}) == Overlay(base, cache) - {o}
  {
  }

  /** Caching what the base has changes nothing. */
  lemma FetchKeeps(base: CoinMap, cache: Cache, o: OutPoint)
    requires LayerOk(base, cache) && AllUnspent(base) && o !in cache && o in base
    ensures !base[o].IsSpent()
    ensures var cache' := cache[o := Entry(base[o], false, false)];
            LayerOk(base, cache') && Overlay(base, cache') == Overlay(base, cache)
  {
  }

  /** An entry with a new coin: insertion, whatever was there. */
  lemma PutKeeps(base: CoinMap, cache: Cache, o: OutPoint, coin: Coin, isFresh: bool)
    requires LayerOk(base, cache) && !coin.IsSpent() && (isFresh ==> o !in base)
    ensures var cache' := cache[o := Entry(coin, true, isFresh)];
            LayerOk(base, cache') && Overlay(base, cache') == Overlay(base, cache)[o := coin]
  {
  }

  lemma PutKeepsIff(base: CoinMap, cache: Cache, o: OutPoint, coin: Coin, isFresh: bool)
    requires LayerOk(base, cache) && !coin.IsSpent()
    ensures LayerOk(base, cache[o := Entry(coin, true, isFresh)]) <==> isFresh ==> o !in base
  {
    if isFresh && o in base {
      assert !EntryOk(base, o, cache[o := Entry(coin, true, isFresh)][o]);
    } else {
      PutKeeps(base, cache, o, coin, isFresh);
    }
  }

  /** Dropping a FRESH entry, or emptying another one: removal. */
  lemma SpendKeeps(base: CoinMap, cache: Cache, o: OutPoint)
    requires LayerOk(base, cache) && o in cache
    ensures var cache' := if cache[o].isFresh then cache - {o} else cache[o := Entry(EmptyCoin, true, false)];
            LayerOk(base, cache') && Overlay(base, cache') == Overlay(base, cache) - {o}
  {
  }

  /** An unmodified entry can be dropped. */
  lemma UncacheKeeps(base: CoinMap, cache: Cache, o: OutPoint)
    requires LayerOk(base, cache) && o in cache && !cache[o].isDirty
    ensures LayerOk(base, cache - {o}) && Overlay(base, cache - {o}) == Overlay(base, cache)
  {
  }

  /** What writing one child entry `e` into a cache does to the cache. */
  function Written(cache: Cache, o: OutPoint, e: Entry): Cache {
    if !e.isDirty then cache
    else if o !in cache then
      if e.isFresh && e.coin.IsSpent() then cache else cache[o := Entry(e.coin, true, e.isFresh)]
    else if cache[o].isFresh && e.coin.IsSpent() then cache - {o}
    else cache[o := Entry(e.coin, true, cache[o].isFresh)]
  }

  /**
   Writing one child entry keeps the parent's own flags right, moves the child's
   view of that outpoint into the parent, and never meets an unspent coin under
   a FRESH child entry.
   */
  lemma WriteKeeps(base: CoinMap, cache: Cache, o: OutPoint, e: Entry)
    requires LayerOk(base, cache) && AllUnspent(base) && EntryOk(Overlay(base, cache), o, e)
    ensures e.isDirty && e.isFresh && o in cache ==> cache[o].coin.IsSpent()
    ensures LayerOk(base, Written(cache, o, e))
    ensures Overlay(base, Written(cache, o, e)) ==
            if e.coin.IsSpent() then Overlay(base, cache) - {o} else Overlay(base, cache)[o := e.coin]
  {
    var coins := Overlay(base, cache);
    if !e.isDirty {
      assert coins == if e.coin.IsSpent() then coins - {o} else coins[o := e.coin];
    } else if o !in cache && e.isFresh && e.coin.IsSpent() {
      assert coins == coins - {o};
    } else if o in cache && cache[o].isFresh && e.coin.IsSpent() {
      OverlayDrop(base, cache, o);
    } else {
      OverlayPut(base, cache, o, Written(cache, o, e)[o]);
    }
  }

  /** The base map once the child's entry for `o` has been moved into it. */
  ghost function MovedDown(base: CoinMap, o: OutPoint, e: Entry): CoinMap {
    if e.coin.IsSpent() then base - {o} else base[o := e.coin]
  }

  lemma MoveDownLayer(base: CoinMap, cache: Cache, o: OutPoint)
    requires LayerOk(base, cache) && AllUnspent(base) && o in cache
    ensures var base' := MovedDown(base, o, cache[o]); LayerOk(base', cache - {o}) && AllUnspent(base')
  {
  }

  lemma MoveDownOverlay(base: CoinMap, cache: Cache, o: OutPoint)
    requires o in cache
    ensures Overlay(MovedDown(base, o, cache[o]), cache - {o}) == Overlay(base, cache)
  {
    var l, r := Overlay(MovedDown(base, o, cache[o]), cache - {o}), Overlay(base, cache);
    forall x ensures x in l <==> x in r {
    }
    forall x <- l ensures l[x] == r[x] {
    }
  }

  lemma MoveDownClean(base: CoinMap, cache: Cache, o: OutPoint)
    requires LayerOk(base, cache) && o in cache && !cache[o].isDirty
    ensures MovedDown(base, o, cache[o]) == base
  {
    assert EntryOk(base, o, cache[o]);
  }

  /** Moving one child entry into the base leaves the child's map as it was. */
  lemma MoveDown(base: CoinMap, cache: Cache, o: OutPoint)
    requires LayerOk(base, cache) && AllUnspent(base) && o in cache
    ensures var base' := MovedDown(base, o, cache[o]);
            LayerOk(base', cache - {o}) && AllUnspent(base') && Overlay(base', cache - {o}) == Overlay(base, cache)
    ensures !cache[o].isDirty ==> MovedDown(base, o, cache[o]) == base
    ensures EntryOk(base, o, cache[o])
  {
    hide Overlay, AllUnspent, MovedDown, EntryOk;
    MoveDownLayer(base, cache, o);
    MoveDownOverlay(base, cache, o);
    if !cache[o].isDirty {
      MoveDownClean(base, cache, o);
    }
  }

  lemma OverlayNothing(base: CoinMap)
    ensures Overlay(base, map[]) == base && LayerOk(base, map[])
  {
  }

  /** The value of the coins an input list refers to; a missing coin counts as the empty coin does. */
  ghost function InputSum(coins: CoinMap, vin: seq<OutPoint>): int {
    if vin == [] then 0
    else
      var o := vin[|vin| - 1];
      InputSum(coins, vin[..|vin| - 1]) + if o in coins then coins[o].out.nValue else -1
  }

  /** `coins'` is `coins` with the first `n` outputs of a transaction added, except unspendable ones. */
  ghost predicate OutputsAdded(coins: CoinMap, coins': CoinMap, tx: Tx, nHeight: nat, n: nat)
    requires n <= |tx.vout|
  {
    forall o: OutPoint ::
      var coin := if o.n < n then Coin(tx.vout[o.n], tx.IsCoinBase(), nHeight) else EmptyCoin;
      if o.txid == tx.txid && o.n < n && !coin.IsUnspendable() then o in coins' && coins'[o] == coin
      else (o in coins' <==> o in coins) && (o in coins ==> coins'[o] == coins[o])
  }

  lemma OutputStep(coins: CoinMap, before: CoinMap, after: CoinMap, tx: Tx, nHeight: nat, n: nat)
    requires n < |tx.vout| && OutputsAdded(coins, before, tx, nHeight, n)
    requires var coin := Coin(tx.vout[n], tx.IsCoinBase(), nHeight);
             after == if coin.IsUnspendable() then before else before[OutPoint(tx.txid, n) := coin]
    ensures OutputsAdded(coins, after, tx, nHeight, n + 1)
  {
  }

  lemma NoOutputs(coins: CoinMap, tx: Tx, nHeight: nat)
    ensures OutputsAdded(coins, coins, tx, nHeight, 0)
  {
  }

  lemma OutputPending(coins: CoinMap, before: CoinMap, tx: Tx, nHeight: nat, n: nat)
    requires n < |tx.vout| && OutputsAdded(coins, before, tx, nHeight, n)
    ensures OutPoint(tx.txid, n) in before <==> OutPoint(tx.txid, n) in coins
  {
  }

  /**
   What the promise of `AddCoin` is for: marking an entry FRESH although the base
   has the coin breaks the flags, and spending it then brings the old coin back.
   */
  lemma BrokenPromise(base: CoinMap, cache: Cache, o: OutPoint, coin: Coin)
    requires LayerOk(base, cache) && o !in cache && !coin.IsSpent()
    ensures LayerOk(base, cache[o := Entry(coin, true, true)]) <==> o !in base
    ensures o in Overlay(base, cache[o := Entry(coin, true, true)] - {o}) <==> o in base
  {
    assert cache[o := Entry(coin, true, true)] - {o} == cache;
    var cache' := cache[o := Entry(coin, true, true)];
    if o !in base {
      PutKeeps(base, cache, o, coin, true);
    } else {
      assert !EntryOk(base, o, cache'[o]);
    }
  }

  /** One call on the top cache of a stack. */
  datatype Call =
    | Add(o: OutPoint, coin: Coin, possible_overwrite: bool)
    | Spend(o: OutPoint)
    | Get(o: OutPoint)
    | Uncache(o: OutPoint)
    | Flush

  /** The same call on a plain map. */
  function Apply(coins: CoinMap, c: Call): CoinMap {
    match c
    case Add(o, coin, _) => if coin.IsUnspendable() then coins else coins[o := coin]
    case Spend(o) => coins - {o}
    case _ => coins
  }

  /** Coins added are unspent, and the promise of `AddCoin` is kept. */
  predicate Allowed(coins: CoinMap, c: Call) {
    c.Add? ==> !c.coin.IsSpent() && (c.possible_overwrite || c.o !in coins)
  }

  function ApplyAll(coins: CoinMap, calls: seq<Call>): CoinMap {
    if calls == [] then coins else Apply(ApplyAll(coins, calls[..|calls| - 1]), calls[|calls| - 1])
  }

  predicate AllAllowed(coins: CoinMap, calls: seq<Call>) {
    forall i :: 0 <= i < |calls| ==> Allowed(ApplyAll(coins, calls[..i]), calls[i])
  }

  lemma Nothing(coins: CoinMap, calls: seq<Call>)
    ensures ApplyAll(coins, calls[..0]) == coins
  {
  }

  lemma OneMoreCall(coins: CoinMap, calls: seq<Call>, i: nat)
    requires i < |calls|
    ensures ApplyAll(coins, calls[..i + 1]) == Apply(ApplyAll(coins, calls[..i]), calls[i])
  {
    assert calls[..i + 1][..i] == calls[..i];
  }

  datatype Answer = Done | Thrown | Got(found: bool, coin: Coin)

  /**
   The answer a plain map gives: a look-up finds exactly the coins of the map,
   spending hands out the coin and succeeds if there is one (it may also succeed
   if there is none), and nothing throws.
   */
  ghost predicate Answers(coins: CoinMap, c: Call, a: Answer) {
    match c
    case Get(o) => a.Got? && (a.found <==> o in coins) && (a.found ==> a.coin == coins[o])
    case Spend(o) => a.Got? && (o in coins ==> a.found) && a.coin == if o in coins then coins[o] else EmptyCoin
    case _ => a == Done
  }

  // ------------------------------------------------------------------- the classes

  /** The view at the bottom of a stack: the coin database. */
  class CoinsDB {
    var coins: CoinMap
    var best: nat

    ghost predicate Valid()
      reads this
    {
      AllUnspent(coins)
    }

    method GetCoin(o: OutPoint) returns (r: bool, coin: Coin)
      ensures r <==> o in coins
      ensures r ==> coin == coins[o]
    {
      if o in coins {
        return true, coins[o];
      }
      return false, EmptyCoin;
    }

    method BatchWrite(mapCoins: Cache, hashBlock: nat)
      requires Valid() && LayerOk(coins, mapCoins) && hashBlock != 0
      modifies this
      ensures Valid() && coins == Overlay(old(coins), mapCoins) && best == hashBlock
    {
      hide Overlay, LayerOk, AllUnspent;
      var rest := mapCoins;
      while rest != map[]
        invariant LayerOk(coins, rest) && AllUnspent(coins)
        invariant Overlay(coins, rest) == Overlay(old(coins), mapCoins)
        decreases |rest|
      {
        var o := AnyKey(rest);
        MoveDown(coins, rest, o);
        if rest[o].isDirty {
          if rest[o].coin.IsSpent() {
            coins := coins - {o};
          } else {
            coins := coins[o := rest[o].coin];
          }
        }
        rest := rest - {o};
      }
      OverlayNothing(coins);
      best := hashBlock;
    }
  }

  method AnyKey<K, V>(m: map<K, V>) returns (k: K)
    requires m != map[]
    ensures k in m
  {
    k :| k in m;
  }

  /** What a cache can stand on. */
  datatype View = Disk(db: CoinsDB) | Layer(cache: CoinsViewCache)

  class CoinsViewCache {
    const base: View
    var hashBlock: nat
    var cacheCoins: Cache
    var cachedCoinsUsage: int
    ghost const depth: nat
    ghost const Repr: set<object>

    /** The caches below are distinct objects ending in a database. */
    ghost predicate Stacked()
      decreases depth
    {
      match base
      case Disk(db) => Repr == {this, db}
      case Layer(c) => c.depth < depth && c in c.Repr && this !in c.Repr && Repr == {this} + c.Repr && c.Stacked()
    }

    ghost function BaseCoins(): CoinMap
      requires Stacked()
      reads Repr
      decreases depth, 0
    {
      match base
      case Disk(db) => db.coins
      case Layer(c) => c.Coins()
    }

    /** The plain map this stack of caches represents. */
    ghost function Coins(): CoinMap
      requires Stacked()
      reads Repr
      decreases depth, 1
    {
      Overlay(BaseCoins(), cacheCoins)
    }

    ghost function BaseBest(): nat
      requires Stacked()
      reads Repr
      decreases depth, 0
    {
      match base
      case Disk(db) => db.best
      case Layer(c) => c.Best()
    }

    /** The best block this stack represents. */
    ghost function Best(): nat
      requires Stacked()
      reads Repr
      decreases depth, 1
    {
      if hashBlock == 0 then BaseBest() else hashBlock
    }

    ghost predicate Valid()
      reads this, Repr
      decreases depth
    {
      && Stacked()
      && (match base
          case Disk(db) => db.Valid()
          case Layer(c) => c.Valid())
      && LayerOk(BaseCoins(), cacheCoins)
      && cachedCoinsUsage == UsageSum(cacheCoins)
    }

    lemma CoinsAreUnspent()
      requires Valid()
      ensures AllUnspent(Coins()) && AllUnspent(BaseCoins())
      decreases depth
    {
      match base
      case Disk(db) =>
      case Layer(c) => c.CoinsAreUnspent();
    }

    constructor (base: View)
      requires match base case Disk(db) => db.Valid() case Layer(c) => c.Valid()
      ensures Valid() && this.base == base && cacheCoins == map[] && hashBlock == 0 && Coins() == BaseCoins() && Best() == BaseBest()
    {
      this.base := base;
      hashBlock, cacheCoins, cachedCoinsUsage := 0, map[], 0;
      match base {
        case Disk(db) =>
          depth, Repr := 0, {this, db};
        case Layer(c) =>
          depth, Repr := c.depth + 1, {this} + c.Repr;
      }
    }

    method BaseGetCoin(o: OutPoint) returns (r: bool, coin: Coin)
      requires Valid()
      modifies Repr
      ensures Valid() && BaseCoins() == old(BaseCoins()) && BaseBest() == old(BaseBest())
      ensures cacheCoins == old(cacheCoins) && hashBlock == old(hashBlock)
      ensures r <==> o in BaseCoins()
      ensures r ==> coin == BaseCoins()[o]
      decreases depth, 0
    {
      match base
      case Disk(db) => r, coin := db.GetCoin(o);
      case Layer(c) => r, coin := c.GetCoin(o);
    }

    /** Brings the entry for an outpoint into the cache if the base has it. */
    method FetchCoin(o: OutPoint) returns (found: bool)
      requires Valid()
      modifies Repr
      ensures Valid() && Coins() == old(Coins()) && BaseCoins() == old(BaseCoins())
      ensures Best() == old(Best()) && BaseBest() == old(BaseBest()) && hashBlock == old(hashBlock)
      ensures found <==> o in cacheCoins
      ensures cacheCoins == if o in old(cacheCoins) || o !in old(BaseCoins()) then old(cacheCoins)
                            else old(cacheCoins)[o := Entry(old(BaseCoins())[o], false, false)]
      decreases depth, 1
    {
      hide Overlay, LayerOk, AllUnspent, UsageSum;
      if o in cacheCoins {
        return true;
      }
      var r, tmp := BaseGetCoin(o);
      if !r {
        return false;
      }
      CoinsAreUnspent();
      FetchKeeps(BaseCoins(), cacheCoins, o);
      UsageAfterPut(cacheCoins, o, Entry(tmp, false, tmp.IsSpent()));
      cacheCoins := cacheCoins[o := Entry(tmp, false, tmp.IsSpent())];
      cachedCoinsUsage := cachedCoinsUsage + tmp.DynamicMemoryUsage();
      return true;
    }

    method GetCoin(o: OutPoint) returns (r: bool, coin: Coin)
      requires Valid()
      modifies Repr
      ensures Valid() && Coins() == old(Coins()) && Best() == old(Best())
      ensures r <==> o in Coins()
      ensures r ==> coin == Coins()[o]
      ensures hashBlock == old(hashBlock)
      decreases depth, 2
    {
      var found := FetchCoin(o);
      if found {
        coin := cacheCoins[o].coin;
        return !coin.IsSpent(), coin;
      }
      return false, EmptyCoin;
    }

    method HaveCoin(o: OutPoint) returns (r: bool)
      requires Valid()
      modifies Repr
      ensures Valid() && Coins() == old(Coins()) && Best() == old(Best())
      ensures r <==> o in Coins()
    {
      var found := FetchCoin(o);
      return found && !cacheCoins[o].coin.IsSpent();
    }

    method AccessCoin(o: OutPoint) returns (coin: Coin)
      requires Valid()
      modifies Repr
      ensures Valid() && Coins() == old(Coins()) && Best() == old(Best())
      ensures coin == if o in Coins() then Coins()[o] else EmptyCoin
    {
      var found := FetchCoin(o);
      return if found then cacheCoins[o].coin else EmptyCoin;
    }

    /**
     Adds a coin.  Without `possible_overwrite` the caller promises there is none
     yet; the exception catches a broken promise only for a cached coin, and a
     coin of the base is wrongly marked FRESH.
     */
    method AddCoin(o: OutPoint, coin: Coin, possible_overwrite: bool) returns (thrown: bool)
      requires Valid() && !coin.IsSpent()
      modifies this`cacheCoins, this`cachedCoinsUsage
      ensures Stacked() && Best() == old(Best()) && BaseCoins() == old(BaseCoins())
      ensures possible_overwrite || o !in old(Coins()) ==> Valid() && !thrown
      ensures Coins() == if coin.IsUnspendable() || thrown then old(Coins()) else old(Coins())[o := coin]
      ensures thrown <==>
              !coin.IsUnspendable() && !possible_overwrite && o in old(cacheCoins) && !old(cacheCoins)[o].coin.IsSpent()
      ensures !thrown ==>
                (Valid() <==> coin.IsUnspendable() || possible_overwrite || o in old(cacheCoins) || o !in old(BaseCoins()))
      ensures !thrown && !coin.IsUnspendable() ==> o in cacheCoins && cacheCoins == old(cacheCoins)[o := Entry(coin, true, cacheCoins[o].isFresh)]
      ensures thrown ==> cacheCoins == old(cacheCoins) &&
                         cachedCoinsUsage == old(cachedCoinsUsage) - cacheCoins[o].coin.DynamicMemoryUsage()
    {
      hide Overlay, LayerOk, UsageSum;
      if coin.IsUnspendable() {
        return false;
      }
      var inserted := o !in cacheCoins;
      var entry := if inserted then Entry(EmptyCoin, false, false) else cacheCoins[o];
      var isFresh := false;
      UsageAfterPut(cacheCoins, o, Entry(coin, true, entry.isFresh));
      UsageAfterPut(cacheCoins, o, Entry(coin, true, true));
      EntryFacts(BaseCoins(), cacheCoins, o);
      if !inserted {
        cachedCoinsUsage := cachedCoinsUsage - entry.coin.DynamicMemoryUsage();
      }
      if !possible_overwrite {
        if !entry.coin.IsSpent() {
          return true;
        }
        isFresh := !entry.isDirty;
      }
      OverlayPut(BaseCoins(), cacheCoins, o, Entry(coin, true, entry.isFresh || isFresh));
      PutKeepsIff(BaseCoins(), cacheCoins, o, coin, entry.isFresh || isFresh);
      cacheCoins := cacheCoins[o := Entry(coin, true, entry.isFresh || isFresh)];
      cachedCoinsUsage := cachedCoinsUsage + coin.DynamicMemoryUsage();
      return false;
    }

    /** Adds all outputs of a transaction. */
    method AddCoins(tx: Tx, nHeight: nat, check: bool)
      requires Valid() && forall i :: 0 <= i < |tx.vout| ==> tx.vout[i].nValue != -1
      requires check || tx.IsCoinBase() || forall i :: 0 <= i < |tx.vout| ==> OutPoint(tx.txid, i) !in Coins()
      modifies Repr
      ensures Valid() && Best() == old(Best())
      ensures OutputsAdded(old(Coins()), Coins(), tx, nHeight, |tx.vout|)
    {
      hide Overlay, LayerOk, UsageSum, OutputsAdded;
      var fCoinbase := tx.IsCoinBase();
      NoOutputs(Coins(), tx, nHeight);
      for i := 0 to |tx.vout|
        invariant Valid() && Best() == old(Best())
        invariant OutputsAdded(old(Coins()), Coins(), tx, nHeight, i)
      {
        ghost var before := Coins();
        OutputPending(old(Coins()), before, tx, nHeight, i);
        var overwrite := fCoinbase;
        if check {
          overwrite := HaveCoin(OutPoint(tx.txid, i));
        }
        var _ := AddCoin(OutPoint(tx.txid, i), Coin(tx.vout[i], fCoinbase, nHeight), overwrite);
        OutputStep(old(Coins()), before, Coins(), tx, nHeight, i);
      }
    }

    /** Spends a coin; returns true whenever an entry, even a spent one, is found. */
    method SpendCoin(o: OutPoint) returns (r: bool, moveout: Coin)
      requires Valid()
      modifies Repr
      ensures Valid() && Best() == old(Best()) && BaseCoins() == old(BaseCoins())
      ensures Coins() == old(Coins()) - {o}
      ensures r <==> o in old(Coins()) || o in old(cacheCoins)
      ensures moveout == if o in old(Coins()) then old(Coins())[o] else EmptyCoin
      ensures hashBlock == old(hashBlock)
      // a FRESH entry goes, any other one stays, spent
      ensures cacheCoins == if !r || (o in old(cacheCoins) && old(cacheCoins)[o].isFresh) then old(cacheCoins) - {o}
                            else old(cacheCoins)[o := Entry(EmptyCoin, true, false)]
    {
      hide Overlay, LayerOk, UsageSum;
      EntryFacts(BaseCoins(), cacheCoins, o);
      var found := FetchCoin(o);
      if !found {
        return false, EmptyCoin;
      }
      EntryFacts(BaseCoins(), cacheCoins, o);
      SpendKeeps(BaseCoins(), cacheCoins, o);
      UsageAfterPut(cacheCoins, o, Entry(EmptyCoin, true, false));
      cachedCoinsUsage := cachedCoinsUsage - cacheCoins[o].coin.DynamicMemoryUsage();
      moveout := cacheCoins[o].coin;
      if cacheCoins[o].isFresh {
        cacheCoins := cacheCoins - {o};
      } else {
        cacheCoins := cacheCoins[o := Entry(EmptyCoin, true, cacheCoins[o].isFresh)];
      }
      return true, moveout;
    }

    /** Spending a coin twice succeeds twice, exactly if the entry for it is not FRESH. */
    method SpendTwice(o: OutPoint) returns (first: bool, second: bool)
      requires Valid()
      modifies Repr
      ensures Valid() && Coins() == old(Coins()) - {o}
      ensures first <==> o in old(Coins()) || o in old(cacheCoins)
      ensures second <==> first && !(o in old(cacheCoins) && old(cacheCoins)[o].isFresh)
    {
      hide Overlay, LayerOk, UsageSum;
      var coin;
      first, coin := SpendCoin(o);
      second, coin := SpendCoin(o);
    }

    /** Drops an entry that was not modified. */
    method Uncache(o: OutPoint)
      requires Valid()
      modifies this`cacheCoins, this`cachedCoinsUsage
      ensures Valid() && Coins() == old(Coins()) && Best() == old(Best()) && BaseCoins() == old(BaseCoins())
      ensures cacheCoins == if o in old(cacheCoins) && !old(cacheCoins)[o].isDirty && !old(cacheCoins)[o].isFresh
                            then old(cacheCoins) - {o} else old(cacheCoins)
    {
      hide Overlay, LayerOk, UsageSum;
      if o in cacheCoins && !cacheCoins[o].isDirty && !cacheCoins[o].isFresh {
        UncacheKeeps(BaseCoins(), cacheCoins, o);
        UsageAfterPut(cacheCoins, o, cacheCoins[o]);
        cachedCoinsUsage := cachedCoinsUsage - cacheCoins[o].coin.DynamicMemoryUsage();
        cacheCoins := cacheCoins - {o};
      }
    }

    method GetBestBlock() returns (r: nat)
      requires Valid()
      modifies Repr
      ensures Valid() && Coins() == old(Coins()) && Best() == old(Best())
      ensures r == Best()
      decreases depth
    {
      if hashBlock == 0 {
        match base {
          case Disk(db) => hashBlock := db.best;
          case Layer(c) => var h := c.GetBestBlock(); hashBlock := h;
        }
      }
      return hashBlock;
    }

    method SetBestBlock(hashBlockIn: nat)
      requires Valid()
      modifies this`hashBlock
      ensures Valid() && Coins() == old(Coins()) && hashBlock == hashBlockIn
    {
      hashBlock := hashBlockIn;
    }

    method HaveInputs(tx: Tx) returns (r: bool)
      requires Valid()
      modifies Repr
      ensures Valid() && Coins() == old(Coins()) && Best() == old(Best())
      ensures r <==> tx.IsCoinBase() || forall o <- tx.vin :: o in Coins()
    {
      if !tx.IsCoinBase() {
        for i := 0 to |tx.vin|
          invariant Valid() && Coins() == old(Coins()) && Best() == old(Best())
          invariant forall j :: 0 <= j < i ==> tx.vin[j] in Coins()
        {
          var have := HaveCoin(tx.vin[i]);
          if !have {
            return false;
          }
        }
      }
      return true;
    }

    method GetValueIn(tx: Tx) returns (nResult: int)
      requires Valid()
      modifies Repr
      ensures Valid() && Coins() == old(Coins()) && Best() == old(Best())
      ensures nResult == if tx.IsCoinBase() then 0 else InputSum(Coins(), tx.vin)
    {
      if tx.IsCoinBase() {
        return 0;
      }
      nResult := 0;
      for i := 0 to |tx.vin|
        invariant Valid() && Coins() == old(Coins()) && Best() == old(Best())
        invariant nResult == InputSum(Coins(), tx.vin[..i])
      {
        var coin := AccessCoin(tx.vin[i]);
        assert tx.vin[..i + 1][..i] == tx.vin[..i];
        nResult := nResult + coin.out.nValue;
      }
      assert tx.vin[..|tx.vin|] == tx.vin;
    }

    /** Takes over the modifications of a child cache. */
    method BatchWrite(mapCoins: Cache, hashBlockIn: nat)
      requires Valid() && LayerOk(Coins(), mapCoins)
      modifies this`cacheCoins, this`cachedCoinsUsage, this`hashBlock
      ensures Valid() && BaseCoins() == old(BaseCoins()) && BaseBest() == old(BaseBest())
      ensures Coins() == Overlay(old(Coins()), mapCoins)
      ensures hashBlock == hashBlockIn
    {
      hide Overlay, LayerOk, UsageSum, AllUnspent;
      CoinsAreUnspent();
      ghost var baseCoins := BaseCoins();
      var rest := mapCoins;
      while rest != map[]
        modifies this`cacheCoins, this`cachedCoinsUsage
        invariant LayerOk(baseCoins, cacheCoins) && AllUnspent(Overlay(baseCoins, cacheCoins))
        invariant LayerOk(Overlay(baseCoins, cacheCoins), rest)
        invariant Overlay(Overlay(baseCoins, cacheCoins), rest) == Overlay(Overlay(baseCoins, old(cacheCoins)), mapCoins)
        invariant cachedCoinsUsage == UsageSum(cacheCoins)
        decreases |rest|
      {
        var o := AnyKey(rest);
        MoveDown(Overlay(baseCoins, cacheCoins), rest, o);
        WriteKeeps(baseCoins, cacheCoins, o, rest[o]);
        WriteEntry(o, rest[o]);
        rest := rest - {o};
      }
      OverlayNothing(Overlay(baseCoins, cacheCoins));
      hashBlock := hashBlockIn;
    }

    /** The body of the loop of `BatchWrite`. */
    method WriteEntry(o: OutPoint, e: Entry)
      requires cachedCoinsUsage == UsageSum(cacheCoins)
      requires e.isDirty && e.isFresh && o in cacheCoins ==> cacheCoins[o].coin.IsSpent()
      modifies this`cacheCoins, this`cachedCoinsUsage
      ensures cacheCoins == Written(old(cacheCoins), o, e) && cachedCoinsUsage == UsageSum(cacheCoins)
    {
      hide UsageSum;
      UsageAfterPut(cacheCoins, o, e);
      UsageAfterPut(cacheCoins, o, Entry(e.coin, true, e.isFresh));
      if !e.isDirty {
        return;
      }
      if o !in cacheCoins {
        if !(e.isFresh && e.coin.IsSpent()) {
          cacheCoins := cacheCoins[o := Entry(e.coin, true, e.isFresh)];
          cachedCoinsUsage := cachedCoinsUsage + e.coin.DynamicMemoryUsage();
        }
      } else {
        // the source throws "FRESH flag misapplied" otherwise
        assert !(e.isFresh && !cacheCoins[o].coin.IsSpent());
        UsageAfterPut(cacheCoins, o, Entry(e.coin, true, cacheCoins[o].isFresh));
        cachedCoinsUsage := cachedCoinsUsage - cacheCoins[o].coin.DynamicMemoryUsage();
        if cacheCoins[o].isFresh && e.coin.IsSpent() {
          cacheCoins := cacheCoins - {o};
        } else {
          cacheCoins := cacheCoins[o := Entry(e.coin, true, cacheCoins[o].isFresh)];
          cachedCoinsUsage := cachedCoinsUsage + e.coin.DynamicMemoryUsage();
        }
      }
    }

    /** The cache below knows a best block of its own, which this one, without any, is about to hide. */
    ghost predicate UnsetsBest()
      requires Stacked()
      reads Repr
    {
      base.Layer? && hashBlock == 0 && base.cache.hashBlock != 0 && base.cache.hashBlock != base.cache.BaseBest()
    }

    /** Hands everything modified here down to the base. */
    method Flush()
      requires Valid() && (base.Disk? ==> hashBlock != 0)
      modifies Repr
      ensures Valid() && cacheCoins == map[] && cachedCoinsUsage == 0 && hashBlock == old(hashBlock)
      ensures Coins() == old(Coins()) && BaseCoins() == old(Coins())
      // the base takes over the raw best block, so an unset one unsets the base's too
      ensures hashBlock != 0 ==> BaseBest() == hashBlock
      ensures base.Layer? ==> base.cache.hashBlock == old(hashBlock) && base.cache.BaseBest() == old(base.cache.BaseBest())
      ensures Best() == old(Best()) <==> !old(UnsetsBest())
    {
      hide Overlay, LayerOk, UsageSum;
      assert base.Layer? ==> BaseBest() == if base.cache.hashBlock == 0 then base.cache.BaseBest() else base.cache.hashBlock;
      match base {
        case Disk(db) => db.BatchWrite(cacheCoins, hashBlock);
        case Layer(c) => c.BatchWrite(cacheCoins, hashBlock);
      }
      cacheCoins := map[];
      cachedCoinsUsage := 0;
      OverlayNothing(BaseCoins());
      NoUsage();
      assert base.Layer? ==> BaseBest() == if base.cache.hashBlock == 0 then base.cache.BaseBest() else base.cache.hashBlock;
    }

    /** Flushes this cache and every cache below it, which brings the map to the database. */
    method FlushToDisk()
      requires Valid() && hashBlock != 0
      modifies Repr
      ensures Valid() && Coins() == old(Coins()) && BaseCoins() == old(Coins())
      ensures Disk().coins == old(Coins()) && Disk().best == old(hashBlock)
      decreases depth
    {
      hide Overlay, LayerOk, UsageSum;
      Flush();
      match base {
        case Disk(db) =>
        case Layer(c) => c.FlushToDisk();
      }
    }

    /** Any sequence of calls on a stack of any depth acts and answers as the same calls on a plain map. */
    method Run(calls: seq<Call>) returns (answers: seq<Answer>)
      requires Valid() && AllAllowed(Coins(), calls) && (base.Disk? && Call.Flush in calls ==> hashBlock != 0)
      modifies Repr
      ensures Valid() && Coins() == ApplyAll(old(Coins()), calls) && hashBlock == old(hashBlock)
      ensures |answers| == |calls|
      ensures forall i :: 0 <= i < |calls| ==> Answers(ApplyAll(old(Coins()), calls[..i]), calls[i], answers[i])
    {
      hide Overlay, LayerOk, UsageSum, ApplyAll, Answers;
      answers := [];
      Nothing(Coins(), calls);
      for i := 0 to |calls|
        invariant Valid() && hashBlock == old(hashBlock) && Coins() == ApplyAll(old(Coins()), calls[..i])
        invariant |answers| == i
        invariant forall j :: 0 <= j < i ==> Answers(ApplyAll(old(Coins()), calls[..j]), calls[j], answers[j])
      {
        OneMoreCall(old(Coins()), calls, i);
        assert Allowed(ApplyAll(old(Coins()), calls[..i]), calls[i]);
        var answer := Perform(calls[i]);
        answers := answers + [answer];
      }
      assert calls[..|calls|] == calls;
    }

    /** One call. */
    method Perform(call: Call) returns (answer: Answer)
      requires Valid() && Allowed(Coins(), call) && (base.Disk? && call.Flush? ==> hashBlock != 0)
      modifies Repr
      ensures Valid() && Coins() == Apply(old(Coins()), call) && hashBlock == old(hashBlock)
      ensures Answers(old(Coins()), call, answer)
    {
      hide Overlay, LayerOk, UsageSum;
      match call
      case Add(o, coin, possible_overwrite) =>
        var thrown := AddCoin(o, coin, possible_overwrite);
        answer := if thrown then Thrown else Done;
      case Spend(o) =>
        var r, coin := SpendCoin(o);
        answer := Got(r, coin);
      case Get(o) =>
        var r, coin := GetCoin(o);
        answer := Got(r, coin);
      case Uncache(o) =>
        Uncache(o);
        answer := Done;
      case Flush =>
        Flush();
        answer := Done;
    }

    /** The database at the bottom of the stack. */
    ghost function Disk(): CoinsDB
      requires Stacked()
      decreases depth
    {
      match base
      case Disk(db) => db
      case Layer(c) => c.Disk()
    }
  }

  /** Flushes a cache without a best block, and reads its parent's before and after. */
  method FlushUnknown(child: CoinsViewCache, parent: CoinsViewCache) returns (before: nat, after: nat)
    requires child.Valid() && child.base == Layer(parent) && child.hashBlock == 0 && parent.hashBlock != 0
    modifies child.Repr
    ensures before == old(parent.hashBlock) && after == old(parent.BaseBest())
  {
    hide Overlay, LayerOk, UsageSum, AllUnspent;
    before := parent.hashBlock;
    child.Flush();
    after := parent.GetBestBlock();
  }

  lemma NoCoins()
    ensures AllUnspent(map[])
  {
  }

  /** A cache that never learned a best block is flushed: its parent forgets block 7. */
  method UnsetExample() returns (before: nat, after: nat)
    ensures before == 7 && after == 0
  {
    hide Overlay, LayerOk, UsageSum, AllUnspent;
    var db := new CoinsDB;
    db.coins, db.best := map[], 0;
    NoCoins();
    var parent := new CoinsViewCache(Disk(db));
    parent.SetBestBlock(7);
    var child := new CoinsViewCache(Layer(parent));
    before, after := FlushUnknown(child, parent);
  }

  /** A large coin is added twice: the second call throws, and leaves the memory counter below the sum over the cached coins. */
  method AddTwiceExample(o: OutPoint, coin: Coin) returns (first: bool, second: bool, usage: int)
    requires !coin.IsSpent() && !coin.IsUnspendable() && |coin.out.scriptPubKey| > 28
    ensures !first && second && usage < coin.DynamicMemoryUsage()
  {
    hide UsageSum, LayerOk, Overlay;
    var db := new CoinsDB;
    db.coins, db.best := map[], 0;
    var cache := new CoinsViewCache(Disk(db));
    assert cache.BaseCoins() == map[];
    first := cache.AddCoin(o, coin, false);
    UsageOfOne(o, cache.cacheCoins);
    second := cache.AddCoin(o, coin, false);
    usage := cache.cachedCoinsUsage;
  }

  lemma UsageOfOne(o: OutPoint, cache: Cache)
    requires cache.Keys == {o}
    ensures UsageSum(cache) == cache[o].coin.DynamicMemoryUsage()
  {
    UsageWithout(cache, o);
    assert cache - {o} == map[];
  }

  /** A coin of the database is spent twice, and both calls say it was there. */
  method SpendTwiceExample(o: OutPoint, coin: Coin) returns (first: bool, second: bool, have: bool)
    requires !coin.IsSpent()
    ensures first && second && !have
  {
    var db := new CoinsDB;
    db.coins, db.best := map[o := coin], 0;
    var cache := new CoinsViewCache(Disk(db));
    assert o in cache.BaseCoins();
    first, second := cache.SpendTwice(o);
    have := cache.HaveCoin(o);
  }
}
