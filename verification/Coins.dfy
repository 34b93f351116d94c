/** The stack of coin views (src/coins.cpp, src/coins.h).

    A stack is a database view with any number of write-back caches on top of each other.
    Every cache overlays its entries on the view below it. The module proves that, whatever
    fetches, additions, spends, evictions, flushes, pushes and discards happen on top of the
    stack, every level of it shows exactly what one plain outpoint-to-coin map would show. */
module Coins {
  import opened Common

  /** A block hash; 0 is the null hash. */
  type Hash = nat

  datatype OutPoint = OutPoint(txid: Hash, n: nat)

  /** A coin. `script` stands for the output script, `heap` for the dynamic memory that script
      holds and `unspendable` for what the script interpreter says about it. */
  datatype Coin = Coin(value: int, script: nat, heap: nat, unspendable: bool, height: nat, coinbase: bool) {
    predicate IsSpent() {
      value == -1
    }
  }

  /** What `Coin::Clear` leaves behind, and what the empty constructor builds. */
  const CLEARED := Coin(-1, 0, 0, false, 0, false)

  datatype Entry = Entry(coin: Coin, isDirty: bool, isFresh: bool)

  type CoinMap = map<OutPoint, Entry>

  /** The plain model: the unspent coins and nothing else. */
  type Utxo = map<OutPoint, Coin>

  // ---------------------------------------------------------------- overlay

  /** What is seen through `cache` when `below` is seen underneath. */
  ghost function Overlay(below: Utxo, cache: CoinMap): Utxo {
    map o | o in below.Keys + cache.Keys && (o in cache ==> !cache[o].coin.IsSpent())
      :: if o in cache then cache[o].coin else below[o]
  }

  /** The view a single coin stands for at `o`. */
  ghost predicate Shows(view: Utxo, o: OutPoint, coin: Coin) {
    if coin.IsSpent() then o !in view else o in view && view[o] == coin
  }

  ghost predicate EntryAgrees(e: Entry, o: OutPoint, below: Utxo) {
    && (!e.isDirty ==> Shows(below, o, e.coin))
    && (e.isFresh ==> o !in below)
  }

  /** The meaning of the flags: an entry that is not DIRTY repeats the parent, a FRESH one has
      nothing unspent under it. */
  ghost predicate Agrees(cache: CoinMap, below: Utxo) {
    forall o | o in cache :: EntryAgrees(cache[o], o, below)
  }

  ghost function DirtyOnly(cache: CoinMap): CoinMap {
    map o | o in cache && cache[o].isDirty :: cache[o]
  }

  /** Clean entries are invisible, so writing back the dirty ones alone loses nothing. */
  lemma CleanEntriesAreInvisible(cache: CoinMap, below: Utxo)
    requires Agrees(cache, below)
    ensures Overlay(below, DirtyOnly(cache)) == Overlay(below, cache)
  {
    forall o | o in cache
      ensures o in Overlay(below, cache) <==> o in Overlay(below, DirtyOnly(cache))
    {
      assert EntryAgrees(cache[o], o, below);
    }
  }

  lemma EmptyShowsBelow(below: Utxo)
    ensures Overlay(below, map[]) == below
  {
  }

  /** Caching a copy of what is below changes nothing that can be seen. */
  lemma FetchIsInvisible(cache: CoinMap, below: Utxo, o: OutPoint, coin: Coin)
    requires Agrees(cache, below) && o !in cache && Shows(below, o, coin)
    ensures Agrees(cache[o := Entry(coin, false, coin.IsSpent())], below)
    ensures Overlay(below, cache[o := Entry(coin, false, coin.IsSpent())]) == Overlay(below, cache)
  {
  }

  /** Storing a dirty entry shows its coin. */
  lemma StoreShows(cache: CoinMap, below: Utxo, o: OutPoint, e: Entry)
    ensures Overlay(below, cache[o := e]) ==
            if e.coin.IsSpent() then Overlay(below, cache) - {o} else Overlay(below, cache)[o := e.coin]
    ensures Agrees(cache, below) && EntryAgrees(e, o, below) ==> Agrees(cache[o := e], below)
  {
  }

  /** A FRESH entry can be erased instead of being marked spent. */
  lemma EraseShows(cache: CoinMap, below: Utxo, o: OutPoint)
    requires o in cache && o !in below
    ensures Overlay(below, cache - {o}) == Overlay(below, cache) - {o}
    ensures Agrees(cache, below) ==> Agrees(cache - {o}, below)
  {
  }

  /** A clean entry can be dropped. */
  lemma DropShows(cache: CoinMap, below: Utxo, o: OutPoint)
    requires o in cache && Shows(below, o, cache[o].coin)
    ensures Overlay(below, cache - {o}) == Overlay(below, cache)
    ensures Agrees(cache, below) ==> Agrees(cache - {o}, below)
  {
  }

  /** The entry `AddCoin` stores agrees with the view below exactly when FRESH was not claimed
      over an unspent coin that the cache had no entry for. */
  lemma AddAgrees(cache: CoinMap, below: Utxo, o: OutPoint, e: Entry, possibleOverwrite: bool)
    requires Agrees(cache, below)
    requires !possibleOverwrite && o in cache ==> cache[o].coin.IsSpent()
    requires e.isDirty
    requires e.isFresh <==> (o in cache && cache[o].isFresh) || (!possibleOverwrite && (o in cache ==> !cache[o].isDirty))
    ensures Agrees(cache[o := e], below) <==> possibleOverwrite || o in cache || o !in below
  {
    assert o in cache ==> EntryAgrees(cache[o], o, below);
    assert Agrees(cache[o := e], below) ==> EntryAgrees(cache[o := e][o], o, below);
  }

  // ---------------------------------------------------------------- memory accounting

  ghost function Usage(cache: CoinMap): nat
    decreases |cache|
  {
    if cache == map[] then 0 else
    var o :| o in cache;
    cache[o].coin.heap + Usage(cache - {o})
  }

  lemma {:induction false} UsageWithout(cache: CoinMap, o: OutPoint)
    requires o in cache
    ensures Usage(cache) == cache[o].coin.heap + Usage(cache - {o})
    decreases |cache|
  {
    var p :| p in cache && Usage(cache) == cache[p].coin.heap + Usage(cache - {p});
    if p != o {
      UsageWithout(cache - {p}, o);
      UsageWithout(cache - {o}, p);
      assert cache - {p} - {o} == cache - {o} - {p};
    }
  }

  lemma UsageUpdate(cache: CoinMap, o: OutPoint, e: Entry)
    ensures Usage(cache[o := e]) == Usage(cache - {o}) + e.coin.heap
    ensures o !in cache ==> Usage(cache - {o}) == Usage(cache)
    ensures o in cache ==> Usage(cache - {o}) == Usage(cache) - cache[o].coin.heap
  {
    UsageWithout(cache[o := e], o);
    assert cache[o := e] - {o} == cache - {o};
    if o in cache {
      UsageWithout(cache, o);
    } else {
      assert cache - {o} == cache;
    }
  }

  // ---------------------------------------------------------------- merging one entry downwards

  ghost function At(cache: CoinMap, o: OutPoint): Option<Entry> {
    if o in cache then Some(cache[o]) else None
  }

  /** What the parent cache holds for an outpoint after a dirty child entry is written to it. */
  ghost function Merge(us: Option<Entry>, child: Entry): Option<Entry> {
    match us
    case None =>
      if child.isFresh && child.coin.IsSpent() then None
      else Some(Entry(child.coin, true, child.isFresh))
    case Some(e) =>
      if e.isFresh && child.coin.IsSpent() then None
      else Some(Entry(child.coin, true, e.isFresh))
  }

  /** A coin that is FRESH in the child stays so, and spending it then leaves nothing to be written below. */
  lemma FreshStays(us: Option<Entry>, child: Entry, later: Entry)
    requires !child.coin.IsSpent() && (us.None? ==> child.isFresh) && (us.Some? ==> us.value.isFresh) && later.coin.IsSpent()
    ensures Merge(us, child).Some? && Merge(us, child).value.isFresh && Merge(Merge(us, child), later) == None
  {
  }

  ghost predicate MisappliedAt(cache: CoinMap, children: CoinMap, o: OutPoint)
    requires o in children
  {
    o in cache && children[o].isDirty && children[o].isFresh && !cache[o].coin.IsSpent()
  }

  /** A child entry is FRESH while the parent caches an unspent coin. */
  ghost predicate Misapplied(cache: CoinMap, children: CoinMap) {
    exists o | o in children :: MisappliedAt(cache, children, o)
  }

  /** `merged` is `cache` with the entries of `children` under `done` written to it. */
  ghost predicate IsMerged(cache: CoinMap, children: CoinMap, done: set<OutPoint>, merged: CoinMap) {
    forall o ::
      At(merged, o) ==
      if o in done && o in children && children[o].isDirty then Merge(At(cache, o), children[o]) else At(cache, o)
  }

  ghost predicate SameAt(u: Utxo, v: Utxo, o: OutPoint) {
    (o in u <==> o in v) && (o in u ==> u[o] == v[o])
  }

  lemma SameEverywhere(u: Utxo, v: Utxo)
    requires forall o :: SameAt(u, v, o)
    ensures u == v
  {
    forall o | o in u ensures o in v && u[o] == v[o] {
      assert SameAt(u, v, o);
    }
    forall o | o in v ensures o in u {
      assert SameAt(u, v, o);
    }
  }

  lemma MergeOne(cache: CoinMap, below: Utxo, children: CoinMap, merged: CoinMap, o: OutPoint)
    requires Agrees(cache, below)
    requires IsMerged(cache, children, children.Keys, merged)
    requires o in children && children[o].isFresh ==> o !in Overlay(below, cache)
    ensures o in merged ==> EntryAgrees(merged[o], o, below)
    ensures SameAt(Overlay(below, merged), Overlay(Overlay(below, cache), DirtyOnly(children)), o)
  {
    assert o in cache ==> EntryAgrees(cache[o], o, below);
    assert At(merged, o) == if o in children && children[o].isDirty then Merge(At(cache, o), children[o]) else At(cache, o);
  }

  lemma MergeAgrees(cache: CoinMap, below: Utxo, children: CoinMap, merged: CoinMap)
    requires Agrees(cache, below)
    requires IsMerged(cache, children, children.Keys, merged)
    requires forall o | o in children && children[o].isFresh :: o !in Overlay(below, cache)
    ensures Agrees(merged, below)
  {
    forall o | o in merged ensures EntryAgrees(merged[o], o, below) {
      MergeOne(cache, below, children, merged, o);
    }
  }

  lemma MergeShows(cache: CoinMap, below: Utxo, children: CoinMap, merged: CoinMap, left: Utxo, right: Utxo)
    requires Agrees(cache, below)
    requires IsMerged(cache, children, children.Keys, merged)
    requires forall o | o in children && children[o].isFresh :: o !in Overlay(below, cache)
    requires left == Overlay(below, merged) && right == Overlay(Overlay(below, cache), DirtyOnly(children))
    ensures left == right
  {
    forall o ensures SameAt(left, right, o) {
      MergeOne(cache, below, children, merged, o);
    }
    SameEverywhere(left, right);
  }

  /** Writing children that agree on FRESH gives a cache that agrees with the same view below
      and shows the children on top of what was shown before. */
  lemma MergeAll(cache: CoinMap, below: Utxo, children: CoinMap, merged: CoinMap)
    requires Agrees(cache, below)
    requires IsMerged(cache, children, children.Keys, merged)
    requires forall o | o in children && children[o].isFresh :: o !in Overlay(below, cache)
    ensures Agrees(merged, below)
    ensures Overlay(below, merged) == Overlay(Overlay(below, cache), DirtyOnly(children))
  {
    MergeAgrees(cache, below, children, merged);
    MergeShows(cache, below, children, merged, Overlay(below, merged), Overlay(Overlay(below, cache), DirtyOnly(children)));
  }

  /** When the children agree with the parent's view no entry is misapplied. */
  lemma AgreeingIsNotMisapplied(cache: CoinMap, below: Utxo, children: CoinMap)
    requires Agrees(children, Overlay(below, cache))
    ensures !Misapplied(cache, children)
  {
    forall o | o in children ensures !MisappliedAt(cache, children, o) {
      assert EntryAgrees(children[o], o, Overlay(below, cache));
    }
  }

  lemma MergeAgreeing(cache: CoinMap, below: Utxo, children: CoinMap, merged: CoinMap)
    requires Agrees(cache, below)
    requires Agrees(children, Overlay(below, cache))
    requires IsMerged(cache, children, children.Keys, merged)
    ensures Agrees(merged, below)
    ensures Overlay(below, merged) == Overlay(Overlay(below, cache), children)
  {
    forall o | o in children && children[o].isFresh ensures o !in Overlay(below, cache) {
      assert EntryAgrees(children[o], o, Overlay(below, cache));
    }
    MergeAll(cache, below, children, merged);
    CleanEntriesAreInvisible(children, Overlay(below, cache));
  }

  lemma MergedStep(cache: CoinMap, children: CoinMap, done: set<OutPoint>, before: CoinMap, o: OutPoint, after: CoinMap)
    requires IsMerged(cache, children, done, before)
    requires o in children && o !in done
    requires At(after, o) == if children[o].isDirty then Merge(At(cache, o), children[o]) else At(cache, o)
    requires after - {o} == before - {o}
    ensures IsMerged(cache, children, done + {o}, after)
  {
    forall p ensures At(after, p) ==
      if p in done + {o} && p in children && children[p].isDirty then Merge(At(cache, p), children[p]) else At(cache, p)
    {
      if p != o {
        assert p in after - {o} <==> p in before - {o};
        assert At(after, p) == At(before, p);
      }
    }
  }

  /** The outputs of a transaction added to a view; unspendable ones are left out. */
  ghost function WithOutputs(view: Utxo, txid: Hash, outputs: seq<Coin>): Utxo
    decreases |outputs|
  {
    if outputs == [] then view else
    var n := |outputs| - 1;
    var rest := WithOutputs(view, txid, outputs[..n]);
    if outputs[n].unspendable then rest else rest[OutPoint(txid, n) := outputs[n]]
  }

  /** Every spendable output is in the view at its place, and no other outpoint changes. */
  lemma {:induction false} OutputsAreThere(view: Utxo, txid: Hash, outputs: seq<Coin>)
    ensures var after := WithOutputs(view, txid, outputs);
            && (forall i: nat | i < |outputs| && !outputs[i].unspendable ::
                  OutPoint(txid, i) in after && after[OutPoint(txid, i)] == outputs[i])
            && (forall o: OutPoint | !(o.txid == txid && 0 <= o.n < |outputs| && !outputs[o.n].unspendable) ::
                  (o in after <==> o in view) && (o in after ==> after[o] == view[o]))
    decreases |outputs|
  {
    if outputs != [] {
      OutputsAreThere(view, txid, outputs[..|outputs| - 1]);
    }
  }

  lemma {:induction false} OutputsAreLater(view: Utxo, txid: Hash, outputs: seq<Coin>, i: nat)
    requires |outputs| <= i
    ensures OutPoint(txid, i) in WithOutputs(view, txid, outputs) <==> OutPoint(txid, i) in view
    decreases |outputs|
  {
    if outputs != [] {
      OutputsAreLater(view, txid, outputs[..|outputs| - 1], i);
    }
  }

  // ---------------------------------------------------------------- the views

  /** The view at the bottom of a stack. It may keep entries for spent coins. */
  class CoinsDb {
    var coins: map<OutPoint, Coin>
    var best: Hash

    constructor ()
      ensures coins == map[] && best == 0
    {
      coins := map[];
      best := 0;
    }

    ghost function View(): Utxo
      reads this
    {
      Unspent(coins)
    }

    method GetCoin(o: OutPoint) returns (found: bool, coin: Coin)
      ensures found <==> o in coins
      ensures found ==> coin == coins[o] && Shows(View(), o, coin)
      ensures !found ==> o !in View()
    {
      if o in coins {
        found, coin := true, coins[o];
      } else {
        found, coin := false, CLEARED;
      }
    }

    /** Dirty entries are erased when spent and stored when not. */
    method BatchWrite(children: CoinMap, hashBlock: Hash)
      requires hashBlock != 0
      modifies this
      ensures best == hashBlock
      ensures View() == Overlay(old(View()), DirtyOnly(children))
    {
      hide Overlay, Unspent, Written;
      NothingWritten(coins, children);
      var todo := children.Keys;
      while todo != {}
        invariant todo <= children.Keys
        invariant best == old(best) && Written(old(coins), children, children.Keys - todo, coins)
        decreases todo
      {
        var o :| o in todo;
        WrittenStep(old(coins), children, children.Keys - todo, coins, o);
        assert children.Keys - todo + {o} == children.Keys - (todo - {o});
        if children[o].isDirty {
          if children[o].coin.IsSpent() {
            coins := coins - {o};
          } else {
            coins := coins[o := children[o].coin];
          }
        }
        todo := todo - {o};
      }
      best := hashBlock;
      assert children.Keys - todo == children.Keys;
      WrittenShows(old(coins), children, coins);
    }
  }

  ghost function Unspent(coins: map<OutPoint, Coin>): Utxo {
    map o | o in coins && !coins[o].IsSpent() :: coins[o]
  }

  ghost function Stored(coins: map<OutPoint, Coin>, o: OutPoint): Option<Coin> {
    if o in coins then Some(coins[o]) else None
  }

  /** The dirty children under `done` have been erased or stored. */
  ghost predicate Written(before: map<OutPoint, Coin>, children: CoinMap, done: set<OutPoint>, coins: map<OutPoint, Coin>) {
    forall o ::
      Stored(coins, o) ==
      if o in done && o in children && children[o].isDirty then
        if children[o].coin.IsSpent() then None else Some(children[o].coin)
      else Stored(before, o)
  }

  lemma NothingWritten(coins: map<OutPoint, Coin>, children: CoinMap)
    ensures Written(coins, children, children.Keys - children.Keys, coins)
  {
  }

  lemma WrittenStep(before: map<OutPoint, Coin>, children: CoinMap, done: set<OutPoint>, coins: map<OutPoint, Coin>, o: OutPoint)
    requires Written(before, children, done, coins) && o in children && o !in done
    ensures Written(before, children, done + {o},
                    if !children[o].isDirty then coins
                    else if children[o].coin.IsSpent() then coins - {o} else coins[o := children[o].coin])
  {
    var next := if !children[o].isDirty then coins
                else if children[o].coin.IsSpent() then coins - {o} else coins[o := children[o].coin];
    assert forall p | p != o :: Stored(next, p) == Stored(coins, p);
  }

  lemma WrittenShows(before: map<OutPoint, Coin>, children: CoinMap, coins: map<OutPoint, Coin>)
    requires Written(before, children, children.Keys, coins)
    ensures Unspent(coins) == Overlay(Unspent(before), DirtyOnly(children))
  {
    forall o ensures SameAt(Unspent(coins), Overlay(Unspent(before), DirtyOnly(children)), o) {
      assert Stored(coins, o) == Stored(coins, o);
    }
    SameEverywhere(Unspent(coins), Overlay(Unspent(before), DirtyOnly(children)));
  }

  /** A write-back cache over another cache, or over the database when `base` is null. */
  class CoinsCache {
    const db: CoinsDb
    const base: CoinsCache?
    /** The caches below this one. */
    ghost const lower: set<CoinsCache>

    var cacheCoins: CoinMap
    var cachedCoinsUsage: int
    var hashBlock: Hash

    /** What this cache shows; `Valid` ties it to the entries. */
    ghost var view: Utxo

    ghost predicate Linked()
      decreases lower
    {
      if base == null then lower == {} else
      && lower == {base} + base.lower
      && base !in base.lower
      && base.db == db
      && base.Linked()
    }

    lemma {:induction false} LowerLinked()
      requires Linked()
      ensures forall c | c in lower :: c.Linked() && c.lower <= lower && c.db == db
      decreases lower
    {
      if base != null {
        base.LowerLinked();
      }
    }

    lemma {:induction false} LowerBelow()
      requires Linked()
      ensures forall c | c in lower :: c !in c.lower
      decreases lower
    {
      if base != null {
        base.LowerBelow();
      }
    }

    ghost function Below(): Utxo
      reads db, base
    {
      if base == null then db.View() else base.view
    }

    /** The best block this cache reports. */
    ghost function Best(): Hash
      requires Linked()
      reads this, lower, db
      decreases lower
    {
      if hashBlock != 0 then hashBlock else if base == null then db.best else base.Best()
    }

    ghost predicate Valid()
      reads this, lower, db
      decreases lower
    {
      && Linked() && this !in lower
      && view == Overlay(Below(), cacheCoins)
      && Agrees(cacheCoins, Below())
      && cachedCoinsUsage == Usage(cacheCoins)
      && (base != null ==> base.Valid())
    }

    constructor (db: CoinsDb, base: CoinsCache?)
      requires base != null ==> base.Valid() && base.db == db
      ensures this.db == db && this.base == base
      ensures Valid()
      ensures view == Below() && cacheCoins == map[] && hashBlock == 0
    {
      this.db := db;
      this.base := base;
      this.lower := if base == null then {} else {base} + base.lower;
      cacheCoins := map[];
      cachedCoinsUsage := 0;
      hashBlock := 0;
      view := if base == null then db.View() else base.view;
      new;
      EmptyShowsBelow(Below());
    }

    /** The entry `FetchCoin` makes for a coin found below: clean, and FRESH when it is spent. */
    method Emplace(o: OutPoint, coin: Coin)
      requires Valid() && o !in cacheCoins && Shows(Below(), o, coin)
      modifies this
      ensures Valid() && view == old(view) && hashBlock == old(hashBlock)
      ensures cacheCoins == old(cacheCoins)[o := Entry(coin, false, coin.IsSpent())]
    {
      UsageUpdate(cacheCoins, o, Entry(coin, false, coin.IsSpent()));
      FetchIsInvisible(cacheCoins, Below(), o, coin);
      cacheCoins := cacheCoins[o := Entry(coin, false, coin.IsSpent())];
      cachedCoinsUsage := cachedCoinsUsage + coin.heap;
    }

    /** `FetchCoin`: bring the entry for `o` into this cache, and into those below on the way. */
    /** The cache has an entry, or the level below answers with a coin. */
    ghost predicate Findable(o: OutPoint)
      reads this, base, db
    {
      o in cacheCoins || if base == null then o in db.coins else o in base.view
    }

    method FetchCoin(o: OutPoint) returns (found: bool)
      requires Valid()
      modifies this, lower
      ensures Valid()
      ensures forall c | c in {this} + lower :: c.view == old(c.view) && c.hashBlock == old(c.hashBlock)
      ensures found <==> o in cacheCoins
      ensures found <==> old(Findable(o))
      ensures if found then Shows(view, o, cacheCoins[o].coin) else o !in view
      ensures cacheCoins == if found then old(cacheCoins)[o := cacheCoins[o]] else old(cacheCoins)
      ensures old(o in cacheCoins) ==> found && cacheCoins == old(cacheCoins)
      ensures found && !old(o in cacheCoins) ==>
                !cacheCoins[o].isDirty && (cacheCoins[o].isFresh <==> cacheCoins[o].coin.IsSpent())
      decreases lower, 0
    {
      if o in cacheCoins {
        return true;
      }
      var coin;
      if base == null {
        found, coin := db.GetCoin(o);
      } else {
        found, coin := base.GetCoin(o);
      }
      if found {
        Emplace(o, coin);
      }
    }

    method GetCoin(o: OutPoint) returns (found: bool, coin: Coin)
      requires Valid()
      modifies this, lower
      ensures Valid()
      ensures forall c | c in {this} + lower :: c.view == old(c.view) && c.hashBlock == old(c.hashBlock)
      ensures found <==> o in view
      ensures found ==> coin == view[o] && !coin.IsSpent()
      decreases lower, 1
    {
      found := FetchCoin(o);
      if !found {
        return false, CLEARED;
      }
      coin := cacheCoins[o].coin;
      found := !coin.IsSpent();
    }

    method HaveCoin(o: OutPoint) returns (have: bool)
      requires Valid()
      modifies this, lower
      ensures Valid()
      ensures forall c | c in {this} + lower :: c.view == old(c.view) && c.hashBlock == old(c.hashBlock)
      ensures have <==> o in view
    {
      have := FetchCoin(o);
      have := have && !cacheCoins[o].coin.IsSpent();
    }

    /** `AddCoin`. `ok` is false when the original throws. A coin whose script can never be
        spent is not stored. The layer stays consistent exactly when the caller's promise about
        overwriting holds, or the cache already had an entry. */
    method AddCoin(o: OutPoint, coin: Coin, possibleOverwrite: bool) returns (ok: bool)
      requires Valid() && !coin.IsSpent()
      modifies this
      ensures !ok <==> !coin.unspendable && !possibleOverwrite && old(o in cacheCoins && !cacheCoins[o].coin.IsSpent())
      ensures hashBlock == old(hashBlock)
      ensures view == if ok && !coin.unspendable then old(view)[o := coin] else old(view)
      ensures ok ==>
                (Valid() <==> coin.unspendable || possibleOverwrite || old(o in cacheCoins) || o !in old(Below()))
      ensures !ok ==> (Valid() <==> old(cacheCoins)[o].coin.heap == 0)
    {
      hide Overlay, Agrees, Usage;
      if coin.unspendable {
        return true;
      }
      var inserted := o !in cacheCoins;
      var entry := if inserted then Entry(CLEARED, false, false) else cacheCoins[o];
      if !inserted {
        cachedCoinsUsage := cachedCoinsUsage - entry.coin.heap;
      }
      var markFresh := false;
      if !possibleOverwrite {
        if !entry.coin.IsSpent() {
          return false;
        }
        markFresh := !entry.isDirty;
      }
      var e := Entry(coin, true, entry.isFresh || markFresh);
      UsageUpdate(cacheCoins, o, e);
      StoreShows(cacheCoins, Below(), o, e);
      AddAgrees(cacheCoins, Below(), o, e, possibleOverwrite);
      cacheCoins := cacheCoins[o := e];
      cachedCoinsUsage := cachedCoinsUsage + coin.heap;
      view := view[o := coin];
      return true;
    }

    /** `SpendCoin`, the part about coins. It also succeeds on an entry that is spent already. */
    method SpendCoin(o: OutPoint) returns (ok: bool, moved: Coin)
      requires Valid()
      modifies this, lower
      ensures Valid()
      ensures forall c | c in lower :: c.view == old(c.view) && c.hashBlock == old(c.hashBlock)
      ensures hashBlock == old(hashBlock)
      ensures view == old(view) - {o}
      ensures o in old(view) ==> ok && moved == old(view)[o]
      ensures o !in old(view) ==> moved.IsSpent()
      ensures ok <==> old(Findable(o))
    {
      ok := FetchCoin(o);
      if !ok {
        return false, CLEARED;
      }
      moved := cacheCoins[o].coin;
      MarkSpent(o);
    }

    /** The second half of `SpendCoin`: a FRESH entry is erased, any other becomes a dirty spent one. */
    method MarkSpent(o: OutPoint)
      requires Valid() && o in cacheCoins
      modifies this
      ensures Valid() && view == old(view) - {o} && hashBlock == old(hashBlock)
    {
      assert EntryAgrees(cacheCoins[o], o, Below());
      hide Overlay, Agrees;
      UsageUpdate(cacheCoins, o, Entry(CLEARED, true, false));
      cachedCoinsUsage := cachedCoinsUsage - cacheCoins[o].coin.heap;
      if cacheCoins[o].isFresh {
        EraseShows(cacheCoins, Below(), o);
        cacheCoins := cacheCoins - {o};
      } else {
        StoreShows(cacheCoins, Below(), o, Entry(CLEARED, true, false));
        cacheCoins := cacheCoins[o := Entry(CLEARED, true, false)];
      }
      view := view - {o};
    }

    /** `Uncache` drops an entry that carries no flag. */
    method Uncache(o: OutPoint)
      requires Valid()
      modifies this
      ensures Valid() && view == old(view) && hashBlock == old(hashBlock)
      ensures cacheCoins == if old(o in cacheCoins && !cacheCoins[o].isDirty && !cacheCoins[o].isFresh)
                            then old(cacheCoins) - {o} else old(cacheCoins)
    {
      if o in cacheCoins && !cacheCoins[o].isDirty && !cacheCoins[o].isFresh {
        assert EntryAgrees(cacheCoins[o], o, Below());
        UsageUpdate(cacheCoins, o, cacheCoins[o]);
        DropShows(cacheCoins, Below(), o);
        cachedCoinsUsage := cachedCoinsUsage - cacheCoins[o].coin.heap;
        cacheCoins := cacheCoins - {o};
      }
    }

    /** The loop of `BatchWrite`. `ok` is false when the original throws, which happens exactly
        when some child entry is marked FRESH over an unspent cached coin. */
    method WriteEntries(children: CoinMap) returns (ok: bool)
      requires cachedCoinsUsage == Usage(cacheCoins)
      modifies this`cacheCoins, this`cachedCoinsUsage
      ensures ok <==> !Misapplied(old(cacheCoins), children)
      ensures ok ==> cachedCoinsUsage == Usage(cacheCoins)
      ensures ok ==> IsMerged(old(cacheCoins), children, children.Keys, cacheCoins)
    {
      hide Usage;
      var todo := children.Keys;
      while todo != {}
        invariant todo <= children.Keys
        invariant IsMerged(old(cacheCoins), children, children.Keys - todo, cacheCoins)
        invariant cachedCoinsUsage == Usage(cacheCoins)
        invariant forall o | o in children && o !in todo :: !MisappliedAt(old(cacheCoins), children, o)
        decreases todo
      {
        var o :| o in todo;
        var child := children[o];
        ghost var before := cacheCoins;
        assert At(cacheCoins, o) == At(old(cacheCoins), o);
        if child.isDirty {
          UsageUpdate(cacheCoins, o, Entry(child.coin, true, child.isFresh));
          if o !in cacheCoins {
            if !(child.isFresh && child.coin.IsSpent()) {
              cacheCoins := cacheCoins[o := Entry(child.coin, true, child.isFresh)];
              cachedCoinsUsage := cachedCoinsUsage + child.coin.heap;
            }
          } else {
            if child.isFresh && !cacheCoins[o].coin.IsSpent() {
              assert MisappliedAt(old(cacheCoins), children, o);
              return false;
            }
            cachedCoinsUsage := cachedCoinsUsage - cacheCoins[o].coin.heap;
            if cacheCoins[o].isFresh && child.coin.IsSpent() {
              cacheCoins := cacheCoins - {o};
            } else {
              UsageUpdate(cacheCoins, o, Entry(child.coin, true, cacheCoins[o].isFresh));
              cacheCoins := cacheCoins[o := Entry(child.coin, true, cacheCoins[o].isFresh)];
              cachedCoinsUsage := cachedCoinsUsage + child.coin.heap;
            }
          }
        }
        MergedStep(old(cacheCoins), children, children.Keys - todo, before, o, cacheCoins);
        assert children.Keys - todo + {o} == children.Keys - (todo - {o});
        todo := todo - {o};
      }
      ok := true;
      assert children.Keys - todo == children.Keys;
    }

    /** `BatchWrite` into a cache. Children that agree with this cache's view never make it throw. */
    method BatchWrite(children: CoinMap, hashBlockIn: Hash) returns (ok: bool)
      requires Valid()
      modifies this
      ensures ok <==> !Misapplied(old(cacheCoins), children)
      ensures ok ==> hashBlock == hashBlockIn && cachedCoinsUsage == Usage(cacheCoins)
      ensures ok ==> IsMerged(old(cacheCoins), children, children.Keys, cacheCoins)
      ensures Agrees(children, old(view)) ==> ok && Valid() && view == Overlay(old(view), children)
    {
      hide Overlay, Agrees, Usage, IsMerged, Misapplied;
      ghost var before, below := cacheCoins, Below();
      ok := WriteEntries(children);
      if ok {
        hashBlock := hashBlockIn;
      }
      if Agrees(children, view) {
        AgreeingIsNotMisapplied(before, below, children);
        MergeAgreeing(before, below, children, cacheCoins);
        view := Overlay(view, children);
      }
    }

    /** `Flush`: the level below takes over this cache's view and block hash. It cannot throw.
        The database refuses a null block hash. */
    method Flush() returns (ok: bool)
      requires Valid()
      requires base == null ==> hashBlock != 0
      modifies this, base, db
      ensures ok && Valid() && cacheCoins == map[]
      ensures view == old(view) && Below() == view && hashBlock == old(hashBlock)
      ensures base == null ==> db.best == hashBlock
      ensures base != null ==> base.hashBlock == hashBlock && unchanged(db)
    {
      if base == null {
        CleanEntriesAreInvisible(cacheCoins, Below());
        db.BatchWrite(cacheCoins, hashBlock);
        ok := true;
      } else {
        ok := base.BatchWrite(cacheCoins, hashBlock);
      }
      cacheCoins := map[];
      cachedCoinsUsage := 0;
      EmptyShowsBelow(Below());
    }

    /** No level from this one down to the one above `c` has a block hash. */
    ghost predicate Reaches(c: CoinsCache)
      reads this, lower
    {
      forall d | d in {this} + lower && c in d.lower :: d.hashBlock == 0
    }

    /** `GetBestBlock` copies the hash of the nearest level that has one to the levels above that one
        and to no others; no level reports another best block because of it. */
    method GetBestBlock() returns (h: Hash)
      requires Valid()
      modifies this, lower
      ensures Valid()
      ensures forall c | c in {this} + lower :: c.view == old(c.view)
      ensures forall c | c in {this} + lower && c.Linked() :: c.Best() == old(c.Best())
      ensures forall c | c in {this} + lower && c.Linked() ::
                c.hashBlock == if old(c.hashBlock == 0 && Reaches(c)) then old(c.Best()) else old(c.hashBlock)
      ensures h == hashBlock == Best()
      decreases lower
    {
      hide Overlay, Agrees, Usage;
      LowerLinked();
      if hashBlock == 0 {
        if base == null {
          hashBlock := db.best;
        } else {
          assert forall c | c in lower :: Reaches(c) <==> base.Reaches(c);
          hashBlock := base.GetBestBlock();
        }
      }
      h := hashBlock;
    }

    method SetBestBlock(h: Hash)
      requires Valid()
      modifies this`hashBlock
      ensures Valid() && hashBlock == h
    {
      hashBlock := h;
    }

    /** `AddCoins`, the part about coins: every output of a transaction becomes a coin. Asking the
        view first (`check`) makes the additions safe on every view; without it they are safe for
        a coinbase, and for a transaction whose outputs are not in the view. */
    method AddCoins(txid: Hash, outputs: seq<Coin>, fCoinbase: bool, check: bool) returns (ok: bool)
      requires Valid()
      requires forall i | 0 <= i < |outputs| :: !outputs[i].IsSpent()
      requires check || fCoinbase || forall i | 0 <= i < |outputs| :: OutPoint(txid, i) !in view
      modifies this, lower
      ensures ok && Valid()
      ensures forall c | c in lower :: c.view == old(c.view) && c.hashBlock == old(c.hashBlock)
      ensures hashBlock == old(hashBlock)
      ensures view == WithOutputs(old(view), txid, outputs)
      ensures forall i: nat | i < |outputs| && !outputs[i].unspendable ::
                OutPoint(txid, i) in view && view[OutPoint(txid, i)] == outputs[i]
      ensures forall o: OutPoint | !(o.txid == txid && 0 <= o.n < |outputs| && !outputs[o.n].unspendable) ::
                (o in view <==> o in old(view)) && (o in view ==> view[o] == old(view)[o])
    {
      hide Overlay, Agrees, Usage;
      var i := 0;
      while i < |outputs|
        invariant 0 <= i <= |outputs|
        invariant Valid() && hashBlock == old(hashBlock)
        invariant forall c | c in lower :: c.view == old(c.view) && c.hashBlock == old(c.hashBlock)
        invariant view == WithOutputs(old(view), txid, outputs[..i])
      {
        OutputsAreLater(old(view), txid, outputs[..i], i);
        var overwrite := fCoinbase;
        if check {
          overwrite := HaveCoin(OutPoint(txid, i));
        }
        if OutPoint(txid, i) !in view {
          CachedIsShown(OutPoint(txid, i));
        }
        ok := AddCoin(OutPoint(txid, i), outputs[i], overwrite);
        assert outputs[..i + 1][..i] == outputs[..i];
        i := i + 1;
      }
      assert outputs[..i] == outputs;
      OutputsAreThere(old(view), txid, outputs);
      ok := true;
    }

    /** An outpoint that the view does not have is neither unspent in the cache nor below without
        an entry. */
    lemma CachedIsShown(o: OutPoint)
      requires Valid() && o !in view
      ensures o in cacheCoins ==> cacheCoins[o].coin.IsSpent()
      ensures o !in cacheCoins ==> o !in Below()
    {
    }
  }

  // ---------------------------------------------------------------- runs

  /** What can happen to a stack. `Push` puts a new cache on top, `Discard` throws the top one
      away without flushing it. */
  datatype Op =
    | Fetch(o: OutPoint)
    | Add(o: OutPoint, coin: Coin, possibleOverwrite: bool)
    | Spend(o: OutPoint)
    | Evict(o: OutPoint)
    | SetBest(h: Hash)
    | GetBest
    | FlushTop
    | Push
    | Discard

  /** The stack without caching: one plain map and one block hash per level, the database first. */
  datatype Plain = Plain(views: seq<Utxo>, heads: seq<Hash>) {
    ghost predicate Ok() {
      |views| == |heads| >= 2
    }
  }

  ghost function Last<T>(s: seq<T>): T
    requires s != []
  {
    s[|s| - 1]
  }

  /** The best block that level `i` reports. */
  ghost function BestAt(heads: seq<Hash>, i: nat): Hash
    requires i < |heads|
  {
    if i == 0 || heads[i] != 0 then heads[i] else BestAt(heads, i - 1)
  }

  ghost predicate NoneFrom(heads: seq<Hash>, i: nat) {
    forall j | i <= j < |heads| :: heads[j] == 0
  }

  /** The hashes after the top level was asked for its best block: the levels without a hash under which
      none is found before the top have the one that they report. */
  ghost function WithBest(heads: seq<Hash>): seq<Hash> {
    seq(|heads|, i requires 0 <= i < |heads| => if i > 0 && NoneFrom(heads, i) then BestAt(heads, i) else heads[i])
  }

  /** Asking for the best block changes no answer to that question. */
  lemma {:induction false} AskingIsSafe(heads: seq<Hash>, i: nat)
    requires i < |heads|
    ensures BestAt(WithBest(heads), i) == BestAt(heads, i)
    ensures i == |heads| - 1 && i > 0 ==> WithBest(heads)[i] == BestAt(heads, i)
  {
    if i > 0 {
      AskingIsSafe(heads, i - 1);
    }
  }

  /** The effect of an operation on the plain maps. */
  ghost function Step(p: Plain, op: Op): (q: Plain)
    requires p.Ok()
    ensures q.Ok()
  {
    var n := |p.views|;
    match op
    case Fetch(_) => p
    case Evict(_) => p
    case Add(o, coin, _) => if coin.unspendable then p else p.(views := p.views[n - 1 := p.views[n - 1][o := coin]])
    case Spend(o) => p.(views := p.views[n - 1 := p.views[n - 1] - {o}])
    case SetBest(h) => p.(heads := p.heads[n - 1 := h])
    case GetBest => p.(heads := WithBest(p.heads))
    case FlushTop => Plain(p.views[n - 2 := p.views[n - 1]], p.heads[n - 2 := p.heads[n - 1]])
    case Push => Plain(p.views + [p.views[n - 1]], p.heads + [0])
    case Discard => if n > 2 then Plain(p.views[..n - 1], p.heads[..n - 1]) else p
  }

  /** What the caller of an operation must keep: only unspent coins are added, an addition that
      is not announced as an overwrite replaces nothing, and the database is flushed to with a
      block hash. */
  ghost predicate Promise(p: Plain, op: Op)
    requires p.Ok()
  {
    match op
    case Add(o, coin, possibleOverwrite) => !coin.IsSpent() && (possibleOverwrite || o !in Last(p.views))
    case FlushTop => |p.views| == 2 ==> Last(p.heads) != 0
    case _ => true
  }

  ghost function Exec(p: Plain, ops: seq<Op>): (q: Plain)
    requires p.Ok()
    ensures q.Ok()
    decreases |ops|
  {
    if ops == [] then p else Step(Exec(p, ops[..|ops| - 1]), Last(ops))
  }

  ghost predicate Promises(p: Plain, ops: seq<Op>)
    requires p.Ok()
  {
    forall i | 0 <= i < |ops| :: Promise(Exec(p, ops[..i]), ops[i])
  }

  ghost predicate BaseAt(stack: seq<CoinsCache>, i: nat)
    requires i < |stack|
  {
    stack[i].base == if i == 0 then null else stack[i - 1]
  }

  /** `stack` lists the caches from the one over the database to the top one. */
  ghost predicate IsStack(stack: seq<CoinsCache>)
    reads stack
    reads if stack == [] then {} else Last(stack).lower
    reads if stack == [] then {} else {Last(stack).db}
  {
    stack != [] && Last(stack).Valid() && Layered(stack)
  }

  ghost predicate Layered(stack: seq<CoinsCache>) {
    && (forall i | 0 <= i < |stack| :: stack[i].db == stack[0].db)
    && (forall i | 0 <= i < |stack| :: BaseAt(stack, i))
    && (forall i, j | 0 <= i < j < |stack| :: stack[i] in stack[j].lower)
  }

  /** The caches an operation on `stack` may change. */
  ghost function FrameOf(stack: seq<CoinsCache>): set<CoinsCache>
    requires stack != []
  {
    {Last(stack)} + Last(stack).lower
  }

  ghost predicate Represents(stack: seq<CoinsCache>, p: Plain)
    requires stack != []
    reads stack, stack[0].db
  {
    && |p.views| == |p.heads| == |stack| + 1
    && p.views[0] == stack[0].db.View()
    && p.heads[0] == stack[0].db.best
    && (forall i | 0 <= i < |stack| :: stack[i].view == p.views[i + 1])
    && (forall i | 0 <= i < |stack| :: stack[i].hashBlock == p.heads[i + 1])
  }

  method ApplyQuiet(stack: seq<CoinsCache>, op: Op, ghost p: Plain)
    requires IsStack(stack) && Represents(stack, p) && Promise(p, op)
    requires op.Fetch? || op.Evict?
    modifies FrameOf(stack), Last(stack).db
    ensures IsStack(stack) && Represents(stack, Step(p, op))
  {
    var top := stack[|stack| - 1];
    if op.Fetch? {
      var _ := top.FetchCoin(op.o);
    } else {
      top.Uncache(op.o);
    }
  }

  method ApplyAdd(stack: seq<CoinsCache>, op: Op, ghost p: Plain)
    requires IsStack(stack) && Represents(stack, p) && Promise(p, op)
    requires op.Add?
    modifies FrameOf(stack), Last(stack).db
    ensures IsStack(stack) && Represents(stack, Step(p, op))
  {
    hide Layered, CoinsCache.Valid;
    var top := stack[|stack| - 1];
    TopTwo(stack);
    if op.o !in top.view {
      top.CachedIsShown(op.o);
    }
    var _ := top.AddCoin(op.o, op.coin, op.possibleOverwrite);
  }

  method ApplySpend(stack: seq<CoinsCache>, op: Op, ghost p: Plain)
    requires IsStack(stack) && Represents(stack, p) && Promise(p, op)
    requires op.Spend?
    modifies FrameOf(stack), Last(stack).db
    ensures IsStack(stack) && Represents(stack, Step(p, op))
  {
    hide Layered, CoinsCache.Valid;
    var top := stack[|stack| - 1];
    TopTwo(stack);
    var _, _ := top.SpendCoin(op.o);
  }

  /** The two levels that a flush changes. */
  lemma TopTwo(stack: seq<CoinsCache>)
    requires IsStack(stack)
    ensures var n := |stack| - 1;
            && stack[n].db == stack[0].db
            && (if n == 0 then stack[n].base == null else stack[n].base == stack[n - 1] && stack[n - 1] in stack[n].lower)
            && (forall i | 0 <= i < n :: stack[i] != stack[n])
            && (forall i | 0 <= i < n - 1 :: stack[i] != stack[n - 1])
  {
    var n := |stack| - 1;
    IsChained(stack);
    LinkAt(stack, n);
    if n > 0 {
      LinkAt(stack, n - 1);
    }
  }

  method ApplyFlush(stack: seq<CoinsCache>, op: Op, ghost p: Plain)
    requires IsStack(stack) && Represents(stack, p) && Promise(p, op)
    requires op.FlushTop?
    modifies FrameOf(stack), Last(stack).db
    ensures IsStack(stack) && Represents(stack, Step(p, op))
  {
    hide Layered, CoinsCache.Valid;
    var top := stack[|stack| - 1];
    TopTwo(stack);
    var _ := top.Flush();
  }

  ghost predicate Chained(stack: seq<CoinsCache>) {
    forall i | 0 <= i < |stack| :: BaseAt(stack, i) && stack[i].Linked() && stack[i].db == stack[0].db && stack[i] !in stack[i].lower
  }

  lemma IsChained(stack: seq<CoinsCache>)
    requires IsStack(stack)
    ensures Chained(stack)
  {
    var top := Last(stack);
    top.LowerLinked();
    forall i | 0 <= i < |stack| ensures stack[i].Linked() && stack[i] !in stack[i].lower {
      assert i < |stack| - 1 ==> stack[i] in top.lower;
      top.LowerBelow();
    }
  }

  lemma LinkAt(stack: seq<CoinsCache>, j: nat)
    requires Chained(stack) && j < |stack|
    ensures stack[j].Linked() && stack[j].db == stack[0].db && stack[j] !in stack[j].lower
    ensures j == 0 ==> stack[j].base == null && stack[j].lower == {}
    ensures j > 0 ==> stack[j].base == stack[j - 1] && stack[j].lower == {stack[j - 1]} + stack[j - 1].lower
  {
    assert BaseAt(stack, j);
  }

  lemma {:induction false} StackLower(stack: seq<CoinsCache>, j: nat)
    requires Chained(stack) && j < |stack|
    ensures forall i | 0 <= i < j :: stack[i] in stack[j].lower
    ensures forall c | c in stack[j].lower :: c in stack[..j]
  {
    hide Chained;
    LinkAt(stack, j);
    if j > 0 {
      StackLower(stack, j - 1);
      assert stack[..j] == stack[..j - 1] + [stack[j - 1]];
    }
  }

  lemma {:induction false} StackBest(stack: seq<CoinsCache>, p: Plain, j: nat)
    requires Chained(stack) && j < |stack| && Represents(stack, p)
    ensures stack[j].Linked() && stack[j].Best() == BestAt(p.heads, j + 1)
  {
    hide Chained;
    LinkAt(stack, j);
    assert stack[j].hashBlock == p.heads[j + 1];
    if j > 0 {
      StackBest(stack, p, j - 1);
    }
  }

  /** What the top of a stack reaches, in terms of the hashes. */
  lemma StackReaches(stack: seq<CoinsCache>, p: Plain, j: nat)
    requires Chained(stack) && j < |stack| && Represents(stack, p)
    ensures stack[j].hashBlock == 0 && Last(stack).Reaches(stack[j]) <==> NoneFrom(p.heads, j + 1)
  {
    hide Chained;
    var top := Last(stack);
    assert stack[j].hashBlock == p.heads[j + 1];
    StackLower(stack, |stack| - 1);
    if stack[j].hashBlock == 0 && top.Reaches(stack[j]) {
      forall k | j + 1 < k < |p.heads| ensures p.heads[k] == 0 {
        StackLower(stack, k - 1);
        assert stack[k - 1].hashBlock == p.heads[k];
      }
    }
    if NoneFrom(p.heads, j + 1) {
      forall d | d in {top} + top.lower && stack[j] in d.lower ensures d.hashBlock == 0 {
        assert d in stack;
        var k :| 0 <= k < |stack| && stack[k] == d;
        NotUnderItself(stack, j, k);
        assert stack[k].hashBlock == p.heads[k + 1];
      }
    }
  }

  lemma NotUnderItself(stack: seq<CoinsCache>, j: nat, k: nat)
    requires Chained(stack) && j < |stack| && k < |stack| && stack[j] in stack[k].lower
    ensures j < k
  {
    hide Chained;
    if k <= j {
      LinkAt(stack, j);
      LinkAt(stack, k);
      StackLower(stack, j);
      StackLower(stack, k);
      LowerOfLower(stack, k, j);
      assert false;
    }
  }

  lemma {:induction false} LowerOfLower(stack: seq<CoinsCache>, k: nat, j: nat)
    requires Chained(stack) && k <= j < |stack|
    ensures stack[k].lower <= stack[j].lower
  {
    hide Chained;
    LinkAt(stack, j);
    if k < j {
      LowerOfLower(stack, k, j - 1);
    }
  }

  method ApplyGetBest(stack: seq<CoinsCache>, ghost p: Plain)
    requires IsStack(stack) && Represents(stack, p)
    modifies FrameOf(stack), Last(stack).db
    ensures IsStack(stack) && Represents(stack, Step(p, GetBest))
  {
    hide BestAt, NoneFrom, Chained, Layered, CoinsCache.Valid, CoinsCache.Reaches;
    IsChained(stack);
    forall j: nat | j < |stack|
      ensures stack[j].Linked() && stack[j].Best() == BestAt(p.heads, j + 1)
      ensures stack[j].hashBlock == 0 && Last(stack).Reaches(stack[j]) <==> NoneFrom(p.heads, j + 1)
      ensures stack[j] in FrameOf(stack)
    {
      StackBest(stack, p, j);
      StackReaches(stack, p, j);
      StackLower(stack, |stack| - 1);
    }
    var _ := stack[|stack| - 1].GetBestBlock();
    assert stack[0].db.best == p.heads[0];
  }

  method ApplySetBest(stack: seq<CoinsCache>, op: Op, ghost p: Plain)
    requires IsStack(stack) && Represents(stack, p) && op.SetBest?
    modifies FrameOf(stack), Last(stack).db
    ensures IsStack(stack) && Represents(stack, Step(p, op))
  {
    hide Layered, CoinsCache.Valid;
    TopTwo(stack);
    stack[|stack| - 1].SetBestBlock(op.h);
  }

  method ApplyPush(stack: seq<CoinsCache>, ghost p: Plain) returns (next: seq<CoinsCache>)
    requires IsStack(stack) && Represents(stack, p)
    ensures IsStack(next) && Represents(next, Step(p, Push)) && Last(next).db == Last(stack).db
    ensures fresh(FrameOf(next) - FrameOf(stack))
  {
    var top := stack[|stack| - 1];
    var c := new CoinsCache(top.db, top);
    next := stack + [c];
    forall i | 0 <= i < |next| ensures BaseAt(next, i) {
      assert i < |stack| ==> BaseAt(stack, i);
    }
  }

  method ApplyDiscard(stack: seq<CoinsCache>, ghost p: Plain) returns (next: seq<CoinsCache>)
    requires IsStack(stack) && Represents(stack, p)
    ensures IsStack(next) && Represents(next, Step(p, Discard)) && Last(next).db == Last(stack).db
    ensures FrameOf(next) <= FrameOf(stack)
  {
    next := stack;
    if |stack| > 1 {
      assert BaseAt(stack, |stack| - 1);
      next := stack[..|stack| - 1];
      forall i | 0 <= i < |next| ensures BaseAt(next, i) {
        assert BaseAt(stack, i);
      }
    }
  }

  /** One operation on the caches is one step on the plain maps. */
  method Apply(stack: seq<CoinsCache>, op: Op, ghost p: Plain) returns (next: seq<CoinsCache>)
    requires IsStack(stack) && Represents(stack, p) && Promise(p, op)
    modifies FrameOf(stack), Last(stack).db
    ensures IsStack(next) && Represents(next, Step(p, op)) && Last(next).db == Last(stack).db
    ensures fresh(FrameOf(next) - FrameOf(stack))
  {
    hide Layered, Represents, CoinsCache.Valid, Step;
    next := stack;
    match op {
      case Fetch(_) => ApplyQuiet(stack, op, p);
      case Evict(_) => ApplyQuiet(stack, op, p);
      case Add(_, _, _) => ApplyAdd(stack, op, p);
      case Spend(_) => ApplySpend(stack, op, p);
      case SetBest(_) => ApplySetBest(stack, op, p);
      case GetBest => ApplyGetBest(stack, p);
      case FlushTop => ApplyFlush(stack, op, p);
      case Push => next := ApplyPush(stack, p);
      case Discard => next := ApplyDiscard(stack, p);
    }
  }

  /** Whatever is done to a stack of any depth, in any order and any number of times, every level
      of it shows what the plain maps say. */
  method Run(stack: seq<CoinsCache>, ops: seq<Op>, ghost p: Plain) returns (next: seq<CoinsCache>)
    requires IsStack(stack) && Represents(stack, p) && p.Ok() && Promises(p, ops)
    modifies FrameOf(stack), Last(stack).db
    ensures IsStack(next) && Represents(next, Exec(p, ops))
  {
    hide Layered, Represents, Step;
    next := stack;
    var i := 0;
    while i < |ops|
      invariant 0 <= i <= |ops|
      invariant IsStack(next) && Represents(next, Exec(p, ops[..i])) && Last(next).db == Last(stack).db
      invariant fresh(FrameOf(next) - FrameOf(stack))
    {
      assert ops[..i + 1][..i] == ops[..i];
      next := Apply(next, ops[i], Exec(p, ops[..i]));
      i := i + 1;
    }
    assert ops[..i] == ops;
  }

  // ---------------------------------------------------------------- working on a temporary cache

  lemma {:induction false} ExecConcat(p: Plain, a: seq<Op>, b: seq<Op>)
    requires p.Ok()
    ensures Exec(p, a + b) == Exec(Exec(p, a), b)
    decreases |b|
  {
    if b == [] {
      assert a + b == a;
    } else {
      var b' := b[..|b| - 1];
      assert (a + b)[..|a + b| - 1] == a + b';
      ExecConcat(p, a, b');
    }
  }

  /** An operation that only concerns the top level. */
  ghost predicate Local(op: Op) {
    op.Fetch? || op.Add? || op.Spend? || op.Evict? || op.SetBest?
  }

  ghost predicate AllLocal(ops: seq<Op>) {
    forall i | 0 <= i < |ops| :: Local(ops[i])
  }

  /** What local operations make of the view of the top level. */
  ghost function TopAfter(view: Utxo, ops: seq<Op>): Utxo
    decreases |ops|
  {
    if ops == [] then view else
    var before := TopAfter(view, ops[..|ops| - 1]);
    match Last(ops)
    case Add(o, coin, _) => if coin.unspendable then before else before[o := coin]
    case Spend(o) => before - {o}
    case _ => before
  }

  /** What local operations make of the block hash of the top level. */
  ghost function HeadAfter(head: Hash, ops: seq<Op>): Hash
    decreases |ops|
  {
    if ops == [] then head else
    match Last(ops)
    case SetBest(h) => h
    case _ => HeadAfter(head, ops[..|ops| - 1])
  }

  /** Local operations change the top level alone. */
  lemma {:induction false} LocalRun(p: Plain, ops: seq<Op>)
    requires p.Ok() && AllLocal(ops)
    ensures var n := |p.views| - 1;
            Exec(p, ops) == Plain(p.views[..n] + [TopAfter(p.views[n], ops)], p.heads[..n] + [HeadAfter(p.heads[n], ops)])
    decreases |ops|
  {
    if ops != [] {
      LocalRun(p, ops[..|ops| - 1]);
      assert Local(Last(ops));
    }
  }

  lemma {:induction false} HeadAfterDiffers(head: Hash, ops: seq<Op>)
    ensures HeadAfter(0, ops) == HeadAfter(head, ops) <==> head == 0 || exists i :: 0 <= i < |ops| && ops[i].SetBest?
    decreases |ops|
  {
    if ops != [] {
      HeadAfterDiffers(head, ops[..|ops| - 1]);
      assert ops == ops[..|ops| - 1] + [Last(ops)];
    }
  }

  lemma PushThenLocal(p: Plain, ops: seq<Op>)
    requires p.Ok() && AllLocal(ops)
    ensures Exec(p, [Push] + ops) == Plain(p.views + [TopAfter(Last(p.views), ops)], p.heads + [HeadAfter(0, ops)])
  {
    hide Exec, TopAfter, HeadAfter;
    var q := Step(p, Push);
    OneStep(p, Push);
    ExecConcat(p, [Push], ops);
    LocalRun(q, ops);
    assert q.views[..|p.views|] == p.views && q.heads[..|p.views|] == p.heads;
  }

  lemma OneStep(p: Plain, op: Op)
    requires p.Ok()
    ensures Exec(p, [op]) == Step(p, op)
  {
    hide Step;
    assert [op][..0] == [];
  }

  /** Throwing a temporary cache away undoes everything done on it. */
  lemma DiscardUndoes(p: Plain, ops: seq<Op>)
    requires p.Ok() && AllLocal(ops)
    ensures Exec(p, [Push] + ops + [Discard]) == p
  {
    PushThenLocal(p, ops);
    assert ([Push] + ops + [Discard])[..|ops| + 1] == [Push] + ops;
  }

  /** Flushing a temporary cache leaves the coins that working on the stack directly leaves. It
      leaves the same block hashes exactly when the temporary cache was given one or there was
      none to lose: otherwise flushing erases the hash of the level below. */
  lemma FlushIsDirectWork(p: Plain, ops: seq<Op>)
    requires p.Ok() && AllLocal(ops)
    ensures Exec(p, [Push] + ops + [FlushTop, Discard]).views == Exec(p, ops).views
    ensures Exec(p, [Push] + ops + [FlushTop, Discard]).heads == Exec(p, ops).heads <==>
            Last(p.heads) == 0 || exists i :: 0 <= i < |ops| && ops[i].SetBest?
  {
    hide Exec, TopAfter, HeadAfter, Step;
    var n := |p.views| - 1;
    Flushed(p, ops);
    LocalRun(p, ops);
    HeadAfterDiffers(Last(p.heads), ops);
    LastDecides(p.heads[..n], HeadAfter(0, ops), HeadAfter(Last(p.heads), ops));
  }

  lemma Flushed(p: Plain, ops: seq<Op>)
    requires p.Ok() && AllLocal(ops)
    ensures var n := |p.views| - 1;
            Exec(p, [Push] + ops + [FlushTop, Discard]) ==
            Plain(p.views[..n] + [TopAfter(p.views[n], ops)], p.heads[..n] + [HeadAfter(0, ops)])
  {
    hide Exec, TopAfter, HeadAfter, Step, AllLocal;
    PushThenLocal(p, ops);
    TwoMore(p, [Push] + ops, FlushTop, Discard);
    FlushAndDiscard(p.views, p.heads, TopAfter(Last(p.views), ops), HeadAfter(0, ops));
  }

  lemma TwoMore(p: Plain, ops: seq<Op>, a: Op, b: Op)
    requires p.Ok()
    ensures Exec(p, ops + [a, b]) == Step(Step(Exec(p, ops), a), b)
  {
    hide Step;
    assert (ops + [a, b])[..|ops| + 1] == ops + [a] && (ops + [a])[..|ops|] == ops;
    assert Exec(p, ops + [a]) == Step(Exec(p, ops), a);
  }

  lemma FlushAndDiscard(views: seq<Utxo>, heads: seq<Hash>, view: Utxo, head: Hash)
    requires |views| == |heads| >= 2
    ensures var n := |views| - 1;
            Step(Step(Plain(views + [view], heads + [head]), FlushTop), Discard) ==
            Plain(views[..n] + [view], heads[..n] + [head])
  {
    var n := |views| - 1;
    assert (views + [view])[n := view][..n + 1] == views[..n] + [view];
    assert (heads + [head])[n := head][..n + 1] == heads[..n] + [head];
  }

  lemma LastDecides<T>(s: seq<T>, x: T, y: T)
    ensures s + [x] == s + [y] <==> x == y
  {
    assert (s + [x])[|s|] == x && (s + [y])[|s|] == y;
  }
}
