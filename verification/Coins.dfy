/**
 The UTXO cache hierarchy: a database of coins below any number of write-back caches
 (`src/coins.h`, `src/coins.cpp`).

 This module is the specification. A stack of views is a value, each operation of
 `CCoinsViewCache` is a function on such values, and the lemmas show that the stack behaves
 like a list of flat maps from outpoints to unspent coins, one map per level. The class in
 CoinsViewCache.dfy performs the same operations in place and is proved against these functions.
 */
module Coins {
  import opened Basics

  datatype OutPoint = OutPoint(hash: nat, n: nat)

  const OP_RETURN: nat := 0x6a
  const MAX_SCRIPT_SIZE: nat := 10000

  /** A scriptPubKey together with the heap memory its buffer occupies. */
  datatype Script = Script(bytes: seq<nat>, heap: nat) {
    predicate IsUnspendable() {
      (|bytes| > 0 && bytes[0] == OP_RETURN) || |bytes| > MAX_SCRIPT_SIZE
    }
  }

  datatype Coin = Coin(nValue: int, scriptPubKey: Script, nHeight: nat, fCoinBase: bool, fPegout: bool) {
    predicate IsSpent() { nValue == -1 }
    function DynamicMemoryUsage(): nat { scriptPubKey.heap }
  }

  /** What `Coin::Clear` leaves behind; it is also the default-constructed coin. */
  const NullCoin := Coin(-1, Script([], 0), 0, false, false)

  datatype CacheEntry = CacheEntry(coin: Coin, isDirty: bool, isFresh: bool)

  type CoinsMap = map<OutPoint, CacheEntry>

  /** A view is the database at the bottom or a cache on top of another view. */
  datatype View =
    | Database(coins: map<OutPoint, Coin>)
    | Cache(base: View, cacheCoins: CoinsMap, usage: int)

  // ----- What a stack of views means -----

  function Unspent(coins: map<OutPoint, Coin>): map<OutPoint, Coin> {
    map o | o in coins && !coins[o].IsSpent() :: coins[o]
  }

  function UnspentEntries(m: CoinsMap): map<OutPoint, Coin> {
    map o | o in m && !m[o].coin.IsSpent() :: m[o].coin
  }

  /** A flat map seen through a cache: the cache's entries hide what is below them. */
  function Overlay(below: map<OutPoint, Coin>, m: CoinsMap): map<OutPoint, Coin> {
    (below - m.Keys) + UnspentEntries(m)
  }

  /** The flat map of unspent coins that a view stands for. */
  function Flat(v: View): map<OutPoint, Coin> {
    match v
    case Database(coins) => Unspent(coins)
    case Cache(base, m, _) => Overlay(Flat(base), m)
  }

  /** The flat maps of every level, the top one first. */
  function Flats(v: View): (fs: seq<map<OutPoint, Coin>>)
    ensures |fs| == Depth(v) + 1 && fs[0] == Flat(v)
  {
    match v
    case Database(_) => [Flat(v)]
    case Cache(base, _, _) => [Flat(v)] + Flats(base)
  }

  /** The number of caches in a stack. */
  function Depth(v: View): nat {
    match v
    case Database(_) => 0
    case Cache(base, _, _) => 1 + Depth(base)
  }

  /** The five combinations of spent, FRESH and DIRTY that `CCoinsCacheEntry` documents as valid. */
  predicate DocumentedState(e: CacheEntry) {
    if e.coin.IsSpent() then e.isFresh != e.isDirty else e.isFresh ==> e.isDirty
  }

  /** What DIRTY and FRESH promise about one cache entry, given the view below it. */
  predicate EntryOk(below: map<OutPoint, Coin>, o: OutPoint, e: CacheEntry) {
    && DocumentedState(e)
    && (e.isFresh ==> o !in below)
    && (!e.isDirty ==> if e.coin.IsSpent() then o !in below else o in below && below[o] == e.coin)
  }

  ghost predicate EntriesOk(below: map<OutPoint, Coin>, m: CoinsMap) {
    forall o | o in m :: EntryOk(below, o, m[o])
  }

  /** Total heap memory of the coins in a cache map. */
  ghost function Usage(m: CoinsMap): nat {
    if m == map[] then 0
    else var o :| o in m; m[o].coin.DynamicMemoryUsage() + Usage(m - {o})
  }

  /** The invariant of a whole stack: every flag is truthful and every memory counter is exact. */
  ghost predicate Inv(v: View) {
    match v
    case Database(_) => true
    case Cache(base, m, usage) => Inv(base) && EntriesOk(Flat(base), m) && usage == Usage(m)
  }

  // ----- The operations -----

  /** `GetCoin`: a database answers with what it stores, a cache only with unspent coins. */
  function GetCoin(v: View, o: OutPoint): (r: (Option<Coin>, View))
    decreases v, 1
  {
    match v
    case Database(coins) => (if o in coins then Some(coins[o]) else None, v)
    case Cache(_, _, _) =>
      var w := FetchCoin(v, o);
      (if o in w.cacheCoins && !w.cacheCoins[o].coin.IsSpent() then Some(w.cacheCoins[o].coin) else None, w)
  }

  /** `FetchCoin`: pulls the coin from the view below into the cache, if it is there. */
  function FetchCoin(v: View, o: OutPoint): (w: View)
    requires v.Cache?
    ensures w.Cache?
    decreases v, 0
  {
    if o in v.cacheCoins then v
    else
      var (found, base) := GetCoin(v.base, o);
      match found
      case None => Cache(base, v.cacheCoins, v.usage)
      case Some(coin) =>
        Cache(base, v.cacheCoins[o := CacheEntry(coin, false, coin.IsSpent())], v.usage + coin.DynamicMemoryUsage())
  }

  /** `AddCoin`; `None` is the exception raised when an unspent coin in the cache would be overwritten. */
  function AddCoin(v: View, o: OutPoint, coin: Coin, possibleOverwrite: bool): (r: Option<View>)
    requires v.Cache?
    requires !coin.IsSpent()
    ensures r.Some? ==> r.value.Cache?
  {
    if coin.scriptPubKey.IsUnspendable() then Some(v)
    else
      var before := if o in v.cacheCoins then v.cacheCoins[o] else CacheEntry(NullCoin, false, false);
      if !possibleOverwrite && !before.coin.IsSpent() then None
      else
        var isFresh := !possibleOverwrite && !before.isDirty;
        Some(Cache(v.base,
                   v.cacheCoins[o := CacheEntry(coin, true, before.isFresh || isFresh)],
                   v.usage - before.coin.DynamicMemoryUsage() + coin.DynamicMemoryUsage()))
  }

  /** `SpendCoin`: the result says whether an entry was found, and carries the coin it held. */
  function SpendCoin(v: View, o: OutPoint): (r: (Option<Coin>, View))
    requires v.Cache?
    ensures r.1.Cache?
  {
    var w := FetchCoin(v, o);
    (if o in w.cacheCoins then Some(w.cacheCoins[o].coin) else None, EraseEntry(w, o))
  }

  /** A FRESH entry is dropped, any other entry is nulled out and marked DIRTY. */
  function EraseEntry(w: View, o: OutPoint): (r: View)
    requires w.Cache?
    ensures r.Cache?
  {
    if o !in w.cacheCoins then w
    else
      var usage := w.usage - w.cacheCoins[o].coin.DynamicMemoryUsage();
      if w.cacheCoins[o].isFresh then Cache(w.base, w.cacheCoins - {o}, usage)
      else Cache(w.base, w.cacheCoins[o := CacheEntry(NullCoin, true, false)], usage)
  }

  /** The exceptional case of `BatchWrite`: a child's FRESH entry meets an unspent coin in its parent. */
  predicate Misapplied(parent: CoinsMap, child: CoinsMap, o: OutPoint) {
    o in child && child[o].isDirty && child[o].isFresh && o in parent && !parent[o].coin.IsSpent()
  }

  ghost predicate NoneMisapplied(parent: CoinsMap, child: CoinsMap) {
    forall o :: !Misapplied(parent, child, o)
  }

  /** What `BatchWrite` leaves in the parent cache at one outpoint. */
  function MergeEntry(parent: CoinsMap, child: CoinsMap, o: OutPoint): Option<CacheEntry> {
    var mine := if o in parent then Some(parent[o]) else None;
    if o !in child || !child[o].isDirty then mine
    else
      var e := child[o];
      match mine
      case None => if e.isFresh && e.coin.IsSpent() then None else Some(CacheEntry(e.coin, true, e.isFresh))
      case Some(p) => if p.isFresh && e.coin.IsSpent() then None else Some(CacheEntry(e.coin, true, p.isFresh))
  }

  function Merge(parent: CoinsMap, child: CoinsMap): CoinsMap {
    map o | o in parent.Keys + child.Keys && MergeEntry(parent, child, o).Some? :: MergeEntry(parent, child, o).value
  }

  /** What the database's own `BatchWrite` stores: dirty entries only, spent ones as erasures. */
  function WriteDatabase(coins: map<OutPoint, Coin>, child: CoinsMap): map<OutPoint, Coin> {
    var written := map o | o in child && child[o].isDirty :: child[o].coin;
    (coins - written.Keys) + Unspent(written)
  }

  /** `BatchWrite` of a child's entries; `None` is the "FRESH flag misapplied" exception. */
  ghost function BatchWrite(v: View, child: CoinsMap): (r: Option<View>) {
    match v
    case Database(coins) => Some(Database(WriteDatabase(coins, child)))
    case Cache(base, m, usage) =>
      if !NoneMisapplied(m, child) then None
      else Some(Cache(base, Merge(m, child), usage + Usage(Merge(m, child)) - Usage(m)))
  }

  /** `Flush`: push everything down and start again with an empty cache. */
  ghost function Flush(v: View): (r: Option<View>)
    requires v.Cache?
  {
    match BatchWrite(v.base, v.cacheCoins)
    case None => None
    case Some(base) => Some(Cache(base, map[], 0))
  }

  /** `Uncache`: forget an entry that carries no flags. */
  function Uncache(v: View, o: OutPoint): (w: View)
    requires v.Cache?
    ensures w.Cache?
  {
    if o in v.cacheCoins && !v.cacheCoins[o].isDirty && !v.cacheCoins[o].isFresh then
      Cache(v.base, v.cacheCoins - {o}, v.usage - v.cacheCoins[o].coin.DynamicMemoryUsage())
    else v
  }

  // ----- Memory accounting -----

  lemma {:induction false} UsageRemove(m: CoinsMap, o: OutPoint)
    requires o in m
    ensures Usage(m) == m[o].coin.DynamicMemoryUsage() + Usage(m - {o})
    decreases |m|
  {
    var p :| p in m && Usage(m) == m[p].coin.DynamicMemoryUsage() + Usage(m - {p});
    if p != o {
      UsageRemove(m - {p}, o);
      UsageRemove(m - {o}, p);
      assert m - {p} - {o} == m - {o} - {p};
    }
  }

  lemma UsageUpdate(m: CoinsMap, o: OutPoint, e: CacheEntry)
    ensures Usage(m[o := e]) == Usage(m - {o}) + e.coin.DynamicMemoryUsage()
  {
    UsageRemove(m[o := e], o);
    assert m[o := e] - {o} == m - {o};
  }

  lemma UsagePut(m: CoinsMap, o: OutPoint, e: CacheEntry)
    ensures Usage(m[o := e]) ==
            Usage(m) - (if o in m then m[o].coin.DynamicMemoryUsage() else 0) + e.coin.DynamicMemoryUsage()
  {
    UsageUpdate(m, o, e);
    if o in m {
      UsageRemove(m, o);
    } else {
      assert m - {o} == m;
    }
  }

  // ----- How an overlay changes with its cache -----

  lemma OverlayUpdate(below: map<OutPoint, Coin>, m: CoinsMap, o: OutPoint, e: CacheEntry)
    ensures Overlay(below, m[o := e]) ==
            if e.coin.IsSpent() then Overlay(below, m) - {o} else Overlay(below, m)[o := e.coin]
  {
  }

  lemma OverlayRemove(below: map<OutPoint, Coin>, m: CoinsMap, o: OutPoint)
    ensures Overlay(below, m - {o}) ==
            if o in below then Overlay(below, m)[o := below[o]] else Overlay(below, m) - {o}
  {
  }

  lemma OverlayEraseFresh(below: map<OutPoint, Coin>, m: CoinsMap, o: OutPoint)
    requires EntriesOk(below, m) && o in m && m[o].isFresh
    ensures EntriesOk(below, m - {o})
    ensures Overlay(below, m - {o}) == Overlay(below, m) - {o}
    ensures Usage(m - {o}) == Usage(m) - m[o].coin.DynamicMemoryUsage()
  {
    assert EntryOk(below, o, m[o]);
    OverlayRemove(below, m, o);
    UsageRemove(m, o);
  }

  lemma OverlayEraseClean(below: map<OutPoint, Coin>, m: CoinsMap, o: OutPoint)
    requires EntriesOk(below, m) && o in m && !m[o].isDirty
    ensures EntriesOk(below, m - {o})
    ensures Overlay(below, m - {o}) == Overlay(below, m)
    ensures Usage(m - {o}) == Usage(m) - m[o].coin.DynamicMemoryUsage()
  {
    assert EntryOk(below, o, m[o]);
    OverlayRemove(below, m, o);
    UsageRemove(m, o);
  }

  lemma OverlayPut(below: map<OutPoint, Coin>, m: CoinsMap, o: OutPoint, e: CacheEntry)
    requires EntriesOk(below, m) && EntryOk(below, o, e)
    ensures EntriesOk(below, m[o := e])
    ensures Overlay(below, m[o := e]) ==
            if e.coin.IsSpent() then Overlay(below, m) - {o} else Overlay(below, m)[o := e.coin]
    ensures Usage(m[o := e]) ==
            Usage(m) - (if o in m then m[o].coin.DynamicMemoryUsage() else 0) + e.coin.DynamicMemoryUsage()
  {
    OverlayUpdate(below, m, o, e);
    UsagePut(m, o, e);
  }

  /** The heart of `BatchWrite`, at one outpoint: merging keeps flags truthful and means overlaying twice. */
  lemma MergeEntryOk(below: map<OutPoint, Coin>, parent: CoinsMap, child: CoinsMap, o: OutPoint)
    requires o in parent ==> EntryOk(below, o, parent[o])
    requires o in child ==> EntryOk(Overlay(below, parent), o, child[o])
    ensures !Misapplied(parent, child, o)
    ensures o in Merge(parent, child) ==> EntryOk(below, o, Merge(parent, child)[o])
    ensures o in Overlay(below, Merge(parent, child)) <==> o in Overlay(Overlay(below, parent), child)
    ensures o in Overlay(below, Merge(parent, child)) ==>
              Overlay(below, Merge(parent, child))[o] == Overlay(Overlay(below, parent), child)[o]
  {
    assert o in Merge(parent, child) <==> MergeEntry(parent, child, o).Some?;
  }

  lemma MergeOk(below: map<OutPoint, Coin>, parent: CoinsMap, child: CoinsMap)
    requires EntriesOk(below, parent) && EntriesOk(Overlay(below, parent), child)
    ensures NoneMisapplied(parent, child)
    ensures EntriesOk(below, Merge(parent, child))
    ensures Overlay(below, Merge(parent, child)) == Overlay(Overlay(below, parent), child)
  {
    forall o
      ensures !Misapplied(parent, child, o)
      ensures o in Merge(parent, child) ==> EntryOk(below, o, Merge(parent, child)[o])
      ensures o in Overlay(below, Merge(parent, child)) <==> o in Overlay(Overlay(below, parent), child)
      ensures o in Overlay(below, Merge(parent, child)) ==>
                Overlay(below, Merge(parent, child))[o] == Overlay(Overlay(below, parent), child)[o]
    {
      MergeEntryOk(below, parent, child, o);
    }
  }

  // ----- Each operation keeps the invariant and has its flat meaning -----

  /** Reading never changes what any level means, and answers with the flat map's coin. */
  lemma {:induction false} GetCoinFlat(v: View, o: OutPoint)
    requires Inv(v)
    ensures Inv(GetCoin(v, o).1)
    ensures Flats(GetCoin(v, o).1) == Flats(v)
    ensures o in Flat(v) ==> GetCoin(v, o).0 == Some(Flat(v)[o])
    ensures o !in Flat(v) ==> GetCoin(v, o).0.None? || GetCoin(v, o).0.value.IsSpent()
    ensures v.Cache? && o !in Flat(v) ==> GetCoin(v, o).0.None?
    decreases v, 1
  {
    if v.Cache? {
      FetchCoinFlat(v, o);
    }
  }

  lemma {:induction false} FetchCoinFlat(v: View, o: OutPoint)
    requires v.Cache? && Inv(v)
    ensures Inv(FetchCoin(v, o))
    ensures Flats(FetchCoin(v, o)) == Flats(v)
    ensures o in Flat(v) <==> o in FetchCoin(v, o).cacheCoins && !FetchCoin(v, o).cacheCoins[o].coin.IsSpent()
    ensures o in Flat(v) ==> Flat(v)[o] == FetchCoin(v, o).cacheCoins[o].coin
    decreases v, 0
  {
    if o !in v.cacheCoins {
      GetCoinFlat(v.base, o);
      var (found, base) := GetCoin(v.base, o);
      SameTop(base, v.base);
      if found.Some? {
        PutCleanFlat(v, o, CacheEntry(found.value, false, found.value.IsSpent()));
      }
    }
  }

  /** An entry that copies what is below changes the meaning of nothing. */
  lemma PutCleanFlat(v: View, o: OutPoint, e: CacheEntry)
    requires v.Cache? && Inv(v) && o !in v.cacheCoins && !e.isDirty
    requires EntryOk(Flat(v.base), o, e)
    ensures EntriesOk(Flat(v.base), v.cacheCoins[o := e])
    ensures Overlay(Flat(v.base), v.cacheCoins[o := e]) == Flat(v)
    ensures Usage(v.cacheCoins[o := e]) == v.usage + e.coin.DynamicMemoryUsage()
  {
    OverlayPut(Flat(v.base), v.cacheCoins, o, e);
  }

  /** A successful `AddCoin` of a coin that was absent, or of any coin when overwriting is allowed. */
  lemma AddCoinFlat(v: View, o: OutPoint, coin: Coin, possibleOverwrite: bool)
    requires v.Cache? && Inv(v) && !coin.IsSpent()
    requires !possibleOverwrite ==> o !in Flat(v)
    ensures AddCoin(v, o, coin, possibleOverwrite).Some?
    ensures Inv(AddCoin(v, o, coin, possibleOverwrite).value)
    ensures Flats(AddCoin(v, o, coin, possibleOverwrite).value) == Flats(v)[0 := FlatAdd(Flat(v), o, coin)]
  {
    if coin.scriptPubKey.IsUnspendable() {
      assert Flats(v)[0 := Flat(v)] == Flats(v);
    } else {
      var e := EntryAdded(v, o, coin, possibleOverwrite);
      PutEntryFlat(v, o, e);
    }
  }

  /** The entry that `AddCoin` writes has truthful flags. */
  lemma EntryAdded(v: View, o: OutPoint, coin: Coin, possibleOverwrite: bool) returns (e: CacheEntry)
    requires v.Cache? && Inv(v) && !coin.IsSpent() && !coin.scriptPubKey.IsUnspendable()
    requires !possibleOverwrite ==> o !in Flat(v)
    ensures EntryOk(Flat(v.base), o, e) && e.coin == coin
            && AddCoin(v, o, coin, possibleOverwrite) == Some(Put(v, o, e))
  {
    var below, m := Flat(v.base), v.cacheCoins;
    var before := if o in m then m[o] else CacheEntry(NullCoin, false, false);
    e := CacheEntry(coin, true, before.isFresh || (!possibleOverwrite && !before.isDirty));
    FlagsAdded(below, m, o, before, e.isFresh, possibleOverwrite);
    UsagePut(m, o, e);
    assert NullCoin.DynamicMemoryUsage() == 0;
  }

  /** FRESH is claimed only for a coin that is not below. */
  lemma FlagsAdded(below: map<OutPoint, Coin>, m: CoinsMap, o: OutPoint, before: CacheEntry, isFresh: bool,
                   possibleOverwrite: bool)
    requires EntriesOk(below, m) && before == if o in m then m[o] else CacheEntry(NullCoin, false, false)
    requires isFresh == (before.isFresh || (!possibleOverwrite && !before.isDirty))
    requires !possibleOverwrite ==> o !in Overlay(below, m)
    ensures isFresh ==> o !in below
    ensures !possibleOverwrite ==> before.coin.IsSpent()
  {
    if o in m {
      assert EntryOk(below, o, m[o]);
      assert !m[o].coin.IsSpent() ==> o in Overlay(below, m);
    } else {
      assert o in below ==> o in Overlay(below, m);
    }
  }

  /** A cache with one entry written, and its memory counter kept exact. */
  ghost function Put(v: View, o: OutPoint, e: CacheEntry): (w: View)
    requires v.Cache?
    ensures w.Cache? && w.base == v.base
  {
    Cache(v.base, v.cacheCoins[o := e], Usage(v.cacheCoins[o := e]))
  }

  lemma PutEntryFlat(v: View, o: OutPoint, e: CacheEntry)
    requires v.Cache? && Inv(v) && EntryOk(Flat(v.base), o, e) && !e.coin.IsSpent()
    ensures Inv(Put(v, o, e)) && Flats(Put(v, o, e)) == Flats(v)[0 := Flat(v)[o := e.coin]]
  {
    OverlayPut(Flat(v.base), v.cacheCoins, o, e);
    ReplaceTop(v, Put(v, o, e));
  }

  /** Without `possible_overwrite`, `AddCoin` succeeds with truthful flags exactly when the coin was absent. */
  lemma AddCoinExact(v: View, o: OutPoint, coin: Coin)
    requires v.Cache? && Inv(v) && !coin.IsSpent() && !coin.scriptPubKey.IsUnspendable()
    ensures AddCoin(v, o, coin, false).Some? && Inv(AddCoin(v, o, coin, false).value) <==> o !in Flat(v)
  {
    if o !in Flat(v) {
      AddCoinFlat(v, o, coin, false);
    } else if o !in v.cacheCoins {
      var w := AddCoin(v, o, coin, false).value;
      assert !EntryOk(Flat(w.base), o, w.cacheCoins[o]);
    }
  }

  lemma SpendCoinFlat(v: View, o: OutPoint)
    requires v.Cache? && Inv(v)
    ensures Inv(SpendCoin(v, o).1)
    ensures Flats(SpendCoin(v, o).1) == Flats(v)[0 := Flat(v) - {o}]
    ensures o in Flat(v) ==> SpendCoin(v, o).0 == Some(Flat(v)[o])
  {
    FetchCoinFlat(v, o);
    var w := FetchCoin(v, o);
    SameTop(v, w);
    EraseEntryFlat(w, o);
    ReplaceTop(w, EraseEntry(w, o));
  }

  lemma SameTop(v: View, w: View)
    requires Flats(v) == Flats(w)
    ensures Flat(v) == Flat(w)
  {
    assert Flat(v) == Flats(v)[0];
  }

  lemma ReplaceTop(v: View, w: View)
    requires v.Cache? && w.Cache? && v.base == w.base
    ensures Flats(w) == Flats(v)[0 := Flat(w)]
  {
  }

  /** The second half of `SpendCoin`, after the fetch. */
  lemma EraseEntryFlat(w: View, o: OutPoint)
    requires w.Cache? && Inv(w)
    requires o in Flat(w) ==> o in w.cacheCoins
    ensures Inv(EraseEntry(w, o))
    ensures EraseEntry(w, o).base == w.base
    ensures Flat(EraseEntry(w, o)) == Flat(w) - {o}
  {
    if o !in w.cacheCoins {
      assert Flat(w) - {o} == Flat(w);
    } else if w.cacheCoins[o].isFresh {
      OverlayEraseFresh(Flat(w.base), w.cacheCoins, o);
    } else {
      OverlayPut(Flat(w.base), w.cacheCoins, o, CacheEntry(NullCoin, true, false));
    }
  }

  lemma UncacheFlat(v: View, o: OutPoint)
    requires v.Cache? && Inv(v)
    ensures Inv(Uncache(v, o))
    ensures Flats(Uncache(v, o)) == Flats(v)
  {
    if o in v.cacheCoins && !v.cacheCoins[o].isDirty {
      OverlayEraseClean(Flat(v.base), v.cacheCoins, o);
    }
  }

  /** Writing a truthful child never raises the exception and makes the parent mean what the child meant. */
  lemma BatchWriteFlat(v: View, child: CoinsMap)
    requires Inv(v) && EntriesOk(Flat(v), child)
    ensures BatchWrite(v, child).Some?
    ensures Inv(BatchWrite(v, child).value)
    ensures Flats(BatchWrite(v, child).value) == Flats(v)[0 := Overlay(Flat(v), child)]
  {
    if v.Cache? {
      MergeOk(Flat(v.base), v.cacheCoins, child);
      var w := Cache(v.base, Merge(v.cacheCoins, child), Usage(Merge(v.cacheCoins, child)));
      assert BatchWrite(v, child) == Some(w);
      assert Flat(w) == Overlay(Flat(v), child);
    } else {
      WriteDatabaseFlat(v.coins, child);
    }
  }

  lemma WriteDatabaseFlat(coins: map<OutPoint, Coin>, child: CoinsMap)
    requires EntriesOk(Unspent(coins), child)
    ensures Unspent(WriteDatabase(coins, child)) == Overlay(Unspent(coins), child)
  {
    forall o | o in child ensures EntryOk(Unspent(coins), o, child[o]) {}
  }

  /** `Flush` never raises, keeps the invariant, and only the level just below changes meaning. */
  lemma FlushFlat(v: View)
    requires v.Cache? && Inv(v)
    ensures Flush(v).Some?
    ensures Inv(Flush(v).value)
    ensures Flats(Flush(v).value) == Flats(v)[1 := Flat(v)]
  {
    BatchWriteFlat(v.base, v.cacheCoins);
    var base := BatchWrite(v.base, v.cacheCoins).value;
    assert Usage(map[]) == 0;
    FlushedFlats(v, base);
  }

  lemma FlushedFlats(v: View, base: View)
    requires v.Cache? && Flats(base) == Flats(v.base)[0 := Flat(v)]
    ensures Flats(Cache(base, map[], 0)) == Flats(v)[1 := Flat(v)]
  {
    OpenFlat(base);
    assert Flats(v) == [Flat(v)] + Flats(v.base);
    assert Flats(Cache(base, map[], 0)) == [Flat(v)] + Flats(base);
  }

  /** A new, empty cache on top of a view means what the view means. */
  lemma OpenFlat(v: View)
    ensures Flat(Cache(v, map[], 0)) == Flat(v)
    ensures Flats(Cache(v, map[], 0)) == [Flats(v)[0]] + Flats(v)
  {
    assert Overlay(Flat(v), map[]) == Flat(v);
  }

  // ----- Runs: operations at any level of a stack of any depth -----

  datatype Op =
    | Read(o: OutPoint)
    | Add(o: OutPoint, coin: Coin, possibleOverwrite: bool)
    | Spend(o: OutPoint)
    | Drop(o: OutPoint)
    | WriteBack

  /** A step performs an operation on the cache `level` places below the top, opens a cache, or discards one. */
  datatype Step = At(level: nat, op: Op) | Open | Discard

  ghost function Apply(v: View, op: Op): Option<View>
    requires v.Cache?
    requires op.Add? ==> !op.coin.IsSpent()
  {
    match op
    case Read(o) => Some(GetCoin(v, o).1)
    case Add(o, coin, possibleOverwrite) => AddCoin(v, o, coin, possibleOverwrite)
    case Spend(o) => Some(SpendCoin(v, o).1)
    case Drop(o) => Some(Uncache(v, o))
    case WriteBack => Flush(v)
  }

  ghost function ApplyAt(v: View, level: nat, op: Op): Option<View>
    requires level < Depth(v)
    requires op.Add? ==> !op.coin.IsSpent()
  {
    if level == 0 then Apply(v, op)
    else
      match ApplyAt(v.base, level - 1, op)
      case None => None
      case Some(base) => Some(Cache(base, v.cacheCoins, v.usage))
  }

  /** Whether the top of a stack sees a change made `level` places below: no cache above has its own change pending. */
  predicate Sees(v: View, level: nat, o: OutPoint)
    requires level <= Depth(v)
  {
    level == 0 || (Sees(v.base, level - 1, o) && !(o in v.cacheCoins && v.cacheCoins[o].isDirty))
  }

  /** The topmost level that sees the change. */
  function Top(v: View, level: nat, o: OutPoint): (top: nat)
    requires level <= Depth(v)
    ensures top <= level
  {
    if Sees(v, level, o) then 0 else 1 + Top(v.base, level - 1, o)
  }

  /** Whether an operation changes a coin at all. */
  predicate Changes(op: Op) { op.Spend? || (op.Add? && !op.coin.scriptPubKey.IsUnspendable()) }

  /** An entry for the changed coin, in the first cache above the change: do its flags stay truthful? */
  predicate StaysTrue(e: CacheEntry, op: Op)
    requires Changes(op)
  {
    if op.Spend? then e.isDirty || e.coin.IsSpent() else !e.isFresh && (e.isDirty || e.coin == op.coin)
  }

  /** No cache that sees the change holds an entry that the change makes untrue. */
  predicate CopiesStayTrue(v: View, level: nat, op: Op)
    requires level <= Depth(v) && Changes(op)
  {
    level == 0 ||
    (CopiesStayTrue(v.base, level - 1, op) &&
     (Sees(v.base, level - 1, op.o) && op.o in v.cacheCoins ==> StaysTrue(v.cacheCoins[op.o], op)))
  }

  /** The steps there are: on a cache of the stack, with an unspent coin to add. */
  predicate Possible(v: View, s: Step) {
    match s
    case Open => true
    case Discard => v.Cache?
    case At(level, op) => level < Depth(v) && (op.Add? ==> !op.coin.IsSpent())
  }

  /** What the callers of the cache must respect; `AllowedExactly` shows that it is no more than necessary. */
  predicate Allowed(v: View, s: Step) {
    && Possible(v, s)
    && (s.At? && Changes(s.op) ==>
          && (s.op.Add? && !s.op.possibleOverwrite ==> s.op.o !in Flats(v)[s.level])
          && CopiesStayTrue(v, s.level, s.op))
  }

  ghost function Next(v: View, s: Step): Option<View>
    requires Possible(v, s)
  {
    match s
    case Open => Some(Cache(v, map[], 0))
    case Discard => Some(v.base)
    case At(level, op) => ApplyAt(v, level, op)
  }

  function FlatAdd(f: map<OutPoint, Coin>, o: OutPoint, coin: Coin): map<OutPoint, Coin> {
    if coin.scriptPubKey.IsUnspendable() then f else f[o := coin]
  }

  /** What an operation does to a flat map at or above the level it is performed on. */
  function FlatOp(f: map<OutPoint, Coin>, op: Op): map<OutPoint, Coin> {
    match op
    case Add(o, coin, _) => FlatAdd(f, o, coin)
    case Spend(o) => f - {o}
    case Read(_) => f
    case Drop(_) => f
    case WriteBack => f
  }

  /** How far up the change of a step is seen. */
  function TopOf(v: View, s: Step): nat
    requires Possible(v, s)
  {
    if s.At? && Changes(s.op) then Top(v, s.level, s.op.o) else 0
  }

  /** An operation on the maps from its own level up to the topmost level that sees it. */
  function FlatAt(fs: seq<map<OutPoint, Coin>>, level: nat, op: Op, top: nat): seq<map<OutPoint, Coin>>
    requires level + 1 < |fs| && top <= level
  {
    if op.WriteBack? then fs[level + 1 := fs[level]]
    else seq(|fs|, i requires 0 <= i < |fs| => if top <= i <= level then FlatOp(fs[i], op) else fs[i])
  }

  /** The reference: a plain list of flat maps, in which reading and uncaching do nothing at all. */
  function FlatNext(fs: seq<map<OutPoint, Coin>>, s: Step, top: nat): seq<map<OutPoint, Coin>>
    requires |fs| > 0
    requires s.At? ==> s.level + 1 < |fs| && top <= s.level
  {
    match s
    case Open => [fs[0]] + fs
    case Discard => fs[1..]
    case At(level, op) => FlatAt(fs, level, op, top)
  }

  /** A change of the base at one outpoint that the cache does not hold shows through the cache. */
  lemma OverlayThrough(f: map<OutPoint, Coin>, g: map<OutPoint, Coin>, m: CoinsMap, o: OutPoint)
    requires o !in m && EntriesOk(f, m)
    requires f - {o} == g - {o}
    ensures EntriesOk(g, m)
    ensures o !in g ==> Overlay(g, m) == Overlay(f, m) - {o}
    ensures o in g ==> Overlay(g, m) == Overlay(f, m)[o := g[o]]
  {
    SameElsewhere(f, g, o);
    FlagsThrough(f, g, m, o);
  }

  lemma FlagsThrough(f: map<OutPoint, Coin>, g: map<OutPoint, Coin>, m: CoinsMap, o: OutPoint)
    requires o !in m && EntriesOk(f, m) && f - {o} == g - {o}
    ensures EntriesOk(g, m)
  {
    SameElsewhere(f, g, o);
    forall p | p in m ensures EntryOk(g, p, m[p]) { assert EntryOk(f, p, m[p]); }
  }

  lemma SameElsewhere(f: map<OutPoint, Coin>, g: map<OutPoint, Coin>, o: OutPoint)
    requires f - {o} == g - {o}
    ensures forall p | p != o :: (p in f <==> p in g) && (p in f ==> f[p] == g[p])
  {
    forall p | p != o
      ensures p in f <==> p in g
      ensures p in f ==> f[p] == g[p]
    {
      assert p in f <==> p in f - {o};
      assert p in g <==> p in g - {o};
      assert p in f ==> (f - {o})[p] == f[p];
    }
  }

  /** A change of the base at one outpoint that the cache holds is hidden; only that entry can become untrue. */
  lemma OverlayHidden(f: map<OutPoint, Coin>, g: map<OutPoint, Coin>, m: CoinsMap, o: OutPoint)
    requires o in m && EntriesOk(f, m)
    requires f - {o} == g - {o}
    ensures EntriesOk(g, m) <==> EntryOk(g, o, m[o])
    ensures Overlay(g, m) == Overlay(f, m)
  {
    SameElsewhere(f, g, o);
    if EntryOk(g, o, m[o]) {
      forall p | p in m ensures EntryOk(g, p, m[p]) { assert EntryOk(f, p, m[p]); }
    }
  }

  lemma ApplyFlat(v: View, op: Op)
    requires v.Cache? && Inv(v)
    requires Allowed(v, At(0, op))
    ensures Apply(v, op).Some?
    ensures Inv(Apply(v, op).value)
    ensures Flats(Apply(v, op).value) == FlatAt(Flats(v), 0, op, 0)
  {
    match op
    case Read(o) => GetCoinFlat(v, o);
    case Add(o, coin, possibleOverwrite) =>
      if !coin.scriptPubKey.IsUnspendable() { AddCoinFlat(v, o, coin, possibleOverwrite); }
    case Spend(o) => SpendCoinFlat(v, o);
    case Drop(o) => UncacheFlat(v, o);
    case WriteBack => FlushFlat(v);
  }

  /** What an entry becomes when the coin below it changes. */
  lemma StaysTrueExactly(f: map<OutPoint, Coin>, op: Op, e: CacheEntry)
    requires Changes(op) && EntryOk(f, op.o, e) && (op.Add? ==> !op.coin.IsSpent())
    ensures EntryOk(FlatOp(f, op), op.o, e) <==> StaysTrue(e, op)
  {
  }

  /** Replacing the view below a cache by one in which a coin changed: flags and meaning, with an entry or without. */
  lemma LiftChange(v: View, base: View, op: Op)
    requires v.Cache? && Inv(v) && Inv(base) && Changes(op) && (op.Add? ==> !op.coin.IsSpent())
    requires Flat(base) == FlatOp(Flat(v.base), op)
    ensures var w := Cache(base, v.cacheCoins, v.usage);
      var dirty := op.o in v.cacheCoins && v.cacheCoins[op.o].isDirty;
      && (Inv(w) <==> (op.o in v.cacheCoins ==> StaysTrue(v.cacheCoins[op.o], op)))
      && (Inv(w) ==> Flat(w) == if dirty then Flat(v) else FlatOp(Flat(v), op))
  {
    var f, g, m, o := Flat(v.base), Flat(base), v.cacheCoins, op.o;
    assert f - {o} == g - {o};
    if o in m {
      OverlayHidden(f, g, m, o);
      StaysTrueExactly(f, op, m[o]);
      if StaysTrue(m[o], op) && !m[o].isDirty { CleanCopy(f, m, op); }
    } else {
      OverlayThrough(f, g, m, o);
    }
  }

  /** A clean copy that stays true already says what the change says. */
  lemma CleanCopy(f: map<OutPoint, Coin>, m: CoinsMap, op: Op)
    requires Changes(op) && op.o in m && !m[op.o].isDirty && EntryOk(f, op.o, m[op.o]) && StaysTrue(m[op.o], op)
    requires op.Add? ==> !op.coin.IsSpent()
    ensures FlatOp(Overlay(f, m), op) == Overlay(f, m)
  {
  }

  /** The reference on a list with one more level on top. */
  lemma FlatAtCons(f: map<OutPoint, Coin>, fs: seq<map<OutPoint, Coin>>, level: nat, op: Op, top: nat)
    requires 0 < level < |fs| && top <= level
    ensures FlatAt([f] + fs, level, op, top) ==
            [if op.WriteBack? || top > 0 then f else FlatOp(f, op)] + FlatAt(fs, level - 1, op, if top > 0 then top - 1
              else 0)
  {
    var all, rest := [f] + fs, FlatAt(fs, level - 1, op, if top > 0 then top - 1 else 0);
    var left := FlatAt(all, level, op, top);
    assert |left| == 1 + |rest| && forall i | 0 < i < |all| :: all[i] == fs[i - 1];
    assert forall i | 0 < i < |left| :: left[i] == rest[i - 1];
    assert left == [left[0]] + rest;
  }

  /** The top of a stack after an operation below it. */
  lemma ApplyBelow(v: View, level: nat, op: Op, base: View)
    requires Inv(v) && Inv(base) && level > 0 && Allowed(v, At(level, op))
    requires Flat(base) == if Changes(op) && Sees(v.base, level - 1, op.o) then FlatOp(Flat(v.base), op)
             else Flat(v.base)
    ensures var w := Cache(base, v.cacheCoins, v.usage);
      Inv(w) && Flat(w) == if Changes(op) && Sees(v, level, op.o) then FlatOp(Flat(v), op) else Flat(v)
  {
    if Changes(op) && Sees(v.base, level - 1, op.o) { LiftChange(v, base, op); }
  }

  lemma {:induction false} ApplyAtFlat(v: View, level: nat, op: Op)
    requires Inv(v)
    requires Allowed(v, At(level, op))
    ensures ApplyAt(v, level, op).Some?
    ensures Inv(ApplyAt(v, level, op).value)
    ensures Flats(ApplyAt(v, level, op).value) == FlatAt(Flats(v), level, op, TopOf(v, At(level, op)))
    decreases level
  {
    if level == 0 {
      ApplyFlat(v, op);
    } else {
      var top, below := TopOf(v, At(level, op)), TopOf(v.base, At(level - 1, op));
      assert Flats(v) == [Flat(v)] + Flats(v.base);
      ApplyAtFlat(v.base, level - 1, op);
      var base := ApplyAt(v.base, level - 1, op).value;
      FlatOfNext(v.base, level - 1, op, base);
      ApplyBelow(v, level, op, base);
      FlatAtCons(Flat(v), Flats(v.base), level, op, top);
      assert below == if top > 0 then top - 1 else 0;
      assert Flats(Cache(base, v.cacheCoins, v.usage)) == [Flat(Cache(base, v.cacheCoins, v.usage))] + Flats(base);
    }
  }

  lemma FlatOfNext(v: View, level: nat, op: Op, w: View)
    requires Possible(v, At(level, op)) && Flats(w) == FlatAt(Flats(v), level, op, TopOf(v, At(level, op)))
    ensures Flat(w) == if Changes(op) && Sees(v, level, op.o) then FlatOp(Flat(v), op) else Flat(v)
  {
    assert Flat(w) == Flats(w)[0];
  }

  /** A change that is allowed below a cache but not with it makes the cache untrue. */
  lemma UntrueAbove(v: View, level: nat, op: Op)
    requires Inv(v) && 0 < level < Depth(v) && Changes(op) && Allowed(v.base, At(level - 1, op))
             && !Allowed(v, At(level, op))
    ensures ApplyAt(v, level, op).Some? && !Inv(ApplyAt(v, level, op).value)
  {
    assert Flats(v) == [Flat(v)] + Flats(v.base);
    ApplyAtFlat(v.base, level - 1, op);
    var base := ApplyAt(v.base, level - 1, op).value;
    FlatOfNext(v.base, level - 1, op, base);
    LiftChange(v, base, op);
  }

  /** For every change there is: it raises no exception and leaves a truthful stack if and only if it is allowed. */
  lemma {:induction false} ChangeAllowedExactly(v: View, level: nat, op: Op)
    requires Inv(v) && Possible(v, At(level, op)) && Changes(op)
    ensures ApplyAt(v, level, op).Some? && Inv(ApplyAt(v, level, op).value) <==> Allowed(v, At(level, op))
    decreases level
  {
    if Allowed(v, At(level, op)) {
      ApplyAtFlat(v, level, op);
    } else if level == 0 {
      AddCoinExact(v, op.o, op.coin);
    } else {
      ChangeAllowedExactly(v.base, level - 1, op);
      if Allowed(v.base, At(level - 1, op)) { UntrueAbove(v, level, op); }
    }
  }

  /** For every step there is: it raises no exception and leaves a truthful stack if and only if it is allowed. */
  lemma AllowedExactly(v: View, s: Step)
    requires Inv(v) && Possible(v, s)
    ensures Next(v, s).Some? && Inv(Next(v, s).value) <==> Allowed(v, s)
  {
    if s.At? && Changes(s.op) {
      ChangeAllowedExactly(v, s.level, s.op);
    } else {
      NextFlat(v, s);
    }
  }

  /** Spending at any level: exactly the clean copies of the coin in the caches that see it become untrue. */
  lemma SpendBelowExact(v: View, level: nat, o: OutPoint)
    requires Inv(v) && level < Depth(v)
    ensures ApplyAt(v, level, Spend(o)).Some? && Inv(ApplyAt(v, level, Spend(o)).value) <==>
            CopiesStayTrue(v, level, Spend(o))
  {
    AllowedExactly(v, At(level, Spend(o)));
  }

  /** Adding at any level: exactly FRESH entries and different clean copies in the caches that see it become untrue. */
  lemma AddBelowExact(v: View, level: nat, o: OutPoint, coin: Coin, possibleOverwrite: bool)
    requires Inv(v) && level < Depth(v) && !coin.IsSpent() && !coin.scriptPubKey.IsUnspendable()
    ensures var op := Add(o, coin, possibleOverwrite);
      ApplyAt(v, level, op).Some? && Inv(ApplyAt(v, level, op).value) <==>
      (!possibleOverwrite ==> o !in Flats(v)[level]) && CopiesStayTrue(v, level, op)
  {
    AllowedExactly(v, At(level, Add(o, coin, possibleOverwrite)));
  }

  ghost predicate AllowedRun(v: View, steps: seq<Step>)
    decreases |steps|
  {
    steps == [] ||
    (Allowed(v, steps[0]) && (Next(v, steps[0]).Some? ==> AllowedRun(Next(v, steps[0]).value, steps[1..])))
  }

  ghost function Run(v: View, steps: seq<Step>): Option<View>
    requires AllowedRun(v, steps)
    decreases |steps|
  {
    if steps == [] then Some(v)
    else
      match Next(v, steps[0])
      case None => None
      case Some(w) => Run(w, steps[1..])
  }

  /** How far up each change of a run is seen. */
  ghost function Tops(v: View, steps: seq<Step>): (tops: seq<nat>)
    requires AllowedRun(v, steps)
    decreases |steps|
  {
    if steps == [] || Next(v, steps[0]).None? then []
    else [TopOf(v, steps[0])] + Tops(Next(v, steps[0]).value, steps[1..])
  }

  predicate FlatRunnable(fs: seq<map<OutPoint, Coin>>, steps: seq<Step>, tops: seq<nat>)
    decreases |steps|
  {
    |tops| == |steps| &&
    (steps == [] ||
     (|fs| > 0 && (steps[0].At? ==> steps[0].level + 1 < |fs| && tops[0] <= steps[0].level) &&
      FlatRunnable(FlatNext(fs, steps[0], tops[0]), steps[1..], tops[1..])))
  }

  function FlatRun(fs: seq<map<OutPoint, Coin>>, steps: seq<Step>, tops: seq<nat>): seq<map<OutPoint, Coin>>
    requires FlatRunnable(fs, steps, tops)
    decreases |steps|
  {
    if steps == [] then fs else FlatRun(FlatNext(fs, steps[0], tops[0]), steps[1..], tops[1..])
  }

  lemma NextFlat(v: View, s: Step)
    requires Inv(v) && Allowed(v, s)
    ensures Next(v, s).Some?
    ensures Inv(Next(v, s).value)
    ensures Flats(Next(v, s).value) == FlatNext(Flats(v), s, TopOf(v, s))
  {
    match s
    case Open => OpenFlat(v);
    case Discard => assert Flats(v) == [Flat(v)] + Flats(v.base);
    case At(level, op) => ApplyAtFlat(v, level, op);
  }

  /**
   The main theorem: on every run from a truthful stack, whatever its depth, no operation raises an
   exception, every flag and memory counter stays truthful, and every level means exactly what the
   list of flat maps holds after the same steps, each seen up to the first pending change above it.
   */
  lemma {:induction false} RunFlat(v: View, steps: seq<Step>)
    requires Inv(v) && AllowedRun(v, steps)
    ensures Run(v, steps).Some?
    ensures Inv(Run(v, steps).value)
    ensures FlatRunnable(Flats(v), steps, Tops(v, steps))
    ensures Flats(Run(v, steps).value) == FlatRun(Flats(v), steps, Tops(v, steps))
    decreases |steps|
  {
    if steps != [] {
      NextFlat(v, steps[0]);
      var w := Next(v, steps[0]).value;
      RunFlat(w, steps[1..]);
      assert Tops(v, steps)[1..] == Tops(w, steps[1..]);
    }
  }
}
