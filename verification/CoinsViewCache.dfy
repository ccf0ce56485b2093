/**
 `CCoinsViewCache` in place: objects linked by their `base` pointers, each updating its own
 `cacheCoins` and `cachedCoinsUsage` and, while fetching or flushing, those of the views below it.
 Every method is proved against the function of the same name in module Coins.
 */
module CoinsViewCache {
  import opened Basics
  import opened Coins

  /** The coins database under the lowest cache. */
  class CoinsViewDB {
    var coins: map<OutPoint, Coin>

    constructor (coins: map<OutPoint, Coin>)
      ensures this.coins == coins
    {
      this.coins := coins;
    }

    method GetCoin(o: OutPoint) returns (found: Option<Coin>)
      ensures found == Coins.GetCoin(Database(coins), o).0
    {
      found := if o in coins then Some(coins[o]) else None;
    }

    method BatchWrite(mapCoins: CoinsMap)
      modifies this
      ensures coins == WriteDatabase(old(coins), mapCoins)
    {
      var rest := mapCoins;
      ghost var done: CoinsMap := map[];
      assert WriteDatabase(coins, done) == coins;
      while rest != map[]
        invariant Parted(done, rest, mapCoins)
        invariant coins == WriteDatabase(old(coins), done)
        decreases rest.Keys
      {
        var o :| o in rest.Keys;
        var e := rest[o];
        WriteDatabaseStep(old(coins), done, o, e);
        if e.isDirty {
          if e.coin.IsSpent() {
            coins := coins - {o};
          } else {
            coins := coins[o := e.coin];
          }
        }
        PartedNext(done, rest, mapCoins, o);
        done := done[o := e];
        rest := rest - {o};
      }
      assert done == mapCoins;
    }
  }

  /** The entries written so far and those still to come. */
  ghost predicate Parted(done: CoinsMap, rest: CoinsMap, all: CoinsMap) {
    && done.Keys !! rest.Keys && done.Keys + rest.Keys == all.Keys
    && (forall o <- done :: done[o] == all[o])
    && (forall o <- rest :: rest[o] == all[o])
  }

  lemma PartedNext(done: CoinsMap, rest: CoinsMap, all: CoinsMap, o: OutPoint)
    requires Parted(done, rest, all) && o in rest
    ensures Parted(done[o := rest[o]], rest - {o}, all)
  {
    assert done[o := rest[o]].Keys == done.Keys + {o};
  }

  /** What writing one entry does to the stored coins. */
  ghost function Written(coins: map<OutPoint, Coin>, o: OutPoint, e: CacheEntry): map<OutPoint, Coin> {
    if !e.isDirty then coins else if e.coin.IsSpent() then coins - {o} else coins[o := e.coin]
  }

  ghost function Look<T>(m: map<OutPoint, T>, o: OutPoint): Option<T> { if o in m then Some(m[o]) else None }

  lemma SameLooks<T>(a: map<OutPoint, T>, b: map<OutPoint, T>)
    requires forall o :: Look(a, o) == Look(b, o)
    ensures a == b
  {
    forall o ensures o in a <==> o in b { assert Look(a, o) == Look(b, o); }
    forall o | o in a ensures a[o] == b[o] { assert Look(a, o) == Look(b, o); }
  }

  lemma WriteDatabaseAt(coins: map<OutPoint, Coin>, child: CoinsMap, o: OutPoint)
    ensures Look(WriteDatabase(coins, child), o) ==
            if o !in child || !child[o].isDirty then Look(coins, o) else if child[o].coin.IsSpent() then None
              else Some(child[o].coin)
  {
  }

  lemma WriteDatabaseStep(coins: map<OutPoint, Coin>, done: CoinsMap, o: OutPoint, e: CacheEntry)
    requires o !in done
    ensures WriteDatabase(coins, done[o := e]) == Written(WriteDatabase(coins, done), o, e)
  {
    var left, right := WriteDatabase(coins, done[o := e]), Written(WriteDatabase(coins, done), o, e);
    forall p ensures Look(left, p) == Look(right, p) {
      WriteDatabaseAt(coins, done[o := e], p);
      WriteDatabaseAt(coins, done, p);
    }
    SameLooks(left, right);
  }

  /** Merging one more entry into what has been merged so far. */
  lemma MergeStep(parent: CoinsMap, done: CoinsMap, o: OutPoint, e: CacheEntry)
    requires o !in done
    ensures Misapplied(Merge(parent, done), map[o := e], o) <==> Misapplied(parent, done[o := e], o)
    ensures NoneMisapplied(parent, done) && !Misapplied(parent, done[o := e], o) ==>
            NoneMisapplied(parent, done[o := e])
    ensures var r := MergeEntry(Merge(parent, done), map[o := e], o);
            Merge(parent, done[o := e]) ==
            if r.Some? then Merge(parent, done)[o := r.value] else Merge(parent, done) - {o}
  {
    var next := done[o := e];
    forall p | p != o ensures MergeEntry(parent, next, p) == MergeEntry(parent, done, p) {}
    if NoneMisapplied(parent, done) && !Misapplied(parent, next, o) {
      forall p ensures !Misapplied(parent, next, p) {
        assert !Misapplied(parent, done, p);
      }
    }
    MergeAt(parent, done, o);
    var r := MergeEntry(Merge(parent, done), map[o := e], o);
    assert r == MergeEntry(parent, next, o);
    var right := if r.Some? then Merge(parent, done)[o := r.value] else Merge(parent, done) - {o};
    forall p ensures Look(Merge(parent, next), p) == Look(right, p) {
      MergeAt(parent, next, p);
      MergeAt(parent, done, p);
    }
    SameLooks(Merge(parent, next), right);
  }

  lemma MergeAt(parent: CoinsMap, child: CoinsMap, o: OutPoint)
    ensures Look(Merge(parent, child), o) == if o in parent || o in child then MergeEntry(parent, child, o) else None
  {
  }

  class CoinsViewCache {
    const db: CoinsViewDB
    /** The cache below, or null when this cache sits directly on the database. */
    const base: CoinsViewCache?
    const level: nat

    var cacheCoins: CoinsMap
    var cachedCoinsUsage: int

    ghost predicate Linked()
      decreases level
    {
      base != null ==> base.level + 1 == level && base.db == db && base.Linked()
    }

    /** The objects a fetch or a flush may touch below this cache. */
    ghost function Below(): (s: set<object>)
      requires Linked()
      ensures this !in s
      ensures forall c: CoinsViewCache | c in s :: c.level < level
      decreases level
    {
      if base == null then {db} else base.Below() + {base}
    }

    ghost function Value(): (v: View)
      requires Linked()
      reads this, Below()
      ensures v.Cache?
      decreases level
    {
      Cache(BaseValue(), cacheCoins, cachedCoinsUsage)
    }

    ghost function BaseValue(): (v: View)
      requires Linked()
      reads Below()
      decreases level, 0
    {
      if base == null then Database(db.coins) else base.Value()
    }

    constructor OnDatabase(db: CoinsViewDB)
      ensures Linked() && this.db == db && base == null
      ensures Value() == Cache(Database(db.coins), map[], 0)
    {
      this.db, this.base, level := db, null, 0;
      cacheCoins, cachedCoinsUsage := map[], 0;
    }

    constructor OnCache(base: CoinsViewCache)
      requires base.Linked()
      ensures Linked() && this.base == base
      ensures Value() == Cache(base.Value(), map[], 0)
    {
      this.db, this.base, level := base.db, base, base.level + 1;
      cacheCoins, cachedCoinsUsage := map[], 0;
    }

    method FetchCoin(o: OutPoint)
      requires Linked()
      modifies this, Below()
      ensures Value() == Coins.FetchCoin(old(Value()), o)
      decreases level, 0
    {
      if o in cacheCoins {
        return;
      }
      var found: Option<Coin>;
      if base == null {
        found := db.GetCoin(o);
      } else {
        found := base.GetCoin(o);
      }
      if found.None? {
        return;
      }
      cacheCoins := cacheCoins[o := CacheEntry(found.value, false, false)];
      if found.value.IsSpent() {
        cacheCoins := cacheCoins[o := cacheCoins[o].(isFresh := true)];
      }
      cachedCoinsUsage := cachedCoinsUsage + found.value.DynamicMemoryUsage();
    }

    method GetCoin(o: OutPoint) returns (found: Option<Coin>)
      requires Linked()
      modifies this, Below()
      ensures (found, Value()) == Coins.GetCoin(old(Value()), o)
      decreases level, 1
    {
      FetchCoin(o);
      found := if o in cacheCoins && !cacheCoins[o].coin.IsSpent() then Some(cacheCoins[o].coin) else None;
    }

    method HaveCoin(o: OutPoint) returns (have: bool)
      requires Linked()
      modifies this, Below()
      ensures Value() == Coins.GetCoin(old(Value()), o).1
      ensures have == Coins.GetCoin(old(Value()), o).0.Some?
    {
      var found := GetCoin(o);
      have := found.Some?;
    }

    /** `thrown` is the exception for overwriting an unspent coin; the object is then left unspecified. */
    method AddCoin(o: OutPoint, coin: Coin, possibleOverwrite: bool) returns (thrown: bool)
      requires Linked()
      requires !coin.IsSpent()
      modifies this
      ensures thrown <==> Coins.AddCoin(old(Value()), o, coin, possibleOverwrite).None?
      ensures !thrown ==> Value() == Coins.AddCoin(old(Value()), o, coin, possibleOverwrite).value
    {
      ghost var below := Below();
      if coin.scriptPubKey.IsUnspendable() {
        return false;
      }
      var inserted := o !in cacheCoins;
      if inserted {
        cacheCoins := cacheCoins[o := CacheEntry(NullCoin, false, false)];
      } else {
        cachedCoinsUsage := cachedCoinsUsage - cacheCoins[o].coin.DynamicMemoryUsage();
      }
      var it := cacheCoins[o];
      var isFresh := false;
      if !possibleOverwrite {
        if !it.coin.IsSpent() {
          return true;
        }
        isFresh := !it.isDirty;
      }
      cacheCoins := cacheCoins[o := CacheEntry(coin, true, it.isFresh || isFresh)];
      cachedCoinsUsage := cachedCoinsUsage + coin.DynamicMemoryUsage();
      assert cacheCoins == old(cacheCoins)[o := CacheEntry(coin, true, it.isFresh || isFresh)];
      assert BaseValue() == old(BaseValue());
      return false;
    }

    method SpendCoin(o: OutPoint) returns (moveout: Option<Coin>)
      requires Linked()
      modifies this, Below()
      ensures (moveout, Value()) == Coins.SpendCoin(old(Value()), o)
    {
      FetchCoin(o);
      if o !in cacheCoins {
        return None;
      }
      var e := cacheCoins[o];
      cachedCoinsUsage := cachedCoinsUsage - e.coin.DynamicMemoryUsage();
      if e.isFresh {
        cacheCoins := cacheCoins - {o};
      } else {
        cacheCoins := cacheCoins[o := CacheEntry(NullCoin, true, e.isFresh)];
      }
      return Some(e.coin);
    }

    /** One turn of the loop in `BatchWrite`; `thrown` is the "FRESH flag misapplied" exception. */
    method WriteEntry(o: OutPoint, e: CacheEntry) returns (thrown: bool)
      requires Linked()
      modifies this
      ensures BaseValue() == old(BaseValue())
      ensures thrown <==> Misapplied(old(cacheCoins), map[o := e], o)
      ensures !thrown ==>
                var r := MergeEntry(old(cacheCoins), map[o := e], o);
                cacheCoins == if r.Some? then old(cacheCoins)[o := r.value] else old(cacheCoins) - {o}
      ensures !thrown ==> cachedCoinsUsage == old(cachedCoinsUsage) + Usage(cacheCoins) - Usage(old(cacheCoins))
    {
      ghost var below := Below();
      thrown := false;
      if !e.isDirty {
        assert o !in cacheCoins ==> cacheCoins - {o} == cacheCoins;
        return;
      }
      if o !in cacheCoins {
        if !(e.isFresh && e.coin.IsSpent()) {
          UsageSteps(cacheCoins, o, CacheEntry(e.coin, true, e.isFresh));
          cacheCoins := cacheCoins[o := CacheEntry(e.coin, true, e.isFresh)];
          cachedCoinsUsage := cachedCoinsUsage + e.coin.DynamicMemoryUsage();
        } else {
          assert cacheCoins - {o} == cacheCoins;
        }
      } else {
        var itUs := cacheCoins[o];
        if e.isFresh && !itUs.coin.IsSpent() {
          return true;
        }
        UsageSteps(cacheCoins, o, CacheEntry(e.coin, true, itUs.isFresh));
        cachedCoinsUsage := cachedCoinsUsage - itUs.coin.DynamicMemoryUsage();
        if itUs.isFresh && e.coin.IsSpent() {
          cacheCoins := cacheCoins - {o};
        } else {
          cacheCoins := cacheCoins[o := CacheEntry(e.coin, true, itUs.isFresh)];
          cachedCoinsUsage := cachedCoinsUsage + e.coin.DynamicMemoryUsage();
        }
      }
    }

    method BatchWrite(mapCoins: CoinsMap) returns (thrown: bool)
      requires Linked()
      modifies this
      ensures thrown <==> Coins.BatchWrite(old(Value()), mapCoins).None?
      ensures !thrown ==> Value() == Coins.BatchWrite(old(Value()), mapCoins).value
    {
      ghost var before := cacheCoins;
      var rest := mapCoins;
      ghost var done: CoinsMap := map[];
      assert Merge(before, done) == before;
      while rest != map[]
        invariant BaseValue() == old(BaseValue())
        invariant Parted(done, rest, mapCoins)
        invariant NoneMisapplied(before, done)
        invariant cacheCoins == Merge(before, done)
        invariant cachedCoinsUsage == old(cachedCoinsUsage) + Usage(cacheCoins) - Usage(before)
        decreases rest.Keys
      {
        var o :| o in rest.Keys;
        var e := rest[o];
        assert mapCoins[o] == e;
        MergeStep(before, done, o, e);
        thrown := WriteEntry(o, e);
        if thrown {
          assert Misapplied(before, mapCoins, o);
          return;
        }
        PartedNext(done, rest, mapCoins, o);
        done := done[o := e];
        rest := rest - {o};
      }
      assert done == mapCoins;
      return false;
    }

    method Flush() returns (thrown: bool)
      requires Linked()
      modifies this, Below()
      ensures thrown <==> Coins.Flush(old(Value())).None?
      ensures !thrown ==> Value() == Coins.Flush(old(Value())).value
    {
      if base == null {
        db.BatchWrite(cacheCoins);
      } else {
        thrown := base.BatchWrite(cacheCoins);
        if thrown {
          return;
        }
      }
      cacheCoins := map[];
      cachedCoinsUsage := 0;
      thrown := false;
    }

    method Uncache(o: OutPoint)
      requires Linked()
      modifies this
      ensures Value() == Coins.Uncache(old(Value()), o)
    {
      ghost var below := Below();
      if o in cacheCoins && !cacheCoins[o].isDirty && !cacheCoins[o].isFresh {
        cachedCoinsUsage := cachedCoinsUsage - cacheCoins[o].coin.DynamicMemoryUsage();
        cacheCoins := cacheCoins - {o};
        assert BaseValue() == old(BaseValue());
      }
    }
  }

  lemma UsageSteps(m: CoinsMap, o: OutPoint, e: CacheEntry)
    ensures o in m ==> Usage(m - {o}) == Usage(m) - m[o].coin.DynamicMemoryUsage()
    ensures Usage(m[o := e]) ==
            Usage(m) - (if o in m then m[o].coin.DynamicMemoryUsage() else 0) + e.coin.DynamicMemoryUsage()
  {
    UsageUpdate(m, o, e);
    if o in m {
      UsageRemove(m, o);
    } else {
      assert m - {o} == m;
    }
  }
}
