/**
 The vocabulary of ancestor-package selection (`src/miner.cpp`, `src/miner.h`): the mempool as a finite
 DAG, package totals, and what the "modified" entries of `mapModifiedTx` promise.
 */
module PackageSelection {
  import opened Basics

  type Tx = nat

  const WITNESS_SCALE_FACTOR := 4
  const MAX_BLOCK_SIGOPS_COST := 80000
  const MAX_MINE_WEIGHT := 20000
  const MAX_CONSECUTIVE_FAILURES := 1000

  /** The mempool as the assembler sees it. `ancestors` is the strict ancestor relation of the dependency DAG. */
  datatype MemPool = MemPool(
    txs: set<Tx>,
    ancestors: map<Tx, set<Tx>>,
    size: map<Tx, int>,              // GetTxSize
    weight: map<Tx, int>,            // GetTxWeight
    sigOps: map<Tx, int>,            // GetSigOpCost
    mweb: map<Tx, int>,              // GetMWEBWeight
    fee: map<Tx, int>,               // GetFee
    modFee: map<Tx, int>,            // GetModifiedFee
    withAncestors: map<Tx, Totals>,  // GetSizeWithAncestors and its siblings
    isFinal: set<Tx>,
    hasWitness: set<Tx>,
    hasMWEB: set<Tx>,
    isMWEBOnly: set<Tx>)

  function At(f: map<Tx, int>, t: Tx): int { if t in f then f[t] else 0 }
  function Ancestors(p: MemPool, t: Tx): set<Tx> { if t in p.ancestors then p.ancestors[t] else {} }
  function Cached(p: MemPool, t: Tx): Totals { if t in p.withAncestors then p.withAncestors[t] else Totals(0, 0, 0, 0) }

  /**
   What the mempool guarantees: ancestors form a strict order, size is weight scaled down and rounded up,
   costs are not negative, and the cached package totals are right.
   */
  ghost predicate PoolOk(p: MemPool) {
    forall t :: EntryOk(p, t)
  }

  ghost predicate EntryOk(p: MemPool, t: Tx) {
    t in p.txs ==>
      && Ancestors(p, t) <= p.txs && t !in Ancestors(p, t)
      && (forall a | a in Ancestors(p, t) :: Ancestors(p, a) <= Ancestors(p, t))
      && 0 <= At(p.weight, t) <= WITNESS_SCALE_FACTOR * At(p.size, t)
      && 0 <= At(p.size, t) && 0 <= At(p.sigOps, t) && 0 <= At(p.mweb, t)
      && Cached(p, t) == TotalsOf(p, Package(p, t))
  }

  lemma CostsNonNegative(p: MemPool, s: set<Tx>)
    requires PoolOk(p) && s <= p.txs
    ensures forall t | t in s :: 0 <= At(p.weight, t)
    ensures forall t | t in s :: 0 <= At(p.size, t)
    ensures forall t | t in s :: 0 <= At(p.sigOps, t)
    ensures forall t | t in s :: 0 <= At(p.mweb, t)
  {
    forall t | t in s
      ensures 0 <= At(p.weight, t) && 0 <= At(p.size, t) && 0 <= At(p.sigOps, t) && 0 <= At(p.mweb, t)
    {
      assert EntryOk(p, t);
    }
  }

  /** Sums of costs grow with the set. */
  lemma CostsOfSubset(p: MemPool, s: set<Tx>, u: set<Tx>)
    requires PoolOk(p) && s <= u <= p.txs
    ensures Sum(s, p.weight) <= Sum(u, p.weight) && Sum(s, p.size) <= Sum(u, p.size)
    ensures Sum(s, p.sigOps) <= Sum(u, p.sigOps) && Sum(s, p.mweb) <= Sum(u, p.mweb)
  {
    CostsNonNegative(p, u);
    SumSubset(s, u, p.weight);
    SumSubset(s, u, p.size);
    SumSubset(s, u, p.sigOps);
    SumSubset(s, u, p.mweb);
  }

  /** A transaction and all its ancestors. */
  function Package(p: MemPool, t: Tx): set<Tx> { Ancestors(p, t) + {t} }

  /** The part of a package that is not in the block yet. */
  function Rest(p: MemPool, t: Tx, inBlock: set<Tx>): set<Tx> { Package(p, t) - inBlock }

  /** `GetCountWithAncestors`. */
  function Count(p: MemPool, t: Tx): nat { |Package(p, t)| }

  ghost predicate Closed(p: MemPool, s: set<Tx>) {
    forall t | t in s :: Ancestors(p, t) <= s
  }

  // ----- Sums over sets of transactions -----

  ghost function Sum(s: set<Tx>, f: map<Tx, int>): int {
    if s == {} then 0 else var t :| t in s; At(f, t) + Sum(s - {t}, f)
  }

  lemma {:induction false} SumRemove(s: set<Tx>, t: Tx, f: map<Tx, int>)
    requires t in s
    ensures Sum(s, f) == At(f, t) + Sum(s - {t}, f)
    decreases |s|
  {
    var u :| u in s && Sum(s, f) == At(f, u) + Sum(s - {u}, f);
    if u != t {
      SumRemove(s - {u}, t, f);
      SumRemove(s - {t}, u, f);
      assert s - {u} - {t} == s - {t} - {u};
    }
  }

  lemma SumAdd(s: set<Tx>, t: Tx, f: map<Tx, int>)
    requires t !in s
    ensures Sum(s + {t}, f) == Sum(s, f) + At(f, t)
  {
    SumRemove(s + {t}, t, f);
    assert s + {t} - {t} == s;
  }

  lemma {:induction false} SumSplit(s: set<Tx>, u: set<Tx>, f: map<Tx, int>)
    requires s !! u
    ensures Sum(s + u, f) == Sum(s, f) + Sum(u, f)
    decreases |u|
  {
    if u == {} {
      assert s + u == s;
    } else {
      var t :| t in u;
      SumSplit(s, u - {t}, f);
      SumRemove(u, t, f);
      SumAdd(s + (u - {t}), t, f);
      assert s + u == s + (u - {t}) + {t};
    }
  }

  lemma {:induction false} SumNonNegative(s: set<Tx>, f: map<Tx, int>)
    requires forall t | t in s :: At(f, t) >= 0
    ensures Sum(s, f) >= 0
    decreases |s|
  {
    if s != {} {
      var t :| t in s;
      SumRemove(s, t, f);
      SumNonNegative(s - {t}, f);
    }
  }

  lemma SumSubset(s: set<Tx>, u: set<Tx>, f: map<Tx, int>)
    requires s <= u && forall t | t in u :: At(f, t) >= 0
    ensures Sum(s, f) <= Sum(u, f)
  {
    SumSplit(s, u - s, f);
    SumNonNegative(u - s, f);
    assert s + (u - s) == u;
  }

  /** Weight never exceeds four times size, for whole sets. */
  lemma {:induction false} WeightBySize(p: MemPool, s: set<Tx>)
    requires PoolOk(p) && s <= p.txs
    ensures Sum(s, p.weight) <= WITNESS_SCALE_FACTOR * Sum(s, p.size)
    decreases |s|
  {
    if s != {} {
      var t :| t in s;
      assert EntryOk(p, t);
      SumRemove(s, t, p.weight);
      SumRemove(s, t, p.size);
      WeightBySize(p, s - {t});
    }
  }

  // ----- Cached totals -----

  /** The totals kept for a package, either by the mempool or in `mapModifiedTx`. */
  datatype Totals = Totals(size: int, modFees: int, sigOps: int, mweb: int)

  type Modified = map<Tx, Totals>

  /** True totals of a set, with modified fees. */
  ghost function TotalsOf(p: MemPool, s: set<Tx>): Totals {
    Totals(Sum(s, p.size), Sum(s, p.modFee), Sum(s, p.sigOps), Sum(s, p.mweb))
  }

  /** The totals from which an entry starts: those in `mapModifiedTx`, or else the mempool's own. */
  function Base(p: MemPool, m: Modified, t: Tx): Totals {
    if t in m then m[t] else Cached(p, t)
  }

  /** Size, sigop and MWEB totals bound those of a set from above. */
  ghost predicate Covers(p: MemPool, e: Totals, s: set<Tx>) {
    e.size >= Sum(s, p.size) && e.sigOps >= Sum(s, p.sigOps) && e.mweb >= Sum(s, p.mweb)
  }

  /** No transaction of the mempool has a fee delta. */
  ghost predicate FeesAgree(p: MemPool) {
    forall t | t in p.txs :: At(p.fee, t) == At(p.modFee, t)
  }

  lemma {:induction false} FeesAgreeOn(p: MemPool, s: set<Tx>)
    requires FeesAgree(p) && s <= p.txs
    ensures Sum(s, p.fee) == Sum(s, p.modFee)
    decreases |s|
  {
    if s != {} {
      var t :| t in s;
      SumRemove(s, t, p.fee);
      SumRemove(s, t, p.modFee);
      FeesAgreeOn(p, s - {t});
    }
  }

  /** Size, sigop and MWEB totals are those of a set; so is the fee total, if no fee has been modified. */
  ghost predicate Exact(p: MemPool, e: Totals, s: set<Tx>) {
    && e.size == Sum(s, p.size) && e.sigOps == Sum(s, p.sigOps) && e.mweb == Sum(s, p.mweb)
    && (FeesAgree(p) ==> e.modFees == Sum(s, p.modFee))
  }

  /** One member of an included package: `mapModifiedTx.insert` the first time, `update_for_parent_inclusion` later. */
  function Include(p: MemPool, m: Modified, t: Tx, it: Tx): Totals {
    var e := Base(p, m, t);
    Totals(e.size - At(p.size, it), e.modFees - (if t in m then At(p.fee, it) else At(p.modFee, it)),
           e.sigOps - At(p.sigOps, it), e.mweb - At(p.mweb, it))
  }

  /** What the included ancestors `s` of `t` have done to the totals `b` that `t` had before. */
  ghost predicate Reduced(p: MemPool, e: Totals, b: Totals, s: set<Tx>) {
    && e.size == b.size - Sum(s, p.size)
    && e.sigOps == b.sigOps - Sum(s, p.sigOps)
    && e.mweb == b.mweb - Sum(s, p.mweb)
  }

  /** The fee total after an inclusion: the ancestor that caused the insertion counts with its modified fee. */
  ghost predicate FeesReduced(p: MemPool, e: Totals, b: Totals, s: set<Tx>, wasPresent: bool) {
    if wasPresent || s == {} then e.modFees == b.modFees - Sum(s, p.fee)
    else exists first :: first in s && e.modFees == b.modFees - Sum(s, p.fee) - (At(p.modFee, first) - At(p.fee, first))
  }

  /** The entry of `t` after the ancestors `s` have been included, starting from the map `m0`. */
  ghost predicate AfterAncestors(p: MemPool, m0: Modified, m: Modified, t: Tx, s: set<Tx>) {
    if s == {} then (t in m <==> t in m0) && (t in m ==> m[t] == m0[t])
    else t in m && Reduced(p, m[t], Base(p, m0, t), s) && FeesReduced(p, m[t], Base(p, m0, t), s, t in m0)
  }

  lemma IncludeStep(p: MemPool, m0: Modified, m: Modified, t: Tx, s: set<Tx>, it: Tx)
    requires AfterAncestors(p, m0, m, t, s) && it !in s
    ensures AfterAncestors(p, m0, m[t := Include(p, m, t, it)], t, s + {it})
  {
    SumAdd(s, it, p.size);
    SumAdd(s, it, p.sigOps);
    SumAdd(s, it, p.mweb);
    SumAdd(s, it, p.fee);
    var b, e, r := Base(p, m0, t), Base(p, m, t), Include(p, m, t, it);
    if t !in m0 {
      if s == {} {
        assert r.modFees == b.modFees - Sum(s + {it}, p.fee) - (At(p.modFee, it) - At(p.fee, it));
      } else {
        var first :| first in s && e.modFees == b.modFees - Sum(s, p.fee) - (At(p.modFee, first) - At(p.fee, first));
        assert first in s + {it}
          && r.modFees == b.modFees - Sum(s + {it}, p.fee) - (At(p.modFee, first) - At(p.fee, first));
      }
    }
  }

  /** Including ancestors keeps totals that cover the rest of a package covering what is then left of it. */
  lemma CoversAfter(p: MemPool, t: Tx, e: Totals, b: Totals, inBlock: set<Tx>, added: set<Tx>, wasPresent: bool)
    requires Covers(p, b, Rest(p, t, inBlock))
    requires added <= p.txs && added !! inBlock && t !in added
    requires Reduced(p, e, b, added * Ancestors(p, t)) && FeesReduced(p, e, b, added * Ancestors(p, t), wasPresent)
    ensures Covers(p, e, Rest(p, t, inBlock + added))
    ensures Exact(p, b, Rest(p, t, inBlock)) ==> Exact(p, e, Rest(p, t, inBlock + added))
  {
    var s, r := added * Ancestors(p, t), Rest(p, t, inBlock + added);
    assert Rest(p, t, inBlock) == r + s;
    SumSplit(r, s, p.size);
    SumSplit(r, s, p.sigOps);
    SumSplit(r, s, p.mweb);
    SumSplit(r, s, p.modFee);
    if FeesAgree(p) { FeesAgreeOn(p, s); }
  }

  /** How far a fee total is off the modified fees of what is left of a package. */
  ghost function Drift(p: MemPool, e: Totals, s: set<Tx>): int { e.modFees - Sum(s, p.modFee) }

  /** The fee deltas of a set of transactions. */
  ghost function Deltas(p: MemPool, s: set<Tx>): int { Sum(s, p.modFee) - Sum(s, p.fee) }

  /**
   When the ancestors `s` of a transaction are included and `r` is then left of its package, its fee total
   drifts by the deltas of `s`, except that of the one whose inclusion created the entry.  So a fee total
   that was exact stays exact just when those deltas cancel.
   */
  lemma FeeDrift(p: MemPool, e: Totals, b: Totals, r: set<Tx>, s: set<Tx>, wasPresent: bool) returns (first: set<Tx>)
    requires r !! s && FeesReduced(p, e, b, s, wasPresent)
    ensures first <= s && |first| == if wasPresent || s == {} then 0 else 1
    ensures Drift(p, e, r) == Drift(p, b, r + s) + Deltas(p, s - first)
    ensures Drift(p, b, r + s) == 0 ==> (Drift(p, e, r) == 0 <==> Deltas(p, s - first) == 0)
  {
    SumSplit(r, s, p.modFee);
    if wasPresent || s == {} {
      first := {};
      assert s - first == s;
    } else {
      var f :| f in s && e.modFees == b.modFees - Sum(s, p.fee) - (At(p.modFee, f) - At(p.fee, f));
      first := {f};
      SumRemove(s, f, p.modFee);
      SumRemove(s, f, p.fee);
    }
  }

  /** A mempool of three: 1 spends 0, and 2 spends both.  The fee deltas of 0 and 1 are `delta`, and 2 has none. */
  ghost function Family(size: int, fee: int, delta: int): MemPool {
    var p := MemPool({0, 1, 2}, map[1 := {0}, 2 := {0, 1}], map[0 := size, 1 := size, 2 := size],
                     map[0 := 4 * size, 1 := 4 * size, 2 := 4 * size], map[0 := 4, 1 := 4, 2 := 4], map[],
                     map[0 := fee, 1 := fee, 2 := fee], map[0 := fee + delta, 1 := fee + delta, 2 := fee],
                     map[], {0, 1, 2}, {}, {}, {});
    p.(withAncestors := map t | t in p.txs :: TotalsOf(p, Package(p, t)))
  }

  lemma FamilyOk(size: int, fee: int, delta: int)
    requires size > 0
    ensures PoolOk(Family(size, fee, delta))
  {
    var p := Family(size, fee, delta);
    forall t ensures EntryOk(p, t) {
      assert t in p.txs ==> p.withAncestors[t] == TotalsOf(p, Package(p, t));
    }
  }

  /**
   Exactness does fail once fees have deltas: in that mempool, when 0 and then 1 go into the block, the fee
   total kept for 2 is off by the delta of 1.
   */
  lemma DriftHappens(size: int, fee: int, delta: int)
    requires size > 0
    ensures PoolOk(Family(size, fee, delta))
    ensures var p := Family(size, fee, delta);
            var none: Modified := map[];
            var once: Modified := map[2 := Include(p, none, 2, 0)];
            Drift(p, Include(p, once, 2, 1), Rest(p, 2, {0, 1})) == delta
  {
    FamilyOk(size, fee, delta);
    var p := Family(size, fee, delta);
    assert EntryOk(p, 2);
    assert Package(p, 2) == {0, 1, 2};
    assert {0, 1, 2} - {0, 1} == {2};
    assert Rest(p, 2, {0, 1}) == {2};
    SumAdd({2}, 1, p.modFee);
    SumAdd({2} + {1}, 0, p.modFee);
    assert {2} + {1} + {0} == Package(p, 2);
  }

  /** A package whose covering totals are not negative anywhere: cached totals never underflow. */
  lemma CoversNonNegative(p: MemPool, e: Totals, s: set<Tx>)
    requires PoolOk(p) && s <= p.txs && Covers(p, e, s)
    ensures e.size >= 0 && e.sigOps >= 0 && e.mweb >= 0
  {
    CostsNonNegative(p, s);
    SumNonNegative(s, p.size);
    SumNonNegative(s, p.sigOps);
    SumNonNegative(s, p.mweb);
  }

  /** Ancestors have smaller ancestor counts, so sorting by count is a valid order. */
  lemma AncestorsCountLess(p: MemPool, t: Tx, a: Tx)
    requires PoolOk(p) && t in p.txs && a in Ancestors(p, t)
    ensures Count(p, a) < Count(p, t)
  {
    assert EntryOk(p, t);
    assert Package(p, a) <= Ancestors(p, t);
    SubsetSize(Package(p, a), Ancestors(p, t));
    assert |Package(p, t)| == |Ancestors(p, t)| + 1;
  }

}
