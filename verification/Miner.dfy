/**
 `BlockAssembler` (`src/miner.cpp`): greedy ancestor-package selection in place. The comparison of entries, the
 minimum fee and the outcome of adding an MWEB transaction are left open, so the claims hold for all of them, except
 the one on what is left when selection stops, which is about the comparison and the fee of the program.
 */
module Miner {
  import opened Basics
  import opened PackageSelection
  import opened AncestorScore

  const MAX_BLOCK_WEIGHT := 4000000

  // ----- Block order -----

  /** Every transaction comes after all its ancestors, and none comes twice. */
  predicate ValidOrder(p: MemPool, order: seq<Tx>) {
    order == [] ||
    (var n := |order| - 1;
     && ValidOrder(p, order[..n])
     && order[n] !in order[..n]
     && Ancestors(p, order[n]) <= Elements(order[..n]))
  }

  /** The same, by positions. */
  lemma {:induction false} ValidOrderPositions(p: MemPool, order: seq<Tx>, k: nat)
    requires ValidOrder(p, order) && k < |order|
    ensures forall j | 0 <= j < |order| && j != k :: order[j] != order[k]
    ensures forall a | a in Ancestors(p, order[k]) :: exists j :: 0 <= j < k && order[j] == a
  {
    var n := |order| - 1;
    var front := order[..n];
    if k < n {
      ValidOrderPositions(p, front, k);
      assert forall j | 0 <= j < n :: order[j] == front[j];
      assert order[n] !in front;
    } else {
      forall a | a in Ancestors(p, order[n]) ensures exists j :: 0 <= j < n && order[j] == a {
        assert a in Elements(front);
        var j :| 0 <= j < |front| && front[j] == a;
        assert order[j] == a;
      }
    }
  }

  function Elements(s: seq<Tx>): set<Tx> { set t | t in s }

  /** The transactions that get an entry of their own in the block. */
  function Canonical(p: MemPool, order: seq<Tx>): seq<Tx> {
    if order == [] then []
    else
      var last := order[|order| - 1];
      Canonical(p, order[..|order| - 1]) + (if last in p.isMWEBOnly then [] else [last])
  }

  /** The selected set, its order and the block's transaction list belong together. */
  ghost predicate Selected(p: MemPool, inBlock: set<Tx>, order: seq<Tx>, vtx: seq<Tx>) {
    && inBlock <= p.txs
    && ValidOrder(p, order) && Elements(order) == inBlock
    && vtx == Canonical(p, order)
  }

  /** A validly ordered selection is closed under ancestors. */
  lemma {:induction false} OrderIsClosed(p: MemPool, order: seq<Tx>)
    requires ValidOrder(p, order)
    ensures Closed(p, Elements(order))
  {
    if order != [] {
      var n := |order| - 1;
      OrderIsClosed(p, order[..n]);
      assert order == order[..n] + [order[n]];
      assert Elements(order) == Elements(order[..n]) + {order[n]};
    }
  }

  lemma SelectedAdd(p: MemPool, inBlock: set<Tx>, order: seq<Tx>, vtx: seq<Tx>, t: Tx)
    requires Selected(p, inBlock, order, vtx)
    requires t in p.txs && t !in inBlock && Ancestors(p, t) <= inBlock
    ensures Selected(p, inBlock + {t}, order + [t], vtx + (if t in p.isMWEBOnly then [] else [t]))
  {
    assert (order + [t])[..|order|] == order;
    assert t !in order by { assert t in order ==> t in Elements(order); }
    assert Elements(order + [t]) == Elements(order) + {t};
  }

  /** The block counters, exactly. */
  ghost predicate Accounted(p: MemPool, s: set<Tx>, weight: int, sigOps: int, mweb: int, fees: int) {
    && weight == 4000 + Sum(s, p.weight)
    && sigOps == 400 + Sum(s, p.sigOps)
    && mweb == Sum(s, p.mweb)
    && fees == Sum(s, p.fee)
  }

  lemma AccountedAdd(p: MemPool, s: set<Tx>, weight: int, sigOps: int, mweb: int, fees: int, t: Tx)
    requires Accounted(p, s, weight, sigOps, mweb, fees) && t !in s
    ensures Accounted(p, s + {t}, weight + At(p.weight, t), sigOps + At(p.sigOps, t), mweb + At(p.mweb, t),
                      fees + At(p.fee, t))
  {
    SumAdd(s, t, p.weight);
    SumAdd(s, t, p.sigOps);
    SumAdd(s, t, p.mweb);
    SumAdd(s, t, p.fee);
  }

  // ----- Sorting a package -----

  /** `CompareTxIterByAncestorCount`; a transaction is named by the place of its hash in the order of hashes. */
  predicate Earlier(p: MemPool, t: Tx, u: Tx) {
    Count(p, t) < Count(p, u) || (Count(p, t) == Count(p, u) && t < u)
  }

  predicate SortedByCount(p: MemPool, s: seq<Tx>) {
    forall i, j | 0 <= i < j < |s| :: Earlier(p, s[i], s[j])
  }

  /** `SortForBlock`: by ancestor count, and then by hash. */
  method SortForBlock(p: MemPool, package: set<Tx>) returns (sorted: seq<Tx>)
    ensures SortedByCount(p, sorted) && Elements(sorted) == package
  {
    hide Earlier;
    sorted := [];
    var left := package;
    while left != {}
      invariant SortedByCount(p, sorted)
      invariant Elements(sorted) + left == package && Elements(sorted) !! left
      invariant forall t, u | t in sorted && u in left :: Earlier(p, t, u)
      decreases left
    {
      var t := Fewest(p, left);
      sorted := sorted + [t];
      left := left - {t};
    }
  }

  method Fewest(p: MemPool, s: set<Tx>) returns (t: Tx)
    requires s != {}
    ensures t in s && forall u | u in s && u != t :: Earlier(p, t, u)
  {
    t :| t in s;
    var left := s - {t};
    while left != {}
      invariant t in s && left <= s
      invariant t !in left && forall u | u in s && u !in left && u != t :: Earlier(p, t, u)
      decreases left
    {
      var u :| u in left;
      if Earlier(p, u, t) {
        t := u;
      }
      left := left - {u};
    }
  }

  /** At position `i` of a package: a new transaction whose ancestors are in the block or earlier in the package. */
  ghost predicate InOrder(p: MemPool, inBlock: set<Tx>, package: seq<Tx>, i: nat)
    requires i < |package|
  {
    && package[i] in p.txs
    && package[i] !in inBlock + Elements(package[..i])
    && Ancestors(p, package[i]) <= inBlock + Elements(package[..i])
  }

  /** A package in an order in which it can be added to the block, ending with the transaction it is for. */
  ghost predicate Ordered(p: MemPool, inBlock: set<Tx>, iter: Tx, package: seq<Tx>) {
    && Elements(package) == Rest(p, iter, inBlock)
    && |package| > 0 && package[|package| - 1] == iter
    && forall i | 0 <= i < |package| :: InOrder(p, inBlock, package, i)
  }

  /** Sorting by ancestor count gives such an order. */
  lemma SortedIsOrdered(p: MemPool, inBlock: set<Tx>, iter: Tx, sorted: seq<Tx>)
    requires PoolOk(p) && iter in p.txs && iter !in inBlock
    requires SortedByCount(p, sorted) && Elements(sorted) == Rest(p, iter, inBlock)
    ensures Ordered(p, inBlock, iter, sorted)
  {
    forall i | 0 <= i < |sorted| ensures InOrder(p, inBlock, sorted, i) {
      SortedIsTopological(p, inBlock, iter, sorted, i);
    }
    assert iter in Elements(sorted);
    var k :| 0 <= k < |sorted| && sorted[k] == iter;
    var n := |sorted| - 1;
    if k < n {
      assert sorted[n] in Elements(sorted) && sorted[n] != iter;
      AncestorsCountLess(p, iter, sorted[n]);
    }
  }

  lemma SortedIsTopological(p: MemPool, inBlock: set<Tx>, iter: Tx, sorted: seq<Tx>, i: nat)
    requires PoolOk(p) && iter in p.txs
    requires SortedByCount(p, sorted) && Elements(sorted) == Rest(p, iter, inBlock) && i < |sorted|
    ensures InOrder(p, inBlock, sorted, i)
  {
    assert sorted[i] in Elements(sorted);
    assert EntryOk(p, iter) && EntryOk(p, sorted[i]);
    forall a | a in Ancestors(p, sorted[i]) && a !in inBlock ensures a in sorted[..i] {
      assert a in Package(p, iter);
      assert a in Elements(sorted);
      var j :| 0 <= j < |sorted| && sorted[j] == a;
      AncestorsCountLess(p, sorted[i], a);
      assert j < i;
      assert a == sorted[..i][j];
    }
  }

  lemma PrefixAndSuffix(p: MemPool, inBlock: set<Tx>, iter: Tx, package: seq<Tx>, i: nat)
    requires Ordered(p, inBlock, iter, package) && i < |package|
    ensures Elements(package[..i + 1]) == Elements(package[..i]) + {package[i]} <= Elements(package)
    ensures Elements(package[i..]) == Elements(package) - (inBlock + Elements(package[..i]))
    ensures Elements(package[..i]) + Elements(package[i..]) == Elements(package)
    ensures iter in Elements(package[i..]) && package[i] in Elements(package)
  {
    assert package[..i + 1] == package[..i] + [package[i]];
    assert package == package[..i] + package[i..];
    assert iter == package[i..][|package| - 1 - i];
    forall k | i <= k < |package| ensures package[k] !in package[..i] {
      assert InOrder(p, inBlock, package, k);
      assert package[..i] == package[..k][..i];
      assert package[k] !in Elements(package[..k]);
    }
    forall t | t in package[i..] ensures t !in package[..i] {
      var k :| 0 <= k < |package[i..]| && package[i..][k] == t;
      assert t == package[i + k];
    }
  }

  // ----- Modified entries -----

  /** The map `m` is `m0` after the transactions `done`, all of them in `added`, have been accounted for. */
  ghost predicate UpdatedFor(p: MemPool, m0: Modified, m: Modified, added: set<Tx>, done: set<Tx>) {
    && (forall t | t in p.txs && t !in added :: AfterAncestors(p, m0, m, t, done * Ancestors(p, t)))
    && (forall t | t in added :: AfterAncestors(p, m0, m, t, {}))
  }

  /** `mapModifiedTx` holds only unselected transactions, with totals that cover what is left of their packages. */
  ghost predicate ModifiedOk(p: MemPool, inBlock: set<Tx>, m: Modified) {
    m.Keys <= p.txs - inBlock && forall t | t in m :: Covers(p, m[t], Rest(p, t, inBlock))
  }

  /** The totals under which an unselected transaction would be considered are exactly those of its open package. */
  ghost predicate ExactAt(p: MemPool, inBlock: set<Tx>, m: Modified, t: Tx) {
    if t in m then Exact(p, m[t], Rest(p, t, inBlock)) else Ancestors(p, t) !! inBlock
  }

  ghost predicate ExactTotals(p: MemPool, inBlock: set<Tx>, m: Modified, failed: set<Tx>) {
    forall t | t in p.txs && t !in inBlock && t !in failed :: ExactAt(p, inBlock, m, t)
  }

  lemma CachedCovers(p: MemPool, t: Tx, inBlock: set<Tx>)
    requires PoolOk(p) && t in p.txs
    ensures Covers(p, Cached(p, t), Rest(p, t, inBlock))
    ensures Ancestors(p, t) !! inBlock && t !in inBlock ==> Exact(p, Cached(p, t), Rest(p, t, inBlock))
  {
    assert EntryOk(p, t);
    CostsOfSubset(p, Rest(p, t, inBlock), Package(p, t));
    if Ancestors(p, t) !! inBlock && t !in inBlock {
      assert Rest(p, t, inBlock) == Package(p, t);
    }
  }

  lemma CoversMore(p: MemPool, e: Totals, t: Tx, inBlock: set<Tx>, more: set<Tx>)
    requires PoolOk(p) && t in p.txs && Covers(p, e, Rest(p, t, inBlock)) && inBlock <= more
    ensures Covers(p, e, Rest(p, t, more))
  {
    assert EntryOk(p, t);
    CostsOfSubset(p, Rest(p, t, more), Rest(p, t, inBlock));
  }

  /** Dropping entries and selecting more transactions keeps the remaining entries covering. */
  lemma ModifiedShrinks(p: MemPool, inBlock: set<Tx>, m: Modified, more: set<Tx>, r: Modified)
    requires PoolOk(p) && ModifiedOk(p, inBlock, m) && inBlock <= more
    requires r.Keys <= m.Keys - more && forall t | t in r :: r[t] == m[t]
    ensures ModifiedOk(p, more, r)
  {
    forall t | t in r ensures Covers(p, r[t], Rest(p, t, more)) {
      CoversMore(p, m[t], t, inBlock, more);
    }
  }

  /** One entry of the modified map after a package went in. */
  lemma UpdatedEntry(p: MemPool, inBlock: set<Tx>, m: Modified, r: Modified, added: set<Tx>, t: Tx)
    requires PoolOk(p) && Closed(p, inBlock) && ModifiedOk(p, inBlock, m)
    requires added <= p.txs && added !! inBlock && m.Keys !! added
    requires UpdatedFor(p, m, r, added, added)
    requires t in p.txs
    ensures t in r ==> t !in inBlock + added && Covers(p, r[t], Rest(p, t, inBlock + added))
    ensures t !in inBlock + added && ExactAt(p, inBlock, m, t) ==> ExactAt(p, inBlock + added, r, t)
  {
    if t !in added {
      var s, b := added * Ancestors(p, t), Base(p, m, t);
      assert AfterAncestors(p, m, r, t, s);
      if t in r {
        assert Covers(p, b, Rest(p, t, inBlock)) by {
          if t !in m { CachedCovers(p, t, inBlock); }
        }
        CachedCovers(p, t, inBlock);
        CoversAfter(p, t, r[t], b, inBlock, added, t in m);
      } else {
        assert s == {};
        assert Ancestors(p, t) !! added by {
          assert forall a | a in Ancestors(p, t) && a in added :: a in s;
        }
      }
    } else {
      assert AfterAncestors(p, m, r, t, {});
    }
  }

  /** After a whole package went in, the updated map is right for the larger block. */
  lemma ModifiedUpdated(p: MemPool, inBlock: set<Tx>, m: Modified, r: Modified, added: set<Tx>, failed: set<Tx>)
    requires PoolOk(p) && Closed(p, inBlock) && ModifiedOk(p, inBlock, m)
    requires added <= p.txs && added !! inBlock && m.Keys !! added && r.Keys <= p.txs
    requires UpdatedFor(p, m, r, added, added)
    ensures ModifiedOk(p, inBlock + added, r)
    ensures (forall t | t in p.txs && t !in inBlock + added && t !in failed :: ExactAt(p, inBlock, m, t)) ==>
              ExactTotals(p, inBlock + added, r, failed)
  {
    forall t | t in p.txs
      ensures t in r ==> t !in inBlock + added && Covers(p, r[t], Rest(p, t, inBlock + added))
      ensures t !in inBlock + added && ExactAt(p, inBlock, m, t) ==> ExactAt(p, inBlock + added, r, t)
    {
      UpdatedEntry(p, inBlock, m, r, added, t);
    }
  }

  /** The bookkeeping for a package that went in completely, from the map before to the updated map. */
  lemma PackageAdded(p: MemPool, inBlock: set<Tx>, m: Modified, r: Modified, added: set<Tx>, failed: set<Tx>)
    requires PoolOk(p) && Closed(p, inBlock) && ModifiedOk(p, inBlock, m)
    requires added <= p.txs && added !! inBlock && r.Keys <= p.txs
    requires UpdatedFor(p, m - added, r, added, added)
    ensures ModifiedOk(p, inBlock + added, r)
    ensures ExactTotals(p, inBlock, m, failed) ==> ExactTotals(p, inBlock + added, r, failed)
  {
    var dropped := m - added;
    ModifiedShrinks(p, inBlock, m, inBlock, dropped);
    if ExactTotals(p, inBlock, m, failed) {
      forall t | t in p.txs && t !in inBlock + added && t !in failed ensures ExactAt(p, inBlock, dropped, t) {
        assert ExactAt(p, inBlock, m, t);
      }
    }
    ModifiedUpdated(p, inBlock, dropped, r, added, failed);
  }

  lemma AfterOthers(p: MemPool, m0: Modified, m: Modified, r: Modified, t: Tx)
    requires forall u | u != t :: (u in r <==> u in m) && (u in r ==> r[u] == m[u])
    ensures forall u, s | u != t && AfterAncestors(p, m0, m, u, s) :: AfterAncestors(p, m0, r, u, s)
  {
  }

  lemma DropTwice(m: Modified, s: set<Tx>, u: set<Tx>, both: set<Tx>)
    requires s + u == both
    ensures m - s - u == m - both
  {
  }

  // ----- The assembler -----

  class BlockAssembler {
    const pool: MemPool
    const nBlockMaxWeight: int
    const fIncludeWitness: bool
    const fIncludeMWEB: bool
    /** `blockMinFeeRate.GetTotalFee`. */
    const MinFee: (int, int) -> int
    /** `CompareTxMemPoolEntryByAncestorFee`. */
    const Better: (Tx, Totals, Tx, Totals) -> bool

    var inBlock: set<Tx>
    var vtx: seq<Tx>
    var nBlockWeight: int
    var nBlockTx: int
    var nBlockSigOpsCost: int
    var nBlockMWEBWeight: int
    var nFees: int
    /** The order in which transactions were selected, those without an entry of their own included. */
    ghost var order: seq<Tx>

    ghost predicate WithinBudget(s: set<Tx>) {
      && 4000 + Sum(s, pool.weight) < nBlockMaxWeight
      && 400 + Sum(s, pool.sigOps) < MAX_BLOCK_SIGOPS_COST
      && Sum(s, pool.mweb) < MAX_MINE_WEIGHT
    }

    /** A set of transactions pays the minimum fee rate on its own size. */
    ghost predicate Pays(s: set<Tx>) {
      Sum(s, pool.modFee) >= MinFee(Sum(s, pool.size), Sum(s, pool.mweb))
    }

    /** A block grows by what was missing of the package of `t`, and that pays its way. */
    ghost predicate PaidPackage(t: Tx, before: set<Tx>, after: set<Tx>) {
      t in pool.txs - before && after == before + Rest(pool, t, before) && Pays(Rest(pool, t, before))
    }

    ghost predicate PaidStep(before: set<Tx>, after: set<Tx>) {
      exists t :: PaidPackage(t, before, after)
    }

    /** A block grew from `before` to `after` by whole packages, one after the other, each of which pays its way. */
    ghost predicate PaidRun(before: set<Tx>, stages: seq<set<Tx>>, after: set<Tx>) {
      && |stages| > 0 && stages[0] == before && stages[|stages| - 1] == after
      && forall i | 0 < i < |stages| :: PaidStep(stages[i - 1], stages[i])
    }

    /** The stages of a run that goes on for one turn, which may have left the block as it was. */
    ghost function Grown(stages: seq<set<Tx>>, before: set<Tx>, after: set<Tx>): (r: seq<set<Tx>>)
      ensures before == after || PaidStep(before, after) ==>
                forall start | PaidRun(start, stages, before) :: PaidRun(start, r, after)
    {
      if before == after then stages else stages + [after]
    }

    /** What holds whenever no transaction is half added. */
    ghost predicate Valid()
      reads this
    {
      && 4000 <= nBlockMaxWeight <= MAX_BLOCK_WEIGHT - 4000
      && Selected(pool, inBlock, order, vtx) && nBlockTx == |vtx|
      && Accounted(pool, inBlock, nBlockWeight, nBlockSigOpsCost, nBlockMWEBWeight, nFees)
      && (inBlock == {} || WithinBudget(inBlock))
    }

    constructor (pool: MemPool, maxWeight: int, minFee: (int, int) -> int, better: (Tx, Totals, Tx, Totals) -> bool,
                 withWitness: bool, withMWEB: bool)
      ensures Valid() && inBlock == {} && this.pool == pool
    {
      this.pool, MinFee, Better, fIncludeWitness, fIncludeMWEB := pool, minFee, better, withWitness, withMWEB;
      // limit weight to between 4K and MAX_BLOCK_WEIGHT - 4K
      var capped := if MAX_BLOCK_WEIGHT - 4000 < maxWeight then MAX_BLOCK_WEIGHT - 4000 else maxWeight;
      nBlockMaxWeight := if 4000 < capped then capped else 4000;
      new;
      resetBlock();
    }

    method resetBlock()
      requires 4000 <= nBlockMaxWeight <= MAX_BLOCK_WEIGHT - 4000
      modifies this
      ensures Valid() && inBlock == {}
    {
      inBlock, vtx, order := {}, [], [];
      nBlockWeight, nBlockSigOpsCost, nBlockMWEBWeight := 4000, 400, 0;
      nBlockTx, nFees := 0, 0;
    }

    method TestPackage(packageSize: int, packageSigOpsCost: int, packageMWEBWeight: int) returns (ok: bool)
      ensures ok <==> && nBlockWeight + WITNESS_SCALE_FACTOR * packageSize < nBlockMaxWeight
                      && nBlockSigOpsCost + packageSigOpsCost < MAX_BLOCK_SIGOPS_COST
                      && nBlockMWEBWeight + packageMWEBWeight < MAX_MINE_WEIGHT
    {
      if nBlockWeight + WITNESS_SCALE_FACTOR * packageSize >= nBlockMaxWeight { return false; }
      if nBlockSigOpsCost + packageSigOpsCost >= MAX_BLOCK_SIGOPS_COST { return false; }
      if nBlockMWEBWeight + packageMWEBWeight >= MAX_MINE_WEIGHT { return false; }
      return true;
    }

    predicate TxOk(t: Tx, failedTxs: set<Tx>) {
      t in pool.isFinal && (fIncludeWitness || t !in pool.hasWitness) && (fIncludeMWEB || t !in pool.hasMWEB)
        && t !in failedTxs
    }

    method TestPackageTransactions(package: set<Tx>, failedTxs: set<Tx>) returns (ok: bool)
      ensures ok <==> forall t | t in package :: TxOk(t, failedTxs)
    {
      var left := package;
      while left != {}
        invariant left <= package
        invariant forall t | t in package && t !in left :: TxOk(t, failedTxs)
        decreases left
      {
        var it :| it in left;
        if it !in pool.isFinal { return false; }
        if !fIncludeWitness && it in pool.hasWitness { return false; }
        if !fIncludeMWEB && it in pool.hasMWEB { return false; }
        if it in failedTxs { return false; }
        left := left - {it};
      }
      return true;
    }

    /** The block counters after one more transaction. */
    method CountIn(iter: Tx)
      requires Accounted(pool, inBlock, nBlockWeight, nBlockSigOpsCost, nBlockMWEBWeight, nFees) && iter !in inBlock
      modifies `nBlockWeight, `nBlockSigOpsCost, `nBlockMWEBWeight, `nFees
      ensures Accounted(pool, inBlock + {iter}, nBlockWeight, nBlockSigOpsCost, nBlockMWEBWeight, nFees)
    {
      AccountedAdd(pool, inBlock, nBlockWeight, nBlockSigOpsCost, nBlockMWEBWeight, nFees, iter);
      nBlockWeight := nBlockWeight + At(pool.weight, iter);
      nBlockSigOpsCost := nBlockSigOpsCost + At(pool.sigOps, iter);
      nBlockMWEBWeight := nBlockMWEBWeight + At(pool.mweb, iter);
      nFees := nFees + At(pool.fee, iter);
    }

    /** Adding a transaction whose ancestors are in the block; it fails only if its MWEB part is refused. */
    method AddToBlock(iter: Tx) returns (ok: bool)
      requires Valid() && iter in pool.txs && iter !in inBlock && Ancestors(pool, iter) <= inBlock
      requires WithinBudget(inBlock + {iter})
      modifies this
      ensures Valid()
      ensures inBlock == if ok then old(inBlock) + {iter} else old(inBlock)
      ensures order == if ok then old(order) + [iter] else old(order)
      ensures iter !in pool.hasMWEB ==> ok
    {
      if iter in pool.hasMWEB {
        var added: bool := *;
        if !added { return false; }
      }
      SelectedAdd(pool, inBlock, order, vtx, iter);
      if iter !in pool.isMWEBOnly {
        vtx := vtx + [iter];
        nBlockTx := nBlockTx + 1;
      } else {
        assert vtx + [] == vtx;
      }
      CountIn(iter);
      inBlock := inBlock + {iter};
      order := order + [iter];
      return true;
    }

    /** The inner loop of `UpdatePackagesForAdded`: account for one included transaction in all its descendants. */
    method IncludeInDescendants(it: Tx, alreadyAdded: set<Tx>, ghost m0: Modified, ghost earlier: set<Tx>, m: Modified)
      returns (r: Modified, nUpdated: nat)
      requires it in alreadyAdded && it !in earlier && m.Keys <= pool.txs
      requires UpdatedFor(pool, m0, m, alreadyAdded, earlier)
      ensures r.Keys <= pool.txs
      ensures UpdatedFor(pool, m0, r, alreadyAdded, earlier + {it})
    {
      r, nUpdated := m, 0;
      var descendants := set d | d in pool.txs && (d == it || it in Ancestors(pool, d));
      var left := descendants;
      while left != {}
        invariant left <= descendants && r.Keys <= pool.txs
        invariant forall d | d in pool.txs && d !in alreadyAdded && (d in left || d !in descendants) ::
                    AfterAncestors(pool, m0, r, d, earlier * Ancestors(pool, d))
        invariant forall d | d in pool.txs && d !in alreadyAdded && d in descendants && d !in left ::
                    AfterAncestors(pool, m0, r, d, (earlier + {it}) * Ancestors(pool, d))
        invariant forall d | d in alreadyAdded :: AfterAncestors(pool, m0, r, d, {})
        decreases left
      {
        var desc :| desc in left;
        left := left - {desc};
        if desc !in alreadyAdded {
          nUpdated := nUpdated + 1;
          IncludeStep(pool, m0, r, desc, earlier * Ancestors(pool, desc), it);
          assert (earlier + {it}) * Ancestors(pool, desc) == earlier * Ancestors(pool, desc) + {it};
          ghost var before := r;
          r := r[desc := Include(pool, r, desc, it)];
          AfterOthers(pool, m0, before, r, desc);
        }
      }
      forall d | d in pool.txs && d !in descendants
        ensures (earlier + {it}) * Ancestors(pool, d) == earlier * Ancestors(pool, d)
      {
      }
    }

    /** Accounts for transactions that are in the block now in every descendant that is not. */
    method UpdatePackagesForAdded(alreadyAdded: set<Tx>, m: Modified) returns (r: Modified, nDescendantsUpdated: nat)
      requires m.Keys <= pool.txs
      ensures r.Keys <= pool.txs
      ensures UpdatedFor(pool, m, r, alreadyAdded, alreadyAdded)
    {
      r, nDescendantsUpdated := m, 0;
      var left := alreadyAdded;
      ghost var done: set<Tx> := {};
      while left != {}
        invariant r.Keys <= pool.txs
        invariant done + left == alreadyAdded && done !! left
        invariant UpdatedFor(pool, m, r, alreadyAdded, done)
        decreases left
      {
        var it :| it in left;
        var n;
        r, n := IncludeInDescendants(it, alreadyAdded, m, done, r);
        nDescendantsUpdated := nDescendantsUpdated + n;
        left, done := left - {it}, done + {it};
      }
      assert done == alreadyAdded;
    }

    /** `onlyUnconfirmed`: drop what is in the block already. */
    method onlyUnconfirmed(testSet: set<Tx>) returns (r: set<Tx>)
      ensures r == testSet - inBlock
    {
      r := testSet;
      var left := testSet;
      while left != {}
        invariant left <= testSet
        invariant r == testSet - (inBlock - left)
        decreases left
      {
        var iit :| iit in left;
        if iit in inBlock {
          r := r - {iit};
        }
        left := left - {iit};
      }
    }

    predicate SkipMapTxEntry(it: Tx, m: Modified, failedTx: set<Tx>)
      reads this
    {
      it in m || it in inBlock || it in failedTx
    }

    /** What passing `TestPackage` buys: the whole package fits. */
    lemma TestedPackageFits(iter: Tx, e: Totals)
      requires Valid() && PoolOk(pool) && iter in pool.txs && Covers(pool, e, Rest(pool, iter, inBlock))
      requires nBlockWeight + WITNESS_SCALE_FACTOR * e.size < nBlockMaxWeight
      requires nBlockSigOpsCost + e.sigOps < MAX_BLOCK_SIGOPS_COST
      requires nBlockMWEBWeight + e.mweb < MAX_MINE_WEIGHT
      ensures WithinBudget(inBlock + Rest(pool, iter, inBlock))
    {
      var s := Rest(pool, iter, inBlock);
      assert EntryOk(pool, iter);
      WeightBySize(pool, s);
      SumSplit(inBlock, s, pool.weight);
      SumSplit(inBlock, s, pool.sigOps);
      SumSplit(inBlock, s, pool.mweb);
    }

    lemma BudgetOfSubset(s: set<Tx>, u: set<Tx>)
      requires PoolOk(pool) && s <= u <= pool.txs && WithinBudget(u)
      ensures WithinBudget(s)
    {
      CostsOfSubset(pool, s, u);
    }

    /** The package of `iter`, in order, which fits on top of the block `before`. */
    ghost predicate Addable(iter: Tx, sortedEntries: seq<Tx>, before: set<Tx>) {
      && PoolOk(pool) && before + Elements(sortedEntries) <= pool.txs
      && Ordered(pool, before, iter, sortedEntries)
      && WithinBudget(before + Elements(sortedEntries))
    }

    /** One turn of the loop that adds a package. */
    method AddEntry(iter: Tx, sortedEntries: seq<Tx>, i: nat, ghost before: set<Tx>) returns (ok: bool)
      requires Valid() && Addable(iter, sortedEntries, before)
      requires i < |sortedEntries| && inBlock == before + Elements(sortedEntries[..i])
      modifies this
      ensures Valid()
      ensures inBlock == if ok then before + Elements(sortedEntries[..i + 1]) else old(inBlock)
      ensures sortedEntries[i] !in pool.hasMWEB ==> ok
    {
      var t := sortedEntries[i];
      PrefixAndSuffix(pool, before, iter, sortedEntries, i);
      assert InOrder(pool, before, sortedEntries, i);
      assert inBlock + {t} == before + Elements(sortedEntries[..i + 1]);
      BudgetOfSubset(inBlock + {t}, before + Elements(sortedEntries));
      ok := AddToBlock(t);
    }

    /** Add a sorted package; on a refusal the rest of it is marked failed, and none of it stays modified. */
    method AddPackage(iter: Tx, sortedEntries: seq<Tx>, m: Modified, failedTx: set<Tx>)
      returns (failed: bool, r: Modified, failedTx': set<Tx>)
      requires Valid() && Addable(iter, sortedEntries, inBlock)
      modifies this
      ensures Valid()
      ensures r == m - Elements(sortedEntries)
      ensures old(inBlock) <= inBlock <= old(inBlock) + Elements(sortedEntries)
      ensures !failed ==> inBlock == old(inBlock) + Elements(sortedEntries) && failedTx' == failedTx
      ensures failed ==> failedTx' == failedTx + (Elements(sortedEntries) - inBlock) && iter in failedTx'
      ensures Elements(sortedEntries) !! pool.hasMWEB ==> !failed
    {
      r, failedTx', failed := m, failedTx, false;
      var i := 0;
      while i < |sortedEntries|
        invariant 0 <= i <= |sortedEntries|
        invariant Valid() && !failed && failedTx' == failedTx
        invariant inBlock == old(inBlock) + Elements(sortedEntries[..i])
        invariant Elements(sortedEntries[..i]) <= Elements(sortedEntries)
        invariant r == m - Elements(sortedEntries[..i])
      {
        PrefixAndSuffix(pool, old(inBlock), iter, sortedEntries, i);
        var ok := AddEntry(iter, sortedEntries, i, old(inBlock));
        if !ok {
          DropTwice(m, Elements(sortedEntries[..i]), Elements(sortedEntries[i..]), Elements(sortedEntries));
          failedTx' := failedTx + Elements(sortedEntries[i..]);
          r := r - Elements(sortedEntries[i..]);
          failed := true;
          return;
        }
        DropTwice(m, Elements(sortedEntries[..i]), {sortedEntries[i]}, Elements(sortedEntries[..i + 1]));
        r := r - {sortedEntries[i]};
        i := i + 1;
      }
      assert sortedEntries[..i] == sortedEntries;
    }

    /**
     What package selection keeps between any two of its steps: modified entries are unselected and cover
     what is left of their packages; and as long as no transaction was refused by the MWEB miner, the
     totals of every transaction that has not failed are exact.
     */
    ghost predicate Consistent(m: Modified, failedTx: set<Tx>, noRefusal: bool)
      reads this
    {
      && PoolOk(pool) && ModifiedOk(pool, inBlock, m)
      && (noRefusal ==> ExactTotals(pool, inBlock, m, failedTx))
    }

    /** Sort and add the package of a transaction, and account for it in the descendants if all of it went in. */
    method SelectPackage(iter: Tx, package: set<Tx>, m: Modified, failedTx: set<Tx>, ghost noRefusal: bool)
      returns (failed: bool, r: Modified, failedTx': set<Tx>, nUpdated: nat)
      requires Valid() && Consistent(m, failedTx, noRefusal)
      requires iter in pool.txs && iter !in inBlock && package == Rest(pool, iter, inBlock)
      requires WithinBudget(inBlock + package)
      modifies this
      ensures Valid() && Consistent(r, failedTx', noRefusal && !failed)
      ensures old(inBlock) <= inBlock && failedTx <= failedTx'
      ensures !failed ==> inBlock == old(inBlock) + package && failedTx' == failedTx
      ensures failed ==> r.Keys <= m.Keys - {iter} && iter in failedTx'
      ensures pool.txs !! pool.hasMWEB ==> !failed
    {
      nUpdated := 0;
      var sortedEntries := SortForBlock(pool, package);
      SortedIsOrdered(pool, inBlock, iter, sortedEntries);
      assert EntryOk(pool, iter);
      OrderIsClosed(pool, order);
      ghost var before := inBlock;
      failed, r, failedTx' := AddPackage(iter, sortedEntries, m, failedTx);
      if failed {
        ModifiedShrinks(pool, before, m, inBlock, r);
      } else {
        r, nUpdated := UpdatePackagesForAdded(package, r);
        PackageAdded(pool, before, m, r, package, failedTx);
      }
    }

    /** From the computation of the ancestors on: test the transactions of the package, then select it. */
    method TryPackage(iter: Tx, m: Modified, failedTx: set<Tx>, ghost noRefusal: bool)
      returns (tested: bool, failed: bool, r: Modified, failedTx': set<Tx>, nUpdated: nat)
      requires Valid() && Consistent(m, failedTx, noRefusal)
      requires iter in pool.txs && iter !in inBlock
      requires WithinBudget(inBlock + Rest(pool, iter, inBlock))
      modifies this
      ensures Valid() && Consistent(r, failedTx', noRefusal && !failed)
      ensures old(inBlock) <= inBlock && failedTx <= failedTx'
      ensures tested <==> forall t | t in Rest(pool, iter, old(inBlock)) :: TxOk(t, failedTx)
      ensures !tested ==> !failed && inBlock == old(inBlock) && r == m && failedTx' == failedTx
      ensures tested && !failed ==> inBlock == old(inBlock) + Rest(pool, iter, old(inBlock)) && failedTx' == failedTx
      ensures failed ==> r.Keys <= m.Keys - {iter} && iter in failedTx'
      ensures pool.txs !! pool.hasMWEB ==> !failed
    {
      r, failedTx', failed, nUpdated := m, failedTx, false, 0;
      var ancestors := onlyUnconfirmed(Ancestors(pool, iter));
      ancestors := ancestors + {iter};
      assert ancestors == Rest(pool, iter, inBlock);
      tested := TestPackageTransactions(ancestors, failedTx);
      if tested {
        failed, r, failedTx', nUpdated := SelectPackage(iter, ancestors, m, failedTx, noRefusal);
      }
    }

    /** No other modified entry scores better. */
    predicate First(m: Modified, t: Tx) {
      t in m && forall u | u in m :: !Better(u, m[u], t, m[t])
    }

    /** The front of the index of `mapModifiedTx` by score; any entry, if the comparison should not order them. */
    method BestModified(m: Modified) returns (t: Tx)
      requires m != map[]
      ensures t in m && ((exists u :: First(m, u)) ==> First(m, t))
    {
      if u :| u in m && First(m, u) {
        t := u;
      } else {
        t :| t in m;
      }
    }

    /** The entry to consider: the next one of the mempool, or the best modified one if it scores better. */
    method Choose(byScore: seq<Tx>, mi: nat, m: Modified)
      returns (iter: Tx, fUsingModified: bool, mi': nat, ghost best: Tx)
      requires mi <= |byScore| && (mi < |byScore| || m != map[])
      ensures if fUsingModified then iter in m && mi' == mi else mi < |byScore| && iter == byScore[mi] && mi' == mi + 1
      ensures m != map[] ==> best in m && ((exists u :: First(m, u)) ==> First(m, best))
      ensures fUsingModified ==>
                iter == best && (mi < |byScore| ==> Better(best, m[best], byScore[mi], Cached(pool, byScore[mi])))
      ensures !fUsingModified && m != map[] ==> !Better(best, m[best], byScore[mi], Cached(pool, byScore[mi]))
    {
      mi', fUsingModified, best := mi, true, 0;
      if m != map[] {
        iter := BestModified(m);
        best := iter;
        if mi == |byScore| || Better(iter, m[iter], byScore[mi], Cached(pool, byScore[mi])) { return; }
      }
      iter, fUsingModified, mi' := byScore[mi], false, mi + 1;
    }

    /** The comparison is the one of the program. */
    ghost predicate ByAncestorFee() {
      forall t, e, u, f :: Better(t, e, u, f) <==> Higher(ScoreOf(pool, t, e), t, ScoreOf(pool, u, f), u)
    }

    /** The mempool's own index is in the order of the comparison, and no transaction is without a size. */
    ghost predicate Indexed(byScore: seq<Tx>) {
      && ByAncestorFee() && (forall t | t in pool.txs :: At(pool.size, t) > 0)
      && forall i, j | 0 <= i < j < |byScore| ::
           !Better(byScore[j], Cached(pool, byScore[j]), byScore[i], Cached(pool, byScore[i]))
    }

    /** What there is to consider: the modified entries, and those of the mempool that are still to come. */
    ghost predicate Candidate(byScore: seq<Tx>, mi: nat, m: Modified, failedTx: set<Tx>, u: Tx)
      reads this
    {
      u in m || exists j :: mi <= j < |byScore| && byScore[j] == u && !SkipMapTxEntry(u, m, failedTx)
    }

    lemma BaseSized(m: Modified, t: Tx)
      requires PoolOk(pool) && ModifiedOk(pool, inBlock, m) && t in pool.txs && t !in inBlock && At(pool.size, t) > 0
      ensures Sized(pool, m, t)
    {
      CandidateCovered(t, m);
      assert EntryOk(pool, t);
      var rest := Rest(pool, t, inBlock);
      CostsNonNegative(pool, rest);
      SumRemove(rest, t, pool.size);
      SumNonNegative(rest - {t}, pool.size);
    }

    lemma CandidateSized(byScore: seq<Tx>, mi: nat, m: Modified, failedTx: set<Tx>, u: Tx)
      requires PoolOk(pool) && ModifiedOk(pool, inBlock, m) && Elements(byScore) <= pool.txs && Indexed(byScore)
      requires Candidate(byScore, mi, m, failedTx, u)
      ensures u in pool.txs && u !in inBlock && Sized(pool, m, u)
    {
      hide Sized;
      if u !in m {
        var j :| mi <= j < |byScore| && byScore[j] == u && !SkipMapTxEntry(u, m, failedTx);
        assert byScore[j] in Elements(byScore);
      }
      BaseSized(m, u);
    }

    lemma FirstModified(m: Modified)
      requires PoolOk(pool) && ModifiedOk(pool, inBlock, m) && m != map[] && ByAncestorFee()
      requires forall t | t in pool.txs :: At(pool.size, t) > 0
      ensures exists u :: First(m, u)
    {
      hide Sized, Higher, ScoreOf;
      forall u | u in m.Keys ensures Sized(pool, m, u) { BaseSized(m, u); }
      var t := FirstOf(pool, m, m.Keys);
      assert First(m, t);
    }

    /** No candidate comes before the one that is chosen. */
    lemma ChosenIsBest(byScore: seq<Tx>, mi: nat, m: Modified, failedTx: set<Tx>, iter: Tx, fUsingModified: bool,
                       best: Tx,
                       u: Tx)
      requires PoolOk(pool) && ModifiedOk(pool, inBlock, m) && Elements(byScore) <= pool.txs && Indexed(byScore)
      requires mi <= |byScore| && (mi < |byScore| ==> !SkipMapTxEntry(byScore[mi], m, failedTx))
      requires m != map[] ==> best in m && ((exists u :: First(m, u)) ==> First(m, best))
      requires if fUsingModified then iter == best && best in m else mi < |byScore| && iter == byScore[mi]
      requires mi < |byScore| && m != map[] ==>
                 (fUsingModified <==> Better(best, m[best], byScore[mi], Cached(pool, byScore[mi])))
      requires Candidate(byScore, mi, m, failedTx, u)
      ensures !Precedes(pool, m, u, iter)
    {
      hide Sized, Higher, ScoreOf;
      CandidateSized(byScore, mi, m, failedTx, u);
      if m != map[] {
        FirstModified(m);
        BaseSized(m, best);
      }
      if mi < |byScore| {
        CandidateSized(byScore, mi, m, failedTx, byScore[mi]);
        PrecedesTotal(pool, m, byScore[mi], byScore[mi]);
      }
      if u in m {
        if !fUsingModified { NotPreceded(pool, m, u, best, iter); }
      } else {
        var j :| mi <= j < |byScore| && byScore[j] == u && !SkipMapTxEntry(u, m, failedTx);
        assert !Precedes(pool, m, u, byScore[mi]);
        if fUsingModified {
          PrecedesTotal(pool, m, best, byScore[mi]);
          NotPreceded(pool, m, u, byScore[mi], best);
        }
      }
    }

    /** Selection stops at a candidate that does not pay, and no candidate comes before it. */
    ghost predicate StoppedAt(byScore: seq<Tx>, mi: nat, m: Modified, failedTx: set<Tx>, t: Tx)
      reads this
    {
      && Candidate(byScore, mi, m, failedTx, t)
      && Base(pool, m, t).modFees < MinFee(Base(pool, m, t).size, Base(pool, m, t).mweb)
      && (Indexed(byScore) ==> forall u | Candidate(byScore, mi, m, failedTx, u) :: !Precedes(pool, m, u, t))
    }

    /** Giving up on a candidate: a modified entry is erased and its transaction marked failed. */
    method GiveUp(iter: Tx, fUsingModified: bool, m: Modified, failedTx: set<Tx>, ghost noRefusal: bool)
      returns (r: Modified, failedTx': set<Tx>)
      requires Consistent(m, failedTx, noRefusal)
      ensures Consistent(r, failedTx', noRefusal)
      ensures r == if fUsingModified then m - {iter} else m
      ensures failedTx' == if fUsingModified then failedTx + {iter} else failedTx
    {
      r, failedTx' := m, failedTx;
      if fUsingModified {
        r, failedTx' := m - {iter}, failedTx + {iter};
        ModifiedShrinks(pool, inBlock, m, inBlock, r);
        if noRefusal {
          forall t | t in pool.txs && t !in inBlock && t !in failedTx' ensures ExactAt(pool, inBlock, r, t) {
            assert ExactAt(pool, inBlock, m, t);
          }
        }
      }
    }

    /** The second half of a turn: try the package of a candidate that fits, and give up on one that does not pass. */
    method SelectOrGiveUp(iter: Tx, fUsingModified: bool, m: Modified, failedTx: set<Tx>, ghost noRefusal: bool)
      returns (selected: bool, r: Modified, failedTx': set<Tx>, nUpdated: nat, ghost noRefusal': bool)
      requires Valid() && Consistent(m, failedTx, noRefusal)
      requires iter in pool.txs && iter !in inBlock && WithinBudget(inBlock + Rest(pool, iter, inBlock))
      modifies this
      ensures Valid() && Consistent(r, failedTx', noRefusal') && (noRefusal' ==> noRefusal)
      ensures old(inBlock) <= inBlock && failedTx <= failedTx'
      ensures selected <==> forall t | t in Rest(pool, iter, old(inBlock)) :: TxOk(t, failedTx)
      ensures selected && noRefusal' ==> iter in inBlock && inBlock == old(inBlock) + Rest(pool, iter, old(inBlock))
      ensures !selected ==> inBlock == old(inBlock)
      ensures iter in inBlock || !fUsingModified || r.Keys <= m.Keys - {iter}
      ensures noRefusal && pool.txs !! pool.hasMWEB ==> noRefusal'
    {
      var failed;
      selected, failed, r, failedTx', nUpdated := TryPackage(iter, m, failedTx, noRefusal);
      noRefusal' := noRefusal && !failed;
      if !selected {
        r, failedTx' := GiveUp(iter, fUsingModified, m, failedTx, noRefusal);
      }
    }

    /** Without fee deltas and refusals, a candidate is judged by the fees of exactly what is left of its package. */
    lemma JudgedExactly(iter: Tx, m: Modified, failedTx: set<Tx>)
      requires Consistent(m, failedTx, true) && FeesAgree(pool)
      requires iter in pool.txs && iter !in inBlock && iter !in failedTx
      ensures Base(pool, m, iter) == TotalsOf(pool, Rest(pool, iter, inBlock))
    {
      assert ExactAt(pool, inBlock, m, iter);
      if iter !in m { CachedCovers(pool, iter, inBlock); }
    }

    lemma CandidatePays(iter: Tx, m: Modified, failedTx: set<Tx>, noRefusal: bool)
      requires Consistent(m, failedTx, noRefusal) && iter in pool.txs && iter !in inBlock
      requires Base(pool, m, iter).modFees >= MinFee(Base(pool, m, iter).size, Base(pool, m, iter).mweb)
      ensures noRefusal && FeesAgree(pool) && iter !in failedTx ==> Pays(Rest(pool, iter, inBlock))
    {
      if noRefusal && FeesAgree(pool) && iter !in failedTx { JudgedExactly(iter, m, failedTx); }
    }

    /**
     Consider a candidate that pays enough and is not in the block, under totals that cover what is left
     of its package.
     */
    method Consider(iter: Tx, fUsingModified: bool, e: Totals, m: Modified, failedTx: set<Tx>, nFailed: nat,
                    ghost noRefusal: bool)
      returns (done: bool, selected: bool, r: Modified, failedTx': set<Tx>, nFailed': nat, nUpdated: nat,
               ghost noRefusal': bool)
      requires Valid() && Consistent(m, failedTx, noRefusal)
      requires iter in pool.txs && iter !in inBlock && Covers(pool, e, Rest(pool, iter, inBlock))
      requires e == Base(pool, m, iter) && e.modFees >= MinFee(e.size, e.mweb)
      modifies this
      ensures Valid() && Consistent(r, failedTx', noRefusal') && (noRefusal' ==> noRefusal)
      ensures old(inBlock) <= inBlock && failedTx <= failedTx'
      ensures iter in inBlock || !fUsingModified || r.Keys <= m.Keys - {iter}
      ensures noRefusal && pool.txs !! pool.hasMWEB ==> noRefusal'
      ensures noRefusal' && FeesAgree(pool) ==> inBlock == old(inBlock) || PaidPackage(iter, old(inBlock), inBlock)
      ensures done ==> nBlockWeight > nBlockMaxWeight - 4000
    {
      done, selected, nFailed', nUpdated, noRefusal' := false, false, nFailed, 0, noRefusal;
      CandidatePays(iter, m, failedTx, noRefusal);
      ghost var rest := Rest(pool, iter, inBlock);
      assert iter in rest;
      var fits := TestPackage(e.size, e.sigOps, e.mweb);
      if fits {
        TestedPackageFits(iter, e);
        selected, r, failedTx', nUpdated, noRefusal' := SelectOrGiveUp(iter, fUsingModified, m, failedTx, noRefusal);
        nFailed' := if selected then 0 else nFailed;
      } else {
        r, failedTx' := GiveUp(iter, fUsingModified, m, failedTx, noRefusal);
        nFailed' := nFailed + 1;
        done := nFailed' > MAX_CONSECUTIVE_FAILURES && nBlockWeight > nBlockMaxWeight - 4000;
      }
    }

    /** The totals a candidate is judged by cover what is left of its package. */
    lemma CandidateCovered(iter: Tx, m: Modified)
      requires PoolOk(pool) && ModifiedOk(pool, inBlock, m) && iter in pool.txs
      ensures Covers(pool, Base(pool, m, iter), Rest(pool, iter, inBlock))
    {
      if iter !in m { CachedCovers(pool, iter, inBlock); }
    }

    /** A chosen candidate is a transaction of the mempool that is not in the block, under totals that cover it. */
    lemma ChosenCandidate(byScore: seq<Tx>, mi: nat, m: Modified, failedTx: set<Tx>, iter: Tx, fUsingModified: bool)
      requires PoolOk(pool) && ModifiedOk(pool, inBlock, m)
      requires Elements(byScore) <= pool.txs
      requires if fUsingModified then iter in m
               else mi < |byScore| && iter == byScore[mi] && !SkipMapTxEntry(byScore[mi], m, failedTx)
      ensures iter in pool.txs && iter !in inBlock
      ensures Covers(pool, Base(pool, m, iter), Rest(pool, iter, inBlock))
    {
      if !fUsingModified { assert byScore[mi] in Elements(byScore); }
      CandidateCovered(iter, m);
    }

    lemma StopsAt(byScore: seq<Tx>, mi: nat, m: Modified, failedTx: set<Tx>, iter: Tx, fUsingModified: bool, best: Tx)
      requires PoolOk(pool) && ModifiedOk(pool, inBlock, m) && Elements(byScore) <= pool.txs
      requires mi <= |byScore| && (mi < |byScore| ==> !SkipMapTxEntry(byScore[mi], m, failedTx))
      requires m != map[] ==> best in m && ((exists u :: First(m, u)) ==> First(m, best))
      requires if fUsingModified then iter == best && best in m else mi < |byScore| && iter == byScore[mi]
      requires mi < |byScore| && m != map[] ==>
                 (fUsingModified <==> Better(best, m[best], byScore[mi], Cached(pool, byScore[mi])))
      requires Base(pool, m, iter).modFees < MinFee(Base(pool, m, iter).size, Base(pool, m, iter).mweb)
      ensures StoppedAt(byScore, mi, m, failedTx, iter)
    {
      hide Precedes, First;
      if Indexed(byScore) {
        forall u | Candidate(byScore, mi, m, failedTx, u) ensures !Precedes(pool, m, u, iter) {
          ChosenIsBest(byScore, mi, m, failedTx, iter, fUsingModified, best, u);
        }
      }
    }

    /** How far selection has come: it went on if this became smaller, lexicographically. */
    ghost predicate Advanced(inBlock0: set<Tx>, mi0: nat, m0: Modified, mi: nat, m: Modified)
      reads this
    {
      || inBlock0 < inBlock
      || (inBlock0 == inBlock && mi0 < mi)
      || (inBlock0 == inBlock && mi0 == mi && m.Keys < m0.Keys)
    }

    /** One turn of the loop of `addPackageTxs`, once the next entry of the mempool is not stale. */
    method ConsiderNext(byScore: seq<Tx>, mi: nat, m: Modified, failedTx: set<Tx>, nFailed: nat, ghost noRefusal: bool)
      returns (done: bool, selected: bool, mi': nat, r: Modified, failedTx': set<Tx>, nFailed': nat, nUpdated: nat,
               ghost noRefusal': bool, ghost last: Option<Tx>)
      requires Valid() && Consistent(m, failedTx, noRefusal)
      requires Elements(byScore) <= pool.txs && mi <= |byScore| && (mi < |byScore| || m != map[])
      requires mi < |byScore| ==> !SkipMapTxEntry(byScore[mi], m, failedTx)
      modifies this
      ensures Valid() && Consistent(r, failedTx', noRefusal') && (noRefusal' ==> noRefusal)
      ensures mi' <= |byScore| && old(inBlock) <= inBlock && failedTx <= failedTx'
      ensures done || Advanced(old(inBlock), mi, m, mi', r)
      ensures noRefusal && pool.txs !! pool.hasMWEB ==> noRefusal'
      ensures noRefusal' && FeesAgree(pool) ==> inBlock == old(inBlock) || PaidStep(old(inBlock), inBlock)
      ensures last.Some? ==> done && inBlock == old(inBlock) && r == m && failedTx' == failedTx && mi' <= mi + 1
      ensures last.Some? ==> StoppedAt(byScore, mi, m, failedTx, last.value)
      ensures done && last.None? ==> nBlockWeight > nBlockMaxWeight - 4000
    {
      hide StoppedAt, First, PaidPackage;
      var iter, fUsingModified;
      ghost var best;
      iter, fUsingModified, mi', best := Choose(byScore, mi, m);
      last := None;
      ChosenCandidate(byScore, mi, m, failedTx, iter, fUsingModified);
      assert iter !in inBlock;
      var e := Base(pool, m, iter);
      if e.modFees < MinFee(e.size, e.mweb) {
        done, selected, r, failedTx', nFailed', nUpdated, noRefusal' := true, false, m, failedTx, nFailed, 0, noRefusal;
        last := Some(iter);
        StopsAt(byScore, mi, m, failedTx, iter, fUsingModified, best);
      } else {
        done, selected, r, failedTx', nFailed', nUpdated, noRefusal' :=
          Consider(iter, fUsingModified, e, m, failedTx, nFailed, noRefusal);
      }
    }

    /**
     Package selection over the whole mempool, from any valid state of the block.  It ends, and what it
     leaves behind is a valid block.  Unless the MWEB miner refused a transaction, the totals kept for the
     transactions that have not failed are exact, fees included where no fee has a delta; and then the
     block grew by whole packages, each of which pays the minimum fee rate for what it added.
     */
    method addPackageTxs(byScore: seq<Tx>)
      returns (nPackagesSelected: nat, nDescendantsUpdated: nat, ghost m: Modified, ghost failed: set<Tx>,
               ghost noRefusal: bool, ghost stages: seq<set<Tx>>, ghost last: Option<Tx>, ghost left: nat)
      requires Valid() && PoolOk(pool) && Elements(byScore) == pool.txs
      modifies this
      ensures Valid() && old(inBlock) <= inBlock <= pool.txs
      ensures Closed(pool, inBlock)
      ensures pool.txs !! pool.hasMWEB ==> noRefusal
      ensures ModifiedOk(pool, inBlock, m) && (noRefusal ==> ExactTotals(pool, inBlock, m, failed))
      ensures noRefusal && FeesAgree(pool) ==>
                forall t | t in m && t !in failed :: m[t] == TotalsOf(pool, Rest(pool, t, inBlock))
      ensures noRefusal && FeesAgree(pool) ==> PaidRun(old(inBlock), stages, inBlock)
      ensures last.Some? ==> StoppedAt(byScore, left, m, failed, last.value)
      ensures last.None? ==> (left == |byScore| && m == map[]) || nBlockWeight > nBlockMaxWeight - 4000
    {
      nPackagesSelected, nDescendantsUpdated := 0, 0;
      var mapModifiedTx, n := UpdatePackagesForAdded(inBlock, map[]);
      noRefusal, stages, last, left := true, [inBlock], None, 0;
      OrderIsClosed(pool, order);
      StartIsConsistent(mapModifiedTx);
      var mi: nat, failedTx: set<Tx>, nFailed: nat, done := 0, {}, 0, false;
      while !done && (mi < |byScore| || mapModifiedTx != map[])
        invariant mi <= |byScore| && old(inBlock) <= inBlock
        invariant Valid() && Consistent(mapModifiedTx, failedTx, noRefusal)
        invariant pool.txs !! pool.hasMWEB ==> noRefusal
        invariant noRefusal && FeesAgree(pool) ==> PaidRun(old(inBlock), stages, inBlock)
        invariant last.Some? ==> done && StoppedAt(byScore, left, mapModifiedTx, failedTx, last.value)
        invariant done && last.None? ==> nBlockWeight > nBlockMaxWeight - 4000
        decreases !done, pool.txs - inBlock, |byScore| - mi, mapModifiedTx.Keys
      {
        if mi < |byScore| && SkipMapTxEntry(byScore[mi], mapModifiedTx, failedTx) {
          mi := mi + 1;
          continue;
        }
        var selected, nUpdated;
        ghost var before := inBlock;
        left := mi;
        done, selected, mi, mapModifiedTx, failedTx, nFailed, nUpdated, noRefusal, last :=
          ConsiderNext(byScore, mi, mapModifiedTx, failedTx, nFailed, noRefusal);
        if selected { nPackagesSelected := nPackagesSelected + 1; }
        nDescendantsUpdated := nDescendantsUpdated + nUpdated;
        stages := Grown(stages, before, inBlock);
      }
      OrderIsClosed(pool, order);
      m, failed := mapModifiedTx, failedTx;
      if last.None? { left := mi; }
      LeftExactly(m, failed, noRefusal);
    }

    lemma LeftExactly(m: Modified, failed: set<Tx>, noRefusal: bool)
      requires Consistent(m, failed, noRefusal)
      ensures noRefusal && FeesAgree(pool) ==>
                forall t | t in m && t !in failed :: m[t] == TotalsOf(pool, Rest(pool, t, inBlock))
    {
      if noRefusal && FeesAgree(pool) {
        forall t | t in m && t !in failed ensures m[t] == TotalsOf(pool, Rest(pool, t, inBlock)) {
          JudgedExactly(t, m, failed);
        }
      }
    }

    /**
     What selection leaves when it stops at a candidate without MWEB weight: every other candidate has a score under the
     minimum rate.  So if it reaches that rate itself, its package does not pay, but for what rounding gives away.
     */
    lemma EverythingElse(byScore: seq<Tx>, left: nat, m: Modified, failed: set<Tx>, t: Tx, u: Tx, perK: int)
      requires PoolOk(pool) && ModifiedOk(pool, inBlock, m) && Elements(byScore) <= pool.txs && Indexed(byScore)
      requires StoppedAt(byScore, left, m, failed, t) && Candidate(byScore, left, m, failed, u)
      requires perK >= 0 && Base(pool, m, t).mweb == 0 && forall s, w :: MinFee(s, w) == GetTotalFee(perK, s, w)
      ensures Below(ScoreOf(pool, u, Base(pool, m, u)), perK)
      ensures var f := Base(pool, m, u);
              !Below(Score(At(pool.modFee, u), At(pool.size, u)), perK) ==>
                && (PaysFee(perK, f) <==> f.modFees == GetFee(perK, f.size) && f.mweb == 0)
                && (PaysFee(perK, f) ==> perK * f.size % 1000 != 0)
    {
      hide GetTotalFee, GetFee, Below, ScoreOf, Higher;
      CandidateSized(byScore, left, m, failed, t);
      CandidateSized(byScore, left, m, failed, u);
      CandidateCovered(u, m);
      assert EntryOk(pool, u);
      CoversNonNegative(pool, Base(pool, m, u), Rest(pool, u, inBlock));
      ScoresBelow(pool, perK, t, Base(pool, m, t), u, Base(pool, m, u));
      PaysAnyway(pool, perK, u, Base(pool, m, u));
    }

    /** The modified map built at the start is exact for what is in the block already. */
    lemma StartIsConsistent(m: Modified)
      requires Valid() && PoolOk(pool) && Closed(pool, inBlock) && m.Keys <= pool.txs
      requires UpdatedFor(pool, map[], m, inBlock, inBlock)
      ensures Consistent(m, {}, true)
    {
      var none: Modified := map[];
      assert none - inBlock == none;
      PackageAdded(pool, {}, none, m, inBlock, {});
      assert {} + inBlock == inBlock;
    }
  }
}
