/**
 The block tree and the active chain (`src/chain.cpp`, `src/chain.h`): skip pointers, ancestors, the vector
 of the active chain, forks and locators.
 */
module Chain {
  import opened Basics
  import opened SkipHeights

  // ----- The block tree -----

  class BlockIndex {
    const hash: nat
    const pprev: BlockIndex?
    const nHeight: nat
    const nTimeMax: int
    var pskip: BlockIndex?

    /** `AddToBlockIndex`: a block under its parent. */
    constructor (hash: nat, pprev: BlockIndex?, nTime: int)
      requires pprev != null ==> pprev.Linked()
      ensures Linked() && this.pprev == pprev && this.hash == hash && pskip == null
      ensures nTimeMax >= nTime && (pprev != null ==> nTimeMax >= pprev.nTimeMax)
    {
      this.hash, this.pprev := hash, pprev;
      nHeight := if pprev == null then 0 else pprev.nHeight + 1;
      nTimeMax := if pprev != null && pprev.nTimeMax > nTime then pprev.nTimeMax else nTime;
      pskip := null;
    }

    /** Heights count the blocks below; time maxima do not decrease. */
    ghost predicate Linked()
      decreases nHeight
    {
      if pprev == null then nHeight == 0
      else nHeight == pprev.nHeight + 1 && pprev.nTimeMax <= nTimeMax && pprev.Linked()
    }

    /** The ancestor at a height, one block at a time. */
    ghost function Ancestor(h: nat): BlockIndex
      requires Linked() && h <= nHeight
      decreases nHeight
    {
      if h == nHeight then this else pprev.Ancestor(h)
    }

    /** The blocks from here down to the genesis block. */
    ghost function Below(): (s: set<BlockIndex>)
      requires Linked()
      ensures forall b | b in s :: b.nHeight <= nHeight
      decreases nHeight
    {
      {this} + if pprev == null then {} else pprev.Below()
    }

    /** A skip pointer, where it is set, is the ancestor at the skip height. */
    ghost predicate SkipsOk()
      requires Linked()
      reads Below()
      decreases nHeight
    {
      (pskip == null || pskip == Ancestor(GetSkipHeight(nHeight))) && (pprev != null ==> pprev.SkipsOk())
    }

    /** Every block but the genesis block has its skip pointer. */
    ghost predicate AllSkip()
      requires Linked()
      reads Below()
      decreases nHeight
    {
      pprev != null ==> pskip != null && pprev.AllSkip()
    }

    lemma {:induction false} AncestorOf(h: nat, k: nat)
      requires Linked() && k <= h <= nHeight
      ensures Ancestor(h).Linked() && Ancestor(h).nHeight == h && Ancestor(h).Ancestor(k) == Ancestor(k)
      ensures Ancestor(h).nTimeMax <= nTimeMax
      ensures SkipsOk() ==> Ancestor(h).SkipsOk()
      decreases nHeight
    {
      if h < nHeight { pprev.AncestorOf(h, k); }
    }

    lemma {:induction false} AllSkipOf(h: nat)
      requires Linked() && h <= nHeight
      ensures Ancestor(h).Linked() && (AllSkip() ==> Ancestor(h).AllSkip())
      decreases nHeight
    {
      if h < nHeight { pprev.AllSkipOf(h); }
    }

    /**
     `GetAncestor`: the skip list finds the block that walking down would find, and where all skip pointers are set, in
     the number of steps that the heights alone determine.
     */
    method GetAncestor(height: int) returns (r: BlockIndex?, ghost steps: nat)
      requires Linked() && SkipsOk()
      ensures r == if 0 <= height <= nHeight then Ancestor(height) else null
      ensures AllSkip() && 0 <= height <= nHeight ==> steps == Steps(nHeight, height)
      ensures AllSkip() ==> Quadratic(steps, nHeight)
    {
      steps := 0;
      QuadraticZero(nHeight);
      if height > nHeight || height < 0 { return null, steps; }
      var pindexWalk, heightWalk := this, nHeight;
      while heightWalk > height
        invariant height <= heightWalk <= nHeight
        invariant pindexWalk == Ancestor(heightWalk) && pindexWalk.nHeight == heightWalk && pindexWalk.Linked()
                  && pindexWalk.SkipsOk()
        invariant AllSkip() ==> pindexWalk.AllSkip() && steps + Steps(heightWalk, height) == Steps(nHeight, height)
      {
        steps := steps + 1;
        AllSkipOf(Down(heightWalk, height));
        var heightSkip := GetSkipHeight(heightWalk);
        if pindexWalk.pskip != null && Follows(heightWalk, height) {
          AncestorOf(heightWalk, heightSkip);
          pindexWalk.AncestorOf(heightSkip, heightSkip);
          pindexWalk := pindexWalk.pskip;
          heightWalk := heightSkip;
        } else {
          assert pindexWalk.pprev != null;
          AncestorOf(heightWalk, heightWalk - 1);
          pindexWalk := pindexWalk.pprev;
          heightWalk := heightWalk - 1;
        }
      }
      r := pindexWalk;
      StepsQuadratic(nHeight, height);
    }

    /** `BuildSkip`. */
    method BuildSkip()
      requires Linked() && SkipsOk()
      modifies `pskip
      ensures SkipsOk()
      ensures pprev != null ==> pskip == Ancestor(GetSkipHeight(nHeight))
      ensures pprev != null && old(pprev.AllSkip()) ==> AllSkip()
    {
      if pprev != null {
        assert allocated(pprev.Below());
        ghost var steps;
        var p;
        p, steps := pprev.GetAncestor(GetSkipHeight(nHeight));
        pskip := p;
      }
    }
  }

  /** A new block of the tree, with its skip pointer; no other block changes. */
  method AddBlock(hash: nat, pprev: BlockIndex?, nTime: int) returns (b: BlockIndex)
    requires pprev != null ==> pprev.Linked() && pprev.SkipsOk()
    ensures fresh(b) && b.Linked() && b.SkipsOk() && b.pprev == pprev && b.hash == hash
    ensures (pprev != null ==> old(pprev.AllSkip())) ==> b.AllSkip()
  {
    assert pprev != null ==> allocated(pprev.Below());
    b := new BlockIndex(hash, pprev, nTime);
    b.BuildSkip();
  }

  /** Two blocks with the same ancestor at a height have the same ancestors below. */
  lemma SharedBelow(a: BlockIndex, b: BlockIndex, h: nat, k: nat)
    requires a.Linked() && b.Linked() && k <= h <= a.nHeight && h <= b.nHeight && a.Ancestor(h) == b.Ancestor(h)
    ensures a.Ancestor(k) == b.Ancestor(k)
  {
    a.AncestorOf(h, k);
    b.AncestorOf(h, k);
  }

  // ----- The active chain -----

  class ActiveChain {
    var vChain: seq<BlockIndex?>

    /** Every entry is the ancestor of the tip at its height. */
    ghost predicate Valid()
      reads this
    {
      vChain != [] ==>
        var tip := vChain[|vChain| - 1];
        && tip != null && tip.Linked() && tip.nHeight == |vChain| - 1
        && forall i | 0 <= i < |vChain| :: vChain[i] == tip.Ancestor(i)
    }

    function Tip(): BlockIndex?
      reads this
    {
      if |vChain| > 0 then vChain[|vChain| - 1] else null
    }

    /** `operator[]`. */
    function At(nHeight: int): BlockIndex?
      reads this
    {
      if nHeight < 0 || nHeight >= |vChain| then null else vChain[nHeight]
    }

    predicate Contains(pindex: BlockIndex)
      reads this
    {
      At(pindex.nHeight) == pindex
    }

    function Height(): int
      reads this
    {
      |vChain| - 1
    }

    /** What the chain contains are the ancestors of the tip. */
    lemma ContainsIsAncestor(b: BlockIndex)
      requires Valid() && b.Linked()
      ensures Contains(b) <==> Tip() != null && b.nHeight <= Tip().nHeight && Tip().Ancestor(b.nHeight) == b
    {
    }

    constructor ()
      ensures Valid() && vChain == []
    {
      vChain := [];
    }

    /** `SetTip`: stopping at the first entry that is right already leaves all of them right. */
    method SetTip(pindex: BlockIndex?)
      requires Valid() && (pindex != null ==> pindex.Linked())
      modifies this
      ensures Valid() && Tip() == pindex
    {
      if pindex == null {
        vChain := [];
        return;
      }
      ghost var before := vChain;
      vChain := Resize(vChain, pindex.nHeight + 1);
      var p: BlockIndex? := pindex;
      ghost var h: int := pindex.nHeight;
      while p != null && vChain[p.nHeight] != p
        invariant -1 <= h <= pindex.nHeight && |vChain| == pindex.nHeight + 1
        invariant if h < 0 then p == null else p == pindex.Ancestor(h) && p.nHeight == h && p.Linked()
        invariant forall i | h < i <= pindex.nHeight :: vChain[i] == pindex.Ancestor(i)
        invariant forall i | 0 <= i <= h :: vChain[i] == if i < |before| then before[i] else null
        decreases h
      {
        vChain := vChain[p.nHeight := p];
        if h > 0 { pindex.AncestorOf(h, h - 1); }
        p := p.pprev;
        h := h - 1;
      }
      if p != null {
        var tip := before[|before| - 1];
        forall i | 0 <= i <= h ensures vChain[i] == pindex.Ancestor(i) { SharedBelow(tip, pindex, h, i); }
      }
    }

    /** `FindFork`: the highest block that a block has in common with the chain. */
    method FindFork(pindex: BlockIndex?) returns (r: BlockIndex?)
      requires Valid() && (pindex != null ==> pindex.Linked() && pindex.SkipsOk())
      ensures r != null ==>
              pindex != null && r.nHeight <= pindex.nHeight && r == pindex.Ancestor(r.nHeight) && Contains(r)
      ensures pindex != null ==>
                forall h | 0 <= h <= pindex.nHeight && h < |vChain| && (r == null || h > r.nHeight) ::
                  vChain[h] != pindex.Ancestor(h)
    {
      if pindex == null { return null; }
      r := pindex;
      if r.nHeight > Height() {
        ghost var steps;
        r, steps := r.GetAncestor(Height());
        if Height() >= 0 { pindex.AncestorOf(Height(), Height()); }
      }
      ghost var h := if r == null then -1 else r.nHeight;
      while r != null && !Contains(r)
        invariant -1 <= h <= pindex.nHeight && h <= Height()
        invariant if h < 0 then r == null else r == pindex.Ancestor(h) && r.nHeight == h && r.Linked()
        invariant forall k | h < k <= pindex.nHeight && k < |vChain| :: vChain[k] != pindex.Ancestor(k)
        decreases h
      {
        if h > 0 { pindex.AncestorOf(h, h - 1); }
        r := r.pprev;
        h := h - 1;
      }
    }

    predicate TooEarly(b: BlockIndex, nTime: int, height: int) { b.nTimeMax < nTime || b.nHeight < height }

    /** Whatever is below a block that is too early is too early. */
    lemma TooEarlyBelow(i: nat, j: nat, nTime: int, height: int)
      requires Valid() && i <= j < |vChain| && vChain[i] != null && vChain[j] != null
               && TooEarly(vChain[j], nTime, height)
      ensures TooEarly(vChain[i], nTime, height)
    {
      Tip().AncestorOf(j, i);
      Tip().AncestorOf(i, i);
      vChain[j].AncestorOf(i, i);
    }

    /** `FindEarliestAtLeast`: the first block of the chain that reaches a time and a height. */
    method FindEarliestAtLeast(nTime: int, height: int) returns (r: BlockIndex?)
      requires Valid()
      ensures r == null ==> forall b: BlockIndex | b in vChain :: TooEarly(b, nTime, height)
      ensures r != null ==> r in vChain && !TooEarly(r, nTime, height)
      ensures r != null ==> forall b: BlockIndex | b in vChain && b.nHeight < r.nHeight :: TooEarly(b, nTime, height)
    {
      forall i | 0 <= i < |vChain| ensures vChain[i] != null && vChain[i].nHeight == i { Tip().AncestorOf(i, i); }
      var first, count := 0, |vChain|;
      while count > 0
        invariant 0 <= first && 0 <= count && first + count <= |vChain|
        invariant forall i | 0 <= i < first :: TooEarly(vChain[i], nTime, height)
        invariant forall i | first + count <= i < |vChain| :: !TooEarly(vChain[i], nTime, height)
        decreases count
      {
        var step := count / 2;
        var it := first + step;
        if TooEarly(vChain[it], nTime, height) {
          forall i | 0 <= i <= it ensures TooEarly(vChain[i], nTime, height) { TooEarlyBelow(i, it, nTime, height); }
          first, count := it + 1, count - (step + 1);
        } else {
          forall i | it <= i < |vChain| ensures !TooEarly(vChain[i], nTime, height) {
            if TooEarly(vChain[i], nTime, height) { TooEarlyBelow(it, i, nTime, height); }
          }
          count := step;
        }
      }
      r := if first == |vChain| then null else vChain[first];
    }

    /** One step of `GetLocator` back along the chain of a block, by index or by skip list. */
    method StepBack(pindex: BlockIndex, nHeight: nat) returns (r: BlockIndex)
      requires Valid() && pindex.Linked() && pindex.SkipsOk() && nHeight <= pindex.nHeight
      ensures r == pindex.Ancestor(nHeight) && r.Linked() && r.nHeight == nHeight
    {
      pindex.AncestorOf(nHeight, nHeight);
      if Contains(pindex) {
        SharedBelow(Tip(), pindex, pindex.nHeight, nHeight);
        r := At(nHeight);
      } else {
        ghost var steps;
        r, steps := pindex.GetAncestor(nHeight);
      }
    }

    /** One round of the loop of `GetLocator`. */
    method LocatorNext(top: BlockIndex, p: BlockIndex, vHave: seq<nat>, nStep: nat)
      returns (q: BlockIndex, more: seq<nat>, next: nat)
      requires Valid() && top.Linked() && top.SkipsOk() && Locating(top, p, vHave, nStep) && p.nHeight != 0
      ensures Locating(top, q, more, next) && |more| == |vHave| + 1 && q.nHeight < p.nHeight
    {
      NextHeight(top.nHeight, |vHave|);
      more := vHave + [p.hash];
      var nHeight := if p.nHeight - nStep > 0 then p.nHeight - nStep else 0;
      top.AncestorOf(p.nHeight, nHeight);
      q := StepBack(p, nHeight);
      next := if |more| > 10 then nStep * 2 else nStep;
    }

    /** The loop of `GetLocator`. */
    method LocatorFrom(top: BlockIndex) returns (vHave: seq<nat>)
      requires Valid() && top.Linked() && top.SkipsOk()
      ensures Locates(top, vHave)
    {
      vHave := [];
      var p, nStep := top, 1;
      assert allocated(top.Below());
      while p.nHeight != 0
        invariant top.SkipsOk() && Locating(top, p, vHave, nStep)
        decreases p.nHeight
      {
        p, vHave, nStep := LocatorNext(top, p, vHave, nStep);
      }
      LocatorDescends(top.nHeight, |vHave|);
      vHave := vHave + [p.hash];
    }

    /** `GetLocator` of a block, or of the tip if none is given. */
    method GetLocator(pindex: BlockIndex?) returns (vHave: seq<nat>)
      requires Valid() && (pindex != null ==> pindex.Linked() && pindex.SkipsOk())
      requires Tip() != null ==> Tip().SkipsOk()
      ensures pindex == null && Tip() == null ==> vHave == []
      ensures pindex != null || Tip() != null ==>
                Locates(if pindex != null then pindex else Tip(), vHave)
    {
      var top := if pindex != null then pindex else Tip();
      if top == null { return []; }
      vHave := LocatorFrom(top);
    }
  }

  // ----- Locators -----

  /** The step from the `i`-th entry of a locator to the next: single steps first, then steps of doubling size. */
  function Step(i: nat): (n: nat)
    ensures n > 0
  {
    if i <= 10 then 1 else 2 * Step(i - 1)
  }

  /** How far back a locator goes at its `i`-th entry. */
  function Back(i: nat): nat { if i == 0 then 0 else Back(i - 1) + Step(i - 1) }

  function LocatorHeight(h: nat, i: nat): nat { if Back(i) < h then h - Back(i) else 0 }

  lemma {:induction false} BackIs(i: nat)
    ensures Step(i) == if i <= 10 then 1 else Pow2(i - 10)
    ensures Back(i) == if i <= 11 then i else 9 + Pow2(i - 10)
  {
    if i > 0 { BackIs(i - 1); }
    assert Pow2(2) == 4 && Pow2(1) == 2;
  }

  lemma NextHeight(h: nat, i: nat)
    requires LocatorHeight(h, i) > 0
    ensures LocatorHeight(h, i + 1) == if LocatorHeight(h, i) - Step(i) > 0 then LocatorHeight(h, i) - Step(i) else 0
    ensures Step(i + 1) == if i >= 10 then 2 * Step(i) else Step(i)
  {
  }

  /** The hashes of the ancestors of a block at the first `n` heights of its locator. */
  ghost function LocatorHashes(p: BlockIndex, n: nat): (v: seq<nat>)
    requires p.Linked()
    ensures |v| == n
  {
    if n == 0 then [] else LocatorHashes(p, n - 1) + [p.Ancestor(LocatorHeight(p.nHeight, n - 1)).hash]
  }

  /** The loop of `GetLocator` at `p`, with `vHave` the hashes of the blocks it has passed. */
  ghost predicate Locating(top: BlockIndex, p: BlockIndex, vHave: seq<nat>, nStep: nat) {
    var i := |vHave|;
    && top.Linked() && p == top.Ancestor(LocatorHeight(top.nHeight, i)) && p.nHeight == LocatorHeight(top.nHeight, i)
    && vHave == LocatorHashes(top, i) && nStep == Step(i)
    && (i > 0 ==> LocatorHeight(top.nHeight, i - 1) > 0)
  }

  /** A locator: a block and its ancestors at descending heights, down to the genesis block. */
  ghost predicate Locates(p: BlockIndex, vHave: seq<nat>) {
    && p.Linked() && vHave != []
    && vHave == LocatorHashes(p, |vHave|)
    && LocatorHeight(p.nHeight, |vHave| - 1) == 0
    && forall k | 0 <= k < |vHave| - 1 :: LocatorHeight(p.nHeight, k + 1) < LocatorHeight(p.nHeight, k)
  }

  /** The smallest exponent whose power of two is at least this. */
  function Log2Ceil(n: nat): (k: nat)
    ensures Pow2(k) >= n
    ensures k > 0 ==> Pow2(k - 1) < n
  {
    if n <= 1 then 0 else 1 + Log2Ceil((n + 1) / 2)
  }

  lemma {:induction false} Pow2Increases(j: nat, k: nat)
    requires j <= k
    ensures Pow2(j) <= Pow2(k)
    decreases k
  {
    if j < k { Pow2Increases(j, k - 1); }
  }

  lemma LocatorDescends(h: nat, i: nat)
    requires i > 0 ==> LocatorHeight(h, i - 1) > 0
    ensures forall k | 0 <= k < i :: LocatorHeight(h, k + 1) < LocatorHeight(h, k)
  {
    forall k | 0 <= k < i ensures LocatorHeight(h, k + 1) < LocatorHeight(h, k) { BackIncreases(k, i - 1); }
  }

  /** The last entry of a locator is at height 0 and the one before it is not, which bounds its length. */
  lemma LocatorLength(p: BlockIndex, vHave: seq<nat>)
    requires Locates(p, vHave)
    ensures |vHave| <= 12 + Log2Ceil(p.nHeight + 1)
  {
    var i := |vHave| - 1;
    if i > 11 + Log2Ceil(p.nHeight + 1) {
      assert LocatorHeight(p.nHeight, i - 1 + 1) < LocatorHeight(p.nHeight, i - 1);
      BackIs(i - 1);
      Pow2Increases(Log2Ceil(p.nHeight + 1), i - 11);
    }
  }

  lemma {:induction false} BackIncreases(j: nat, k: nat)
    requires j <= k
    ensures Back(j) <= Back(k)
    decreases k
  {
    if j < k {
      BackIncreases(j, k - 1);
    }
  }

  function Resize(v: seq<BlockIndex?>, n: nat): (r: seq<BlockIndex?>)
    ensures |r| == n && forall i | 0 <= i < n :: r[i] == if i < |v| then v[i] else null
  {
    if n <= |v| then v[..n] else v + seq(n - |v|, _ => null)
  }

  /** `LastCommonAncestor`: the highest common ancestor; null only for blocks of different trees. */
  method LastCommonAncestor(a: BlockIndex, b: BlockIndex) returns (r: BlockIndex?)
    requires a.Linked() && b.Linked() && a.SkipsOk() && b.SkipsOk()
    ensures r != null ==>
            r.nHeight <= a.nHeight && r.nHeight <= b.nHeight && a.Ancestor(r.nHeight) == r == b.Ancestor(r.nHeight)
    ensures forall h | 0 <= h <= a.nHeight && h <= b.nHeight && (r == null || h > r.nHeight) ::
            a.Ancestor(h) != b.Ancestor(h)
  {
    var pa: BlockIndex?, pb: BlockIndex? := a, b;
    ghost var h: int := if a.nHeight < b.nHeight then a.nHeight else b.nHeight;
    ghost var steps;
    a.AncestorOf(h, h);
    b.AncestorOf(h, h);
    if a.nHeight > b.nHeight {
      pa, steps := a.GetAncestor(b.nHeight);
    } else if b.nHeight > a.nHeight {
      pb, steps := b.GetAncestor(a.nHeight);
    }
    while pa != pb && pa != null && pb != null
      invariant -1 <= h <= a.nHeight && h <= b.nHeight
      invariant h < 0 ==> pa == null && pb == null
      invariant h >= 0 ==> pa == a.Ancestor(h) && pa.Linked() && pa.nHeight == h
      invariant h >= 0 ==> pb == b.Ancestor(h) && pb.Linked() && pb.nHeight == h
      invariant forall k | h < k <= a.nHeight && k <= b.nHeight :: a.Ancestor(k) != b.Ancestor(k)
      decreases h
    {
      if h > 0 {
        a.AncestorOf(h, h - 1);
        b.AncestorOf(h, h - 1);
      }
      pa := pa.pprev;
      pb := pb.pprev;
      h := h - 1;
    }
    assert pa == pb;
    r := pa;
  }
}
