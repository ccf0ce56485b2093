/**
 Partial Merkle trees (`src/merkleblock.h`, `src/merkleblock.cpp`): building a proof for a chosen
 subset of a block's transaction ids and extracting it again. The pair hash is a parameter; the
 theorems need it to be injective, as a collision-free hash would be.
 */
module PartialMerkle {
  import opened Basics

  /** A 256-bit hash value. */
  type Digest = nat
  type PairHash = (Digest, Digest) -> Digest

  /** `uint256()`, which the extractor returns on failure. */
  const NULL_DIGEST: Digest := 0

  const MAX_BLOCK_WEIGHT: nat := 4000000
  const MIN_TRANSACTION_WEIGHT: nat := 4 * 60

  predicate Separates(h: PairHash, a: Digest, b: Digest, c: Digest, d: Digest) {
    h(a, b) == h(c, d) ==> a == c && b == d
  }

  ghost predicate Injective(h: PairHash) {
    forall a, b, c, d :: Separates(h, a, b, c, d)
  }

  // ----- Shape of the tree -----

  /** `CalcTreeWidth`: the number of nodes at a height. Each level halves the one below, rounding up. */
  function CalcTreeWidth(n: nat, height: nat): nat {
    if height == 0 then n else (CalcTreeWidth(n, height - 1) + 1) / 2
  }

  /** The closed form that the source computes with shifts. */
  lemma {:induction false} CalcTreeWidthFormula(n: nat, height: nat)
    ensures CalcTreeWidth(n, height) == (n + Pow2(height) - 1) / Pow2(height)
  {
    if height > 0 {
      CalcTreeWidthFormula(n, height - 1);
      HalfCeiling(n, Pow2(height - 1), CalcTreeWidth(n, height - 1));
    }
  }

  lemma HalfCeiling(n: nat, d: nat, w: nat)
    requires d >= 1 && w == (n + d - 1) / d
    ensures (w + 1) / 2 == (n + 2 * d - 1) / (2 * d)
  {
    var v := (w + 1) / 2;
    QuotientBounds(n + d - 1, d);
    Doubled(v, w, d);
    QuotientUnique(n + 2 * d - 1, 2 * d, v);
  }

  lemma QuotientBounds(x: nat, d: nat)
    requires d >= 1
    ensures x / d * d <= x < x / d * d + d
  {
  }

  lemma Doubled(v: nat, w: nat, d: nat)
    requires v == (w + 1) / 2
    ensures v * (2 * d) == if w % 2 == 0 then w * d else w * d + d
  {
    if w % 2 == 0 {
      assert w == 2 * v;
    } else {
      assert w == 2 * v - 1;
    }
  }

  lemma QuotientUnique(x: nat, d: nat, q: nat)
    requires d >= 1 && q * d <= x < q * d + d
    ensures x / d == q
  {
    var r := x / d;
    QuotientBounds(x, d);
    MulOrder(r, q, d);
    MulOrder(q, r, d);
  }

  lemma MulOrder(a: nat, b: nat, d: nat)
    ensures a < b ==> a * d + d <= b * d
  {
    if a < b {
      var k := b - a - 1;
      assert b * d == a * d + d + k * d;
    }
  }

  /** The first transaction below a node: `pos << height`. */
  function Lo(height: nat, pos: nat): nat {
    if height == 0 then pos else Lo(height - 1, 2 * pos)
  }

  /** Is there such a node in the tree over `n` transactions? */
  predicate InTree(n: nat, height: nat, pos: nat) { Lo(height, pos) < n }

  lemma {:induction false} LoIsShift(height: nat, pos: nat)
    ensures Lo(height, pos) == pos * Pow2(height)
  {
    if height > 0 {
      LoIsShift(height - 1, 2 * pos);
    }
  }

  lemma {:induction false} WidthIsNodes(n: nat, height: nat, pos: nat)
    ensures pos < CalcTreeWidth(n, height) <==> InTree(n, height, pos)
  {
    if height > 0 {
      WidthIsNodes(n, height - 1, 2 * pos);
    }
  }

  lemma {:induction false} LoGrows(height: nat, pos: nat, more: nat)
    ensures Lo(height, pos + more) >= Lo(height, pos) + more
  {
    if height > 0 {
      LoGrows(height - 1, 2 * pos, 2 * more);
    }
  }

  /** The left child of a node is in the tree, the right one exactly when `CalcTreeWidth` says so. */
  lemma Children(n: nat, height: nat, pos: nat)
    requires height > 0 && InTree(n, height, pos)
    ensures InTree(n, height - 1, 2 * pos)
    ensures 2 * pos + 1 < CalcTreeWidth(n, height - 1) <==> InTree(n, height - 1, 2 * pos + 1)
    ensures Lo(height, pos) < Lo(height - 1, 2 * pos + 1) < Lo(height, pos + 1)
  {
    WidthIsNodes(n, height - 1, 2 * pos + 1);
    LoGrows(height - 1, 2 * pos, 1);
    LoGrows(height - 1, 2 * pos + 1, 1);
  }

  // ----- Building a proof -----

  /** `CalcHash`: the Merkle hash of a node. */
  function CalcHash(h: PairHash, txids: seq<Digest>, height: nat, pos: nat): Digest
    requires InTree(|txids|, height, pos)
    decreases height
  {
    if height == 0 then txids[pos]
    else
      Children(|txids|, height, pos);
      var left := CalcHash(h, txids, height - 1, 2 * pos);
      var right := if 2 * pos + 1 < CalcTreeWidth(|txids|, height - 1) then CalcHash(h, txids, height - 1, 2 * pos + 1)
        else left;
      h(left, right)
  }

  /** Is some transaction from `lo` up to `hi`, or up to the last one, matched? */
  predicate AnyMatch(vMatch: seq<bool>, lo: nat, hi: nat) {
    exists p | lo <= p < hi && p < |vMatch| :: vMatch[p]
  }

  datatype Proof = Proof(bits: seq<bool>, hashes: seq<Digest>)

  /** What `TraverseAndBuild` appends for a node: flag bits and hashes in depth-first order. */
  function Build(h: PairHash, txids: seq<Digest>, vMatch: seq<bool>, height: nat, pos: nat): (r: Proof)
    requires InTree(|txids|, height, pos)
    decreases height
  {
    var any := AnyMatch(vMatch, Lo(height, pos), Lo(height, pos + 1));
    if height == 0 || !any then Proof([any], [CalcHash(h, txids, height, pos)])
    else
      Children(|txids|, height, pos);
      var left := Build(h, txids, vMatch, height - 1, 2 * pos);
      if 2 * pos + 1 < CalcTreeWidth(|txids|, height - 1) then
        var right := Build(h, txids, vMatch, height - 1, 2 * pos + 1);
        Proof([any] + left.bits + right.bits, left.hashes + right.hashes)
      else Proof([any] + left.bits, left.hashes)
  }

  // ----- Extracting a proof -----

  /** The bits and hashes a traversal has not used yet, what it found, and the sticky failure flag. */
  datatype Traversal = Traversal(bits: seq<bool>, hashes: seq<Digest>, matches: seq<Digest>, indexes: seq<nat>,
                                 bad: bool)

  /** `TraverseAndExtract` from a traversal state: the hash of the node and the new state. */
  function Extract(h: PairHash, n: nat, height: nat, pos: nat, s: Traversal): (Digest, Traversal)
    decreases height, 1
  {
    if s.bits == [] then (NULL_DIGEST, s.(bad := true))
    else
      var fParentOfMatch, s1 := s.bits[0], s.(bits := s.bits[1..]);
      if height == 0 || !fParentOfMatch then ExtractHash(height == 0 && fParentOfMatch, pos, s1)
      else ExtractChildren(h, n, height, pos, s1)
  }

  /** The traversal below a node, from the state after its own bit. */
  function ExtractChildren(h: PairHash, n: nat, height: nat, pos: nat, s: Traversal): (Digest, Traversal)
    requires height > 0
    decreases height, 0
  {
    var (left, s2) := Extract(h, n, height - 1, 2 * pos, s);
    if 2 * pos + 1 < CalcTreeWidth(n, height - 1) then
      var (right, s3) := Extract(h, n, height - 1, 2 * pos + 1, s2);
      (h(left, right), if right == left then s3.(bad := true) else s3)
    else (h(left, left), s2)
  }

  /** Use one stored hash, and report it if it is a matched transaction id. */
  function ExtractHash(matched: bool, pos: nat, s: Traversal): (Digest, Traversal) {
    if s.hashes == [] then (NULL_DIGEST, s.(bad := true))
    else
      var hash, s1 := s.hashes[0], s.(hashes := s.hashes[1..]);
      (hash, if matched then s1.(matches := s1.matches + [hash], indexes := s1.indexes + [pos]) else s1)
  }

  /** The height of the tree: the first height with at most one node. */
  function TreeHeight(n: nat, from: nat): (height: nat)
    ensures height >= from && CalcTreeWidth(n, height) <= 1
    ensures forall i | from <= i < height :: CalcTreeWidth(n, i) > 1
    decreases CalcTreeWidth(n, from)
  {
    if CalcTreeWidth(n, from) > 1 then TreeHeight(n, from + 1) else from
  }

  /**
   `ExtractMatches` of an object that may be bad already, into a vector of indexes that is not cleared: the root, or
   `NULL_DIGEST` when the proof is rejected, and what was collected.
   */
  function ExtractFrom(h: PairHash, n: nat, p: Proof, indexes: seq<nat>,
                       bad: bool): (r: (Digest, seq<Digest>, seq<nat>)) {
    if n == 0 || n > MAX_BLOCK_WEIGHT / MIN_TRANSACTION_WEIGHT || |p.hashes| > n || |p.bits| < |p.hashes| then
      (NULL_DIGEST, [], indexes)
    else
      var (root, s) := Extract(h, n, TreeHeight(n, 0), 0, Traversal(p.bits, p.hashes, [], indexes, bad));
      var nBitsUsed := |p.bits| - |s.bits|;
      if s.bad || (nBitsUsed + 7) / 8 != (|p.bits| + 7) / 8 || s.hashes != [] then
        (NULL_DIGEST, s.matches, s.indexes)
      else (root, s.matches, s.indexes)
  }

  /** The same from a fresh object and empty vectors. */
  function ExtractMatches(h: PairHash, n: nat, p: Proof): (r: (Digest, seq<Digest>, seq<nat>)) {
    ExtractFrom(h, n, p, [], false)
  }

  /** The Merkle root of a block's transaction ids. */
  function MerkleRoot(h: PairHash, txids: seq<Digest>): Digest
    requires txids != []
  {
    LoIsShift(TreeHeight(|txids|, 0), 0);
    CalcHash(h, txids, TreeHeight(|txids|, 0), 0)
  }

  /** The proof the constructor of `CPartialMerkleTree` stores. */
  function BuildProof(h: PairHash, txids: seq<Digest>, vMatch: seq<bool>): Proof
    requires txids != []
  {
    LoIsShift(TreeHeight(|txids|, 0), 0);
    Build(h, txids, vMatch, TreeHeight(|txids|, 0), 0)
  }

  // ----- Extraction inverts building -----

  /** The reference answer: the matched positions of a range, in order. */
  function MatchedIndexes(vMatch: seq<bool>, lo: nat, hi: nat): (r: seq<nat>)
    ensures forall k | 0 <= k < |r| :: r[k] < |vMatch|
    decreases if lo < hi then hi - lo else 0
  {
    if lo >= hi || lo >= |vMatch| then []
    else (if vMatch[lo] then [lo] else []) + MatchedIndexes(vMatch, lo + 1, hi)
  }

  function Select(txids: seq<Digest>, indexes: seq<nat>): seq<Digest>
    requires forall k | 0 <= k < |indexes| :: indexes[k] < |txids|
  {
    seq(|indexes|, k requires 0 <= k < |indexes| => txids[indexes[k]])
  }

  lemma SelectConcat(txids: seq<Digest>, a: seq<nat>, b: seq<nat>)
    requires forall k | 0 <= k < |a| :: a[k] < |txids|
    requires forall k | 0 <= k < |b| :: b[k] < |txids|
    ensures forall k | 0 <= k < |a + b| :: (a + b)[k] < |txids|
    ensures Select(txids, a + b) == Select(txids, a) + Select(txids, b)
  {
  }

  predicate Increasing(r: seq<nat>) {
    forall j, k | 0 <= j < k < |r| :: r[j] < r[k]
  }

  /** Matched positions are exactly those the mask selects, each once, in order. */
  lemma {:induction false} MatchedIndexesExact(vMatch: seq<bool>, lo: nat, hi: nat)
    ensures forall i :: i in MatchedIndexes(vMatch, lo, hi) <==> lo <= i < hi && i < |vMatch| && vMatch[i]
    ensures Increasing(MatchedIndexes(vMatch, lo, hi))
    decreases if lo < hi then hi - lo else 0
  {
    if lo < hi && lo < |vMatch| {
      MatchedIndexesExact(vMatch, lo + 1, hi);
      var r := MatchedIndexes(vMatch, lo + 1, hi);
      forall k | 0 <= k < |r| ensures lo < r[k] {
        assert r[k] in r;
      }
    }
  }

  lemma {:induction false} AnyMatchIndexes(vMatch: seq<bool>, lo: nat, hi: nat)
    ensures AnyMatch(vMatch, lo, hi) <==> MatchedIndexes(vMatch, lo, hi) != []
    decreases if lo < hi then hi - lo else 0
  {
    if lo < hi && lo < |vMatch| {
      AnyMatchIndexes(vMatch, lo + 1, hi);
      if vMatch[lo] {
        assert AnyMatch(vMatch, lo, hi);
      } else {
        assert AnyMatch(vMatch, lo, hi) <==> AnyMatch(vMatch, lo + 1, hi);
      }
    }
  }

  lemma {:induction false} MatchedIndexesSplit(vMatch: seq<bool>, lo: nat, mid: nat, hi: nat)
    requires lo <= mid <= hi
    ensures MatchedIndexes(vMatch, lo, hi) == MatchedIndexes(vMatch, lo, mid) + MatchedIndexes(vMatch, mid, hi)
    decreases mid - lo
  {
    if lo < mid {
      MatchedIndexesSplit(vMatch, lo + 1, mid, hi);
    }
  }

  ghost predicate Distinct(txids: seq<Digest>) {
    forall i, j | 0 <= i < j < |txids| :: txids[i] != txids[j]
  }

  /** What an injective hash reveals about the children of an inner node. */
  lemma SplitHash(h: PairHash, txids: seq<Digest>, height: nat, pos: nat, left: Digest, right: Digest)
    requires Injective(h) && height > 0 && InTree(|txids|, height, pos)
    requires h(left, right) == CalcHash(h, txids, height, pos)
    ensures InTree(|txids|, height - 1, 2 * pos) && left == CalcHash(h, txids, height - 1, 2 * pos)
    ensures InTree(|txids|, height - 1, 2 * pos + 1) ==> right == CalcHash(h, txids, height - 1, 2 * pos + 1)
  {
    Children(|txids|, height, pos);
    var l := CalcHash(h, txids, height - 1, 2 * pos);
    var r := if InTree(|txids|, height - 1, 2 * pos + 1) then CalcHash(h, txids, height - 1, 2 * pos + 1) else l;
    assert Separates(h, left, right, l, r);
  }

  /** With an injective hash, equal nodes of one height have equal first transactions. */
  lemma {:induction false} EqualNodes(h: PairHash, txids: seq<Digest>, height: nat, p: nat, q: nat)
    requires Injective(h)
    requires InTree(|txids|, height, p) && InTree(|txids|, height, q)
    requires CalcHash(h, txids, height, p) == CalcHash(h, txids, height, q)
    ensures txids[Lo(height, p)] == txids[Lo(height, q)]
    decreases height
  {
    if height > 0 {
      Children(|txids|, height, p);
      Children(|txids|, height, q);
      SplitHash(h, txids, height, p, CalcHash(h, txids, height - 1, 2 * q),
                if InTree(|txids|, height - 1, 2 * q + 1) then CalcHash(h, txids, height - 1, 2 * q + 1)
                else CalcHash(h, txids, height - 1, 2 * q));
      EqualNodes(h, txids, height - 1, 2 * p, 2 * q);
    }
  }

  /** No two neighbouring nodes of one height have the same hash. */
  ghost predicate SiblingsDiffer(h: PairHash, txids: seq<Digest>) {
    forall height: nat, pos: nat | InTree(|txids|, height, pos) && InTree(|txids|, height, pos + 1) ::
      CalcHash(h, txids, height, pos) != CalcHash(h, txids, height, pos + 1)
  }

  lemma DistinctSiblings(h: PairHash, txids: seq<Digest>)
    requires Injective(h) && Distinct(txids)
    ensures SiblingsDiffer(h, txids)
  {
    forall height: nat, pos: nat | InTree(|txids|, height, pos) && InTree(|txids|, height, pos + 1)
      ensures CalcHash(h, txids, height, pos) != CalcHash(h, txids, height, pos + 1)
    {
      LoGrows(height, pos, 1);
      if CalcHash(h, txids, height, pos) == CalcHash(h, txids, height, pos + 1) {
        EqualNodes(h, txids, height, pos, pos + 1);
      }
    }
  }

  /** A traversal that still has the given bits and hashes in front of it. */
  function Before(part: Proof, s: Traversal): Traversal {
    s.(bits := part.bits + s.bits, hashes := part.hashes + s.hashes)
  }

  /** The same traversal after it found the given positions. */
  function Found(s: Traversal, txids: seq<Digest>, found: seq<nat>): Traversal
    requires forall k | 0 <= k < |found| :: found[k] < |txids|
  {
    s.(matches := s.matches + Select(txids, found), indexes := s.indexes + found)
  }

  ghost predicate Inverts(h: PairHash, txids: seq<Digest>, vMatch: seq<bool>, height: nat, pos: nat, s: Traversal)
    requires |vMatch| == |txids| && InTree(|txids|, height, pos)
  {
    Extract(h, |txids|, height, pos, Before(Build(h, txids, vMatch, height, pos), s)) ==
    (CalcHash(h, txids, height, pos), Found(s, txids, MatchedIndexes(vMatch, Lo(height, pos), Lo(height, pos + 1))))
  }

  lemma ExtractBuiltHash(h: PairHash, txids: seq<Digest>, vMatch: seq<bool>, height: nat, pos: nat, s: Traversal)
    requires |vMatch| == |txids| && InTree(|txids|, height, pos)
    requires height == 0 || !AnyMatch(vMatch, Lo(height, pos), Lo(height, pos + 1))
    ensures Inverts(h, txids, vMatch, height, pos, s)
  {
    var lo, hi := Lo(height, pos), Lo(height, pos + 1);
    var built, found := Build(h, txids, vMatch, height, pos), MatchedIndexes(vMatch, lo, hi);
    AnyMatchIndexes(vMatch, lo, hi);
    assert Before(built, s).bits[1..] == s.bits && Before(built, s).hashes[1..] == s.hashes;
    if found == [] {
      assert Found(s, txids, []) == s;
    } else {
      assert found == [pos] && Select(txids, [pos]) == [txids[pos]];
    }
  }

  /** Extracting what was built for a node gives the node's hash and its matched positions, and uses up no more. */
  lemma {:induction false} ExtractBuilt(h: PairHash, txids: seq<Digest>, vMatch: seq<bool>, height: nat, pos: nat,
                                        s: Traversal)
    requires SiblingsDiffer(h, txids) && |vMatch| == |txids| && InTree(|txids|, height, pos)
    ensures Inverts(h, txids, vMatch, height, pos, s)
    decreases height
  {
    var lo, hi := Lo(height, pos), Lo(height, pos + 1);
    if height == 0 || !AnyMatch(vMatch, lo, hi) {
      ExtractBuiltHash(h, txids, vMatch, height, pos, s);
    } else {
      Children(|txids|, height, pos);
      var mid := Lo(height - 1, 2 * pos + 1);
      var left := Build(h, txids, vMatch, height - 1, 2 * pos);
      var leftHash := CalcHash(h, txids, height - 1, 2 * pos);
      var inLeft, inRight := MatchedIndexes(vMatch, lo, mid), MatchedIndexes(vMatch, mid, hi);
      MatchedIndexesSplit(vMatch, lo, mid, hi);
      if InTree(|txids|, height - 1, 2 * pos + 1) {
        var right := Build(h, txids, vMatch, height - 1, 2 * pos + 1);
        var rightHash := CalcHash(h, txids, height - 1, 2 * pos + 1);
        var s2 := Before(right, Found(s, txids, inLeft));
        var s3 := Found(Found(s, txids, inLeft), txids, inRight);
        assert Lo(height - 1, 2 * pos) == lo && Lo(height - 1, 2 * pos + 1 + 1) == hi;
        assert Extract(h, |txids|, height - 1, 2 * pos, Before(left, Before(right, s))) == (leftHash, s2) by {
          ExtractBuilt(h, txids, vMatch, height - 1, 2 * pos, Before(right, s));
        }
        assert Extract(h, |txids|, height - 1, 2 * pos + 1, s2) == (rightHash, s3) by {
          ExtractBuilt(h, txids, vMatch, height - 1, 2 * pos + 1, Found(s, txids, inLeft));
        }
        BeforeBoth(true, left, right, s);
        ExtractTwo(h, |txids|, height, pos,
                   Before(Proof([true] + left.bits + right.bits, left.hashes + right.hashes), s),
                   leftHash, s2, rightHash, s3);
        FoundConcat(s, txids, inLeft, inRight);
      } else {
        ExtractBuilt(h, txids, vMatch, height - 1, 2 * pos, s);
        BeforeOne(true, left, s);
        assert inLeft + [] == inLeft;
      }
    }
  }

  lemma ExtractTwo(h: PairHash, n: nat, height: nat, pos: nat, s: Traversal,
                   left: Digest, s2: Traversal, right: Digest, s3: Traversal)
    requires height > 0 && 2 * pos + 1 < CalcTreeWidth(n, height - 1)
    requires s.bits != [] && s.bits[0]
    requires Extract(h, n, height - 1, 2 * pos, s.(bits := s.bits[1..])) == (left, s2)
    requires Extract(h, n, height - 1, 2 * pos + 1, s2) == (right, s3)
    requires left != right
    ensures Extract(h, n, height, pos, s) == (h(left, right), s3)
  {
  }

  lemma FoundConcat(s: Traversal, txids: seq<Digest>, a: seq<nat>, b: seq<nat>)
    requires forall k | 0 <= k < |a| :: a[k] < |txids|
    requires forall k | 0 <= k < |b| :: b[k] < |txids|
    ensures forall k | 0 <= k < |a + b| :: (a + b)[k] < |txids|
    ensures Found(Found(s, txids, a), txids, b) == Found(s, txids, a + b)
  {
    SelectConcat(txids, a, b);
    assert s.indexes + a + b == s.indexes + (a + b);
    assert s.matches + Select(txids, a) + Select(txids, b) == s.matches + (Select(txids, a) + Select(txids, b));
  }

  lemma BeforeBoth(bit: bool, left: Proof, right: Proof, s: Traversal)
    ensures var s0 := Before(Proof([bit] + left.bits + right.bits, left.hashes + right.hashes), s);
            s0.bits[0] == bit && s0.(bits := s0.bits[1..]) == Before(left, Before(right, s))
  {
    var s0 := Before(Proof([bit] + left.bits + right.bits, left.hashes + right.hashes), s);
    assert s0.bits == [bit] + (left.bits + (right.bits + s.bits));
    assert s0.hashes == left.hashes + (right.hashes + s.hashes);
  }

  lemma BeforeOne(bit: bool, left: Proof, s: Traversal)
    ensures var s0 := Before(Proof([bit] + left.bits, left.hashes), s);
            s0.bits[0] == bit && s0.(bits := s0.bits[1..]) == Before(left, s)
  {
    var s0 := Before(Proof([bit] + left.bits, left.hashes), s);
    assert s0.bits == [bit] + (left.bits + s.bits);
  }

  // ----- Size of a proof -----

  /** The number of transactions below a node. */
  function Leaves(n: nat, height: nat, pos: nat): int {
    (if Lo(height, pos + 1) < n then Lo(height, pos + 1) else n) - Lo(height, pos)
  }

  /** A node stores at least one hash, at least one bit per hash, and no more hashes than transactions below it. */
  lemma {:induction false} BuildSize(h: PairHash, txids: seq<Digest>, vMatch: seq<bool>, height: nat, pos: nat)
    requires InTree(|txids|, height, pos)
    ensures var r := Build(h, txids, vMatch, height, pos);
            1 <= |r.hashes| <= |r.bits| && |r.hashes| <= Leaves(|txids|, height, pos)
    decreases height
  {
    hide AnyMatch, CalcHash, CalcTreeWidth;
    LoGrows(height, pos, 1);
    if height > 0 {
      Children(|txids|, height, pos);
      BuildSize(h, txids, vMatch, height - 1, 2 * pos);
      if InTree(|txids|, height - 1, 2 * pos + 1) {
        BuildSize(h, txids, vMatch, height - 1, 2 * pos + 1);
      }
    }
  }

  /** The documented bound: at most one hash more than matched transactions times the height. */
  lemma {:induction false} BuildSizeByMatches(h: PairHash, txids: seq<Digest>, vMatch: seq<bool>, height: nat, pos: nat)
    requires |vMatch| == |txids| && InTree(|txids|, height, pos)
    ensures |Build(h, txids, vMatch, height, pos).hashes| <=
            1 + |MatchedIndexes(vMatch, Lo(height, pos), Lo(height, pos + 1))| * height
    decreases height
  {
    hide AnyMatch, CalcHash, CalcTreeWidth, MatchedIndexes;
    var lo, hi := Lo(height, pos), Lo(height, pos + 1);
    var m := |MatchedIndexes(vMatch, lo, hi)|;
    AnyMatchIndexes(vMatch, lo, hi);
    if height > 0 && m > 0 {
      Children(|txids|, height, pos);
      var mid := Lo(height - 1, 2 * pos + 1);
      MatchedIndexesSplit(vMatch, lo, mid, hi);
      var l, r := |MatchedIndexes(vMatch, lo, mid)|, |MatchedIndexes(vMatch, mid, hi)|;
      assert m == l + r;
      BuildSizeByMatches(h, txids, vMatch, height - 1, 2 * pos);
      if InTree(|txids|, height - 1, 2 * pos + 1) {
        BuildSizeByMatches(h, txids, vMatch, height - 1, 2 * pos + 1);
      }
      MatchesTimesHeight(l, r, height);
    }
  }

  lemma MatchesTimesHeight(l: nat, r: nat, height: nat)
    requires height > 0 && l + r > 0
    ensures 1 + l * (height - 1) <= 1 + (l + r) * height
    ensures 1 + l * (height - 1) + 1 + r * (height - 1) <= 1 + (l + r) * height
  {
    assert l * (height - 1) + r * (height - 1) == (l + r) * height - (l + r);
    assert r * (height - 1) >= 0;
  }

  // ----- The whole round trip -----

  lemma RootCoversAll(n: nat)
    requires n > 0
    ensures InTree(n, TreeHeight(n, 0), 0)
    ensures Lo(TreeHeight(n, 0), 0) == 0 && Lo(TreeHeight(n, 0), 1) >= n
  {
    LoIsShift(TreeHeight(n, 0), 0);
    WidthIsNodes(n, TreeHeight(n, 0), 1);
  }

  lemma {:induction false} MatchedIndexesCap(vMatch: seq<bool>, lo: nat, hi: nat)
    requires hi >= |vMatch|
    ensures MatchedIndexes(vMatch, lo, hi) == MatchedIndexes(vMatch, lo, |vMatch|)
    decreases if lo < hi then hi - lo else 0
  {
    if lo < hi && lo < |vMatch| {
      MatchedIndexesCap(vMatch, lo + 1, hi);
    }
  }

  /** A built proof stores at most one hash per transaction and at most 1 + matches * height of them. */
  lemma BuildProofSize(h: PairHash, txids: seq<Digest>, vMatch: seq<bool>)
    requires txids != [] && |vMatch| == |txids|
    ensures var r := BuildProof(h, txids, vMatch);
            && 1 <= |r.hashes| <= |r.bits|
            && |r.hashes| <= |txids|
            && |r.hashes| <= 1 + |MatchedIndexes(vMatch, 0, |txids|)| * TreeHeight(|txids|, 0)
  {
    var height := TreeHeight(|txids|, 0);
    RootCoversAll(|txids|);
    BuildSize(h, txids, vMatch, height, 0);
    BuildSizeByMatches(h, txids, vMatch, height, 0);
    MatchedIndexesCap(vMatch, 0, Lo(height, 1));
  }

  /**
   Extraction inverts building: for distinct transaction ids, any match mask and any padding of the flag
   bits up to a whole byte, it returns the Merkle root and exactly the matched pairs. It does so if and
   only if the block is within the transaction limit; a larger block is rejected.
   */
  lemma RoundTrip(h: PairHash, txids: seq<Digest>, vMatch: seq<bool>, padding: seq<bool>)
    requires Injective(h) && Distinct(txids) && txids != [] && |vMatch| == |txids|
    requires (|BuildProof(h, txids, vMatch).bits| + |padding| + 7) / 8 == (|BuildProof(h, txids, vMatch).bits| + 7) / 8
    ensures var p := BuildProof(h, txids, vMatch);
            var found := MatchedIndexes(vMatch, 0, |txids|);
            ExtractMatches(h, |txids|, Proof(p.bits + padding, p.hashes)) ==
            if |txids| <= MAX_BLOCK_WEIGHT / MIN_TRANSACTION_WEIGHT
            then (MerkleRoot(h, txids), Select(txids, found), found)
            else (NULL_DIGEST, [], [])
  {
    BuildProofSize(h, txids, vMatch);
    ExtractWhole(h, txids, vMatch, padding);
  }

  lemma ExtractWhole(h: PairHash, txids: seq<Digest>, vMatch: seq<bool>, padding: seq<bool>)
    requires Injective(h) && Distinct(txids) && txids != [] && |vMatch| == |txids|
    ensures var p := BuildProof(h, txids, vMatch);
            var found := MatchedIndexes(vMatch, 0, |txids|);
            Extract(h, |txids|, TreeHeight(|txids|, 0), 0, Traversal(p.bits + padding, p.hashes, [], [], false)) ==
            (MerkleRoot(h, txids), Traversal(padding, [], Select(txids, found), found, false))
  {
    var height, p := TreeHeight(|txids|, 0), BuildProof(h, txids, vMatch);
    RootCoversAll(|txids|);
    DistinctSiblings(h, txids);
    MatchedIndexesCap(vMatch, 0, Lo(height, 1));
    var s, found := Traversal(padding, [], [], [], false), MatchedIndexes(vMatch, 0, |txids|);
    ExtractBuilt(h, txids, vMatch, height, 0, s);
    assert p.hashes + [] == p.hashes;
    assert [] + found == found && [] + Select(txids, found) == Select(txids, found);
  }

  // ----- Soundness of an accepted proof -----

  /** Failure is sticky. */
  lemma {:induction false} ExtractStaysBad(h: PairHash, n: nat, height: nat, pos: nat, s: Traversal)
    ensures s.bad ==> Extract(h, n, height, pos, s).1.bad
    decreases height
  {
    if s.bits != [] && height > 0 {
      var s1 := s.(bits := s.bits[1..]);
      ExtractStaysBad(h, n, height - 1, 2 * pos, s1);
      ExtractStaysBad(h, n, height - 1, 2 * pos + 1, Extract(h, n, height - 1, 2 * pos, s1).1);
    }
  }

  /** Every reported pair is a true pair, the positions increase and stay below a bound. */
  predicate TruePairs(txids: seq<Digest>, s: Traversal, bound: nat) {
    && |s.matches| == |s.indexes|
    && Increasing(s.indexes)
    && (forall k | 0 <= k < |s.indexes| ::
       s.indexes[k] < bound && s.indexes[k] < |txids| && s.matches[k] == txids[s.indexes[k]])
  }

  /** So an object that is bad already extracts nothing. */
  /** Whether the object is bad after an extraction: what was refused at once leaves it as it was. */
  predicate BadAfter(h: PairHash, n: nat, p: Proof, indexes: seq<nat>, bad: bool) {
    if n == 0 || n > MAX_BLOCK_WEIGHT / MIN_TRANSACTION_WEIGHT || |p.hashes| > n || |p.bits| < |p.hashes| then bad
    else Extract(h, n, TreeHeight(n, 0), 0, Traversal(p.bits, p.hashes, [], indexes, bad)).1.bad
  }

  /** A bad object stays bad, and one that has become bad has extracted nothing. */
  lemma BadAfterwards(h: PairHash, n: nat, p: Proof, indexes: seq<nat>, bad: bool)
    ensures bad ==> BadAfter(h, n, p, indexes, bad)
    ensures BadAfter(h, n, p, indexes, bad) ==> ExtractFrom(h, n, p, indexes, bad).0 == NULL_DIGEST
  {
    ExtractStaysBad(h, n, TreeHeight(n, 0), 0, Traversal(p.bits, p.hashes, [], indexes, bad));
  }

  lemma BadExtractsNothing(h: PairHash, n: nat, p: Proof, indexes: seq<nat>)
    ensures ExtractFrom(h, n, p, indexes, true).0 == NULL_DIGEST
  {
    ExtractStaysBad(h, n, TreeHeight(n, 0), 0, Traversal(p.bits, p.hashes, [], indexes, true));
  }

  lemma {:induction false} ExtractSound(h: PairHash, txids: seq<Digest>, height: nat, pos: nat, s: Traversal)
    requires Injective(h) && InTree(|txids|, height, pos)
    requires TruePairs(txids, s, Lo(height, pos))
    requires !Extract(h, |txids|, height, pos, s).1.bad
    requires Extract(h, |txids|, height, pos, s).0 == CalcHash(h, txids, height, pos)
    ensures TruePairs(txids, Extract(h, |txids|, height, pos, s).1, Lo(height, pos + 1))
    decreases height
  {
    if height == 0 || !s.bits[0] {
      ExtractHashSound(h, txids, height, pos, s);
    } else {
      var n, s1 := |txids|, s.(bits := s.bits[1..]);
      Children(n, height, pos);
      var (left, s2) := Extract(h, n, height - 1, 2 * pos, s1);
      ExtractStaysBad(h, n, height - 1, 2 * pos + 1, s2);
      if InTree(n, height - 1, 2 * pos + 1) {
        SplitHash(h, txids, height, pos, left, Extract(h, n, height - 1, 2 * pos + 1, s2).0);
        ExtractSound(h, txids, height - 1, 2 * pos, s1);
        ExtractSound(h, txids, height - 1, 2 * pos + 1, s2);
      } else {
        SplitHash(h, txids, height, pos, left, left);
        ExtractSound(h, txids, height - 1, 2 * pos, s1);
        TruePairsWeaken(txids, s2, Lo(height - 1, 2 * pos + 1), Lo(height, pos + 1));
      }
    }
  }

  lemma ExtractHashSound(h: PairHash, txids: seq<Digest>, height: nat, pos: nat, s: Traversal)
    requires InTree(|txids|, height, pos) && TruePairs(txids, s, Lo(height, pos))
    requires !Extract(h, |txids|, height, pos, s).1.bad
    requires Extract(h, |txids|, height, pos, s).0 == CalcHash(h, txids, height, pos)
    requires height == 0 || !s.bits[0]
    ensures TruePairs(txids, Extract(h, |txids|, height, pos, s).1, Lo(height, pos + 1))
  {
    LoGrows(height, pos, 1);
  }

  lemma TruePairsWeaken(txids: seq<Digest>, s: Traversal, a: nat, b: nat)
    requires TruePairs(txids, s, a) && a <= b
    ensures TruePairs(txids, s, b)
  {
  }

  /**
   Whoever knows the right transaction count and (non-null) root learns only true pairs from any proof
   that extracts to that root, whoever made it.
   */
  lemma Soundness(h: PairHash, txids: seq<Digest>, p: Proof)
    requires Injective(h) && txids != []
    requires ExtractMatches(h, |txids|, p).0 == MerkleRoot(h, txids) != NULL_DIGEST
    ensures var (_, matches, indexes) := ExtractMatches(h, |txids|, p);
            && |matches| == |indexes|
            && Increasing(indexes)
            && forall k | 0 <= k < |indexes| :: indexes[k] < |txids| && matches[k] == txids[indexes[k]]
  {
    RootCoversAll(|txids|);
    ExtractSound(h, txids, TreeHeight(|txids|, 0), 0, Traversal(p.bits, p.hashes, [], [], false));
  }
}
