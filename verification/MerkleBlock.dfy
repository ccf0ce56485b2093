/**
 `CPartialMerkleTree` in place: the recursive traversals that append to and consume `vBits` and `vHash`,
 and the packing of flag bits into bytes. The methods are proved against module PartialMerkle.
 */
module MerkleBlock {
  import opened Bits
  import opened PartialMerkle

  // ----- Flag bits as bytes -----

  /** Do these bytes hold these bits, least significant bit first, padded with zeros? */
  predicate Packs(bytes: seq<bv8>, bits: seq<bool>) {
    && |bytes| == (|bits| + 7) / 8
    && forall p | 0 <= p < 8 * |bytes| :: Bit(bytes[p / 8], p % 8) == (p < |bits| && bits[p])
  }

  method BitsToBytes(bits: seq<bool>) returns (ret: seq<bv8>)
    ensures Packs(ret, bits)
  {
    ret := seq((|bits| + 7) / 8, _ => 0 as bv8);
    var p := 0;
    while p < |bits|
      invariant 0 <= p <= |bits|
      invariant |ret| == (|bits| + 7) / 8
      invariant forall q | 0 <= q < 8 * |ret| :: Bit(ret[q / 8], q % 8) == (q < p && bits[q])
    {
      ghost var before := ret;
      if bits[p] {
        ret := ret[p / 8 := ret[p / 8] | (1 as bv8 << (p % 8))];
      }
      forall q | 0 <= q < 8 * |ret| ensures Bit(ret[q / 8], q % 8) == (q < p + 1 && bits[q]) {
        assert Bit(before[q / 8], q % 8) == (q < p && bits[q]);
        SetBit(before[p / 8], p % 8, q % 8);
      }
      p := p + 1;
    }
  }

  method BytesToBits(bytes: seq<bv8>) returns (ret: seq<bool>)
    ensures |ret| == 8 * |bytes|
    ensures forall p | 0 <= p < |ret| :: ret[p] == Bit(bytes[p / 8], p % 8)
  {
    ret := seq(|bytes| * 8, _ => false);
    var p := 0;
    while p < |ret|
      invariant 0 <= p <= |ret| == 8 * |bytes|
      invariant forall q | 0 <= q < p :: ret[q] == Bit(bytes[q / 8], q % 8)
    {
      ret := ret[p := bytes[p / 8] & (1 as bv8 << (p % 8)) != 0];
      p := p + 1;
    }
  }

  /** Packing and unpacking adds only zero bits, and no more than the extractor tolerates. */
  method PackAndUnpack(bits: seq<bool>) returns (ret: seq<bool>, padding: seq<bool>)
    ensures ret == bits + padding
    ensures (|bits| + |padding| + 7) / 8 == (|bits| + 7) / 8
    ensures forall i | 0 <= i < |padding| :: !padding[i]
  {
    var bytes := BitsToBytes(bits);
    ret := BytesToBits(bytes);
    assert forall p | 0 <= p < |bits| :: ret[p] == bits[p];
    padding := ret[|bits|..];
  }

  lemma Append<T>(a: seq<T>, b: seq<T>, c: seq<T>, d: seq<T>)
    ensures a + b + c + d == a + (b + c + d)
    ensures b == [] ==> a + c + d == a + (c + d)
    ensures d == [] ==> a + b + c == a + (b + c)
  {
  }

  // ----- The tree object -----

  class PartialMerkleTree {
    const Hash: PairHash
    var nTransactions: nat
    var vBits: seq<bool>
    var vHash: seq<Digest>
    var fBad: bool

    /** What a received proof is deserialized into. */
    constructor Received(hash: PairHash, n: nat, bits: seq<bool>, hashes: seq<Digest>)
      ensures Hash == hash && nTransactions == n && vBits == bits && vHash == hashes && !fBad
    {
      Hash, nTransactions, vBits, vHash, fBad := hash, n, bits, hashes, false;
    }

    /** The proof for the transactions selected by a mask. A block always has a transaction. */
    constructor (hash: PairHash, vTxid: seq<Digest>, vMatch: seq<bool>)
      requires vTxid != [] && |vMatch| == |vTxid|
      ensures Hash == hash && nTransactions == |vTxid| && !fBad
      ensures Proof(vBits, vHash) == BuildProof(hash, vTxid, vMatch)
    {
      Hash, nTransactions, vBits, vHash, fBad := hash, |vTxid|, [], [], false;
      new;
      var nHeight := Height();
      RootCoversAll(|vTxid|);
      TraverseAndBuild(nHeight, 0, vTxid, vMatch);
    }

    /** The loop that finds the height of the tree. */
    method Height() returns (nHeight: nat)
      ensures nHeight == TreeHeight(nTransactions, 0)
    {
      nHeight := 0;
      while CalcTreeWidth(nTransactions, nHeight) > 1
        invariant TreeHeight(nTransactions, nHeight) == TreeHeight(nTransactions, 0)
        decreases CalcTreeWidth(nTransactions, nHeight)
      {
        nHeight := nHeight + 1;
      }
    }

    /** The loop that looks for a matched transaction below a node. */
    method ParentOfMatch(height: nat, pos: nat, vMatch: seq<bool>) returns (fParentOfMatch: bool)
      requires nTransactions == |vMatch|
      ensures fParentOfMatch == AnyMatch(vMatch, Lo(height, pos), Lo(height, pos + 1))
    {
      fParentOfMatch := false;
      var p := Lo(height, pos);
      LoGrows(height, pos, 1);
      while p < Lo(height, pos + 1) && p < nTransactions
        invariant Lo(height, pos) <= p <= Lo(height, pos + 1)
        invariant fParentOfMatch == AnyMatch(vMatch, Lo(height, pos), p)
      {
        assert AnyMatch(vMatch, Lo(height, pos), p + 1) == (AnyMatch(vMatch, Lo(height, pos), p) || vMatch[p]);
        fParentOfMatch := fParentOfMatch || vMatch[p];
        p := p + 1;
      }
    }

    method TraverseAndBuild(height: nat, pos: nat, vTxid: seq<Digest>, vMatch: seq<bool>)
      requires nTransactions == |vTxid| == |vMatch| && InTree(|vTxid|, height, pos)
      modifies this`vBits, this`vHash
      ensures vBits == old(vBits) + Build(Hash, vTxid, vMatch, height, pos).bits
      ensures vHash == old(vHash) + Build(Hash, vTxid, vMatch, height, pos).hashes
      decreases height
    {
      var fParentOfMatch := ParentOfMatch(height, pos, vMatch);
      vBits := vBits + [fParentOfMatch];
      if height == 0 || !fParentOfMatch {
        vHash := vHash + [CalcHash(Hash, vTxid, height, pos)];
      } else {
        Children(|vTxid|, height, pos);
        ghost var left := Build(Hash, vTxid, vMatch, height - 1, 2 * pos);
        TraverseAndBuild(height - 1, 2 * pos, vTxid, vMatch);
        if 2 * pos + 1 < CalcTreeWidth(nTransactions, height - 1) {
          ghost var right := Build(Hash, vTxid, vMatch, height - 1, 2 * pos + 1);
          TraverseAndBuild(height - 1, 2 * pos + 1, vTxid, vMatch);
          Append(old(vBits), [fParentOfMatch], left.bits, right.bits);
          Append(old(vHash), [], left.hashes, right.hashes);
        } else {
          Append(old(vBits), [fParentOfMatch], left.bits, []);
        }
      }
    }

    /** The traversal state that the cursors and the collected results stand for. */
    ghost function State(nBitsUsed: nat, nHashUsed: nat, vMatch: seq<Digest>, vnIndex: seq<nat>): Traversal
      requires nBitsUsed <= |vBits| && nHashUsed <= |vHash|
      reads this
    {
      Traversal(vBits[nBitsUsed..], vHash[nHashUsed..], vMatch, vnIndex, fBad)
    }

    /** The branch of the traversal that uses a stored hash and does not descend. */
    method UseHash(matched: bool, pos: nat, bitsUsed: nat, hashUsed: nat, matches: seq<Digest>, indexes: seq<nat>)
      returns (hash: Digest, nHashUsed: nat, vMatch: seq<Digest>, vnIndex: seq<nat>)
      requires bitsUsed <= |vBits| && hashUsed <= |vHash|
      modifies this`fBad
      ensures hashUsed <= nHashUsed <= |vHash|
      ensures (hash, State(bitsUsed, nHashUsed, vMatch, vnIndex)) ==
              ExtractHash(matched, pos, old(State(bitsUsed, hashUsed, matches, indexes)))
    {
      nHashUsed, vMatch, vnIndex := hashUsed, matches, indexes;
      if nHashUsed >= |vHash| {
        fBad := true;
        hash := NULL_DIGEST;
        return;
      }
      assert vHash[nHashUsed..][1..] == vHash[nHashUsed + 1..];
      hash := vHash[nHashUsed];
      nHashUsed := nHashUsed + 1;
      if matched {
        vMatch := vMatch + [hash];
        vnIndex := vnIndex + [pos];
      }
    }

    /** The branch of the traversal that descends into the subtrees. */
    method Descend(height: nat, pos: nat, bitsUsed: nat, hashUsed: nat, matches: seq<Digest>, indexes: seq<nat>)
      returns (hash: Digest, nBitsUsed: nat, nHashUsed: nat, vMatch: seq<Digest>, vnIndex: seq<nat>)
      requires height > 0 && bitsUsed <= |vBits| && hashUsed <= |vHash|
      modifies this`fBad
      ensures bitsUsed <= nBitsUsed <= |vBits| && hashUsed <= nHashUsed <= |vHash|
      ensures (hash, State(nBitsUsed, nHashUsed, vMatch, vnIndex)) ==
              ExtractChildren(Hash, nTransactions, height, pos, old(State(bitsUsed, hashUsed, matches, indexes)))
      decreases height, 0
    {
      var left, right;
      left, nBitsUsed, nHashUsed, vMatch, vnIndex :=
        TraverseAndExtract(height - 1, 2 * pos, bitsUsed, hashUsed, matches, indexes);
      if 2 * pos + 1 < CalcTreeWidth(nTransactions, height - 1) {
        right, nBitsUsed, nHashUsed, vMatch, vnIndex :=
          TraverseAndExtract(height - 1, 2 * pos + 1, nBitsUsed, nHashUsed, vMatch, vnIndex);
        if right == left {
          fBad := true;
        }
      } else {
        right := left;
      }
      hash := Hash(left, right);
    }

    method TraverseAndExtract(height: nat, pos: nat, bitsUsed: nat, hashUsed: nat, matches: seq<Digest>,
                              indexes: seq<nat>)
      returns (hash: Digest, nBitsUsed: nat, nHashUsed: nat, vMatch: seq<Digest>, vnIndex: seq<nat>)
      requires bitsUsed <= |vBits| && hashUsed <= |vHash|
      modifies this`fBad
      ensures bitsUsed <= nBitsUsed <= |vBits| && hashUsed <= nHashUsed <= |vHash|
      ensures (hash, State(nBitsUsed, nHashUsed, vMatch, vnIndex)) ==
              Extract(Hash, nTransactions, height, pos, old(State(bitsUsed, hashUsed, matches, indexes)))
      decreases height, 1
    {
      nBitsUsed, nHashUsed, vMatch, vnIndex := bitsUsed, hashUsed, matches, indexes;
      if nBitsUsed >= |vBits| {
        fBad := true;
        hash := NULL_DIGEST;
        return;
      }
      assert vBits[nBitsUsed..][1..] == vBits[nBitsUsed + 1..];
      var fParentOfMatch := vBits[nBitsUsed];
      nBitsUsed := nBitsUsed + 1;
      if height == 0 || !fParentOfMatch {
        hash, nHashUsed, vMatch, vnIndex :=
          UseHash(height == 0 && fParentOfMatch, pos, nBitsUsed, nHashUsed, vMatch, vnIndex);
      } else {
        hash, nBitsUsed, nHashUsed, vMatch, vnIndex := Descend(height, pos, nBitsUsed, nHashUsed, vMatch, vnIndex);
      }
    }

    /** `vMatch` is cleared first; what is in `vnIndex` stays in front. */
    method ExtractMatches(indexes: seq<nat>) returns (root: Digest, vMatch: seq<Digest>, vnIndex: seq<nat>)
      modifies this`fBad
      ensures (root, vMatch, vnIndex) == ExtractFrom(Hash, nTransactions, Proof(vBits, vHash), indexes, old(fBad))
      ensures fBad == BadAfter(Hash, nTransactions, Proof(vBits, vHash), indexes, old(fBad))
    {
      root, vMatch, vnIndex := NULL_DIGEST, [], indexes;
      if nTransactions == 0 { return; }
      if nTransactions > MAX_BLOCK_WEIGHT / MIN_TRANSACTION_WEIGHT { return; }
      if |vHash| > nTransactions { return; }
      if |vBits| < |vHash| { return; }
      var nHeight := Height();
      var nBitsUsed, nHashUsed := 0, 0;
      assert vBits[0..] == vBits && vHash[0..] == vHash;
      var hashMerkleRoot;
      hashMerkleRoot, nBitsUsed, nHashUsed, vMatch, vnIndex :=
        TraverseAndExtract(nHeight, 0, nBitsUsed, nHashUsed, vMatch, vnIndex);
      if fBad { return; }
      if (nBitsUsed + 7) / 8 != (|vBits| + 7) / 8 { return; }
      if nHashUsed != |vHash| { return; }
      root := hashMerkleRoot;
    }
  }
}
