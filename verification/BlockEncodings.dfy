/**
 Compact block relay (`src/blockencodings.*`, BIP 152): a block as short ids and prefilled transactions, the
 receiver that looks its transactions up in two pools, and the exact reconstruction.
 */
module BlockEncodings {
  import opened Basics

  const MAX_BLOCK_WEIGHT := 4000000
  const MIN_SERIALIZABLE_TRANSACTION_WEIGHT := 40
  const UINT16 := 0x1_0000
  const UINT64 := 0x1_0000_0000_0000_0000

  type u16 = x: nat | x < UINT16

  datatype Tx = Tx(txid: nat, wtxid: nat, hogEx: bool, empty: bool)

  datatype Header = NullHeader | Header(fields: nat)

  datatype Block = Block(header: Header, vtx: seq<Tx>, mweb: Option<nat>)

  datatype Prefilled = Prefilled(index: u16, tx: Tx)

  /** `CBlockHeaderAndShortTxIDs`. */
  datatype Compact = Compact(header: Header, shortIds: seq<nat>, prefilled: seq<Prefilled>, mweb: Option<nat>)

  datatype ReadStatus = OK | Invalid | Failed | CheckBlockFailed

  /** What `CheckBlock` says of a block. */
  datatype Verdict = Good | Mutated | Bad

  // ----- The sender -----

  function HashOf(tx: Tx, useWtxid: bool): nat { if useWtxid then tx.wtxid else tx.txid }

  function ShortIds(vtx: seq<Tx>, useWtxid: bool, short: nat -> nat): seq<nat>
  {
    if vtx == [] then [] else
      ShortIds(vtx[..|vtx| - 1], useWtxid, short) +
        if vtx[|vtx| - 1].hogEx then [] else [short(HashOf(vtx[|vtx| - 1], useWtxid))]
  }

  function CompactOf(block: Block, useWtxid: bool, short: nat -> nat): Compact
    requires block.vtx != []
  {
    var vtx := block.vtx;
    var hogEx := if block.mweb.None? then [] else [Prefilled((|vtx| - 2) % UINT16, vtx[|vtx| - 1])];
    Compact(block.header, ShortIds(vtx[1..], useWtxid, short), [Prefilled(0, vtx[0])] + hogEx, block.mweb)
  }

  method MakeCompact(block: Block, useWtxid: bool, short: nat -> nat) returns (c: Compact)
    requires block.vtx != []
    ensures c == CompactOf(block, useWtxid, short)
  {
    var vtx := block.vtx;
    var prefilled := [Prefilled(0, vtx[0])];
    if block.mweb.Some? {
      prefilled := prefilled + [Prefilled((|vtx| - 2) % UINT16, vtx[|vtx| - 1])];
    }
    var ids := [];
    for i := 1 to |vtx|
      invariant ids == ShortIds(vtx[1..i], useWtxid, short)
    {
      assert vtx[1..i + 1][..i - 1] == vtx[1..i];
      if !vtx[i].hogEx {
        ids := ids + [short(HashOf(vtx[i], useWtxid))];
      }
    }
    assert vtx[1..|vtx|] == vtx[1..];
    c := Compact(block.header, ids, prefilled, block.mweb);
  }

  /** A block whose HogEx, if it has an extension block, is its last transaction, and that fits a compact block. */
  predicate Relayable(block: Block)
  {
    var n := |block.vtx|;
    && block.header.Header?
    && (if block.mweb.Some? then n >= 2 && block.vtx[n - 1].hogEx else n >= 1)
    && (forall i | 1 <= i < n :: block.vtx[i].hogEx ==> block.mweb.Some? && i == n - 1)
    && (forall i | 0 <= i < n :: !block.vtx[i].empty)
    && n < UINT16 && n <= MAX_BLOCK_WEIGHT / MIN_SERIALIZABLE_TRANSACTION_WEIGHT
  }

  lemma {:induction false} ShortIdsAll(vtx: seq<Tx>, useWtxid: bool, short: nat -> nat)
    requires forall i | 0 <= i < |vtx| :: !vtx[i].hogEx
    ensures |ShortIds(vtx, useWtxid, short)| == |vtx|
    ensures forall i | 0 <= i < |vtx| :: ShortIds(vtx, useWtxid, short)[i] == short(HashOf(vtx[i], useWtxid))
  {
    if vtx != [] { ShortIdsAll(vtx[..|vtx| - 1], useWtxid, short); }
  }

  /** The transactions that go as short ids: all but the first, and but the HogEx. */
  function Plain(block: Block): seq<Tx>
    requires Relayable(block)
  {
    if block.mweb.Some? then block.vtx[1..|block.vtx| - 1] else block.vtx[1..]
  }

  lemma ShortIdsOfBlock(block: Block, useWtxid: bool, short: nat -> nat)
    requires Relayable(block)
    ensures ShortIds(block.vtx[1..], useWtxid, short) == ShortIds(Plain(block), useWtxid, short)
  {
    var rest := block.vtx[1..];
    if block.mweb.Some? {
      assert rest[..|rest| - 1] == Plain(block);
    }
  }

  // ----- Prefilled transactions -----

  /** The slot of the last of the first `i` prefilled transactions. */
  function Position(p: seq<Prefilled>, i: nat): int
    requires i <= |p|
  {
    if i == 0 then -1 else Position(p, i - 1) + p[i - 1].index + 1
  }

  predicate PlaceableAt(c: Compact, i: nat)
    requires i < |c.prefilled|
  {
    !c.prefilled[i].tx.empty && Position(c.prefilled, i + 1) < UINT16
      && Position(c.prefilled, i + 1) <= |c.shortIds| + i
  }

  predicate Placeable(c: Compact) { forall i | 0 <= i < |c.prefilled| :: PlaceableAt(c, i) }

  function Count(c: Compact): nat { |c.shortIds| + |c.prefilled| }

  function Nones(n: nat): (r: seq<Option<Tx>>)
    ensures |r| == n && forall i | 0 <= i < n :: r[i] == None
  {
    if n == 0 then [] else [None] + Nones(n - 1)
  }

  lemma {:induction false} PositionGrows(p: seq<Prefilled>, i: nat)
    requires i <= |p|
    ensures Position(p, i) >= i - 1
  {
    if i > 0 { PositionGrows(p, i - 1); }
  }

  /** The slots with the first `i` prefilled transactions in place. */
  function Layout(c: Compact, i: nat): (r: seq<Option<Tx>>)
    requires i <= |c.prefilled| && forall k | 0 <= k < i :: PlaceableAt(c, k)
    ensures |r| == Count(c)
  {
    if i == 0 then Nones(Count(c)) else
      PositionGrows(c.prefilled, i);
      assert PlaceableAt(c, i - 1);
      Layout(c, i - 1)[Position(c.prefilled, i) := Some(c.prefilled[i - 1].tx)]
  }

  // ----- Free slots -----

  /** The indexes, from `k` on, of the slots without a transaction. */
  function FreeFrom(avail: seq<Option<Tx>>, k: nat): (r: seq<nat>)
    requires k <= |avail|
    decreases |avail| - k
  {
    if k == |avail| then [] else (if avail[k].None? then [k] else []) + FreeFrom(avail, k + 1)
  }

  function Holes(avail: seq<Option<Tx>>): seq<nat> { FreeFrom(avail, 0) }

  lemma {:induction false} FreeAreFree(avail: seq<Option<Tx>>, k: nat)
    requires k <= |avail|
    ensures forall i | 0 <= i < |FreeFrom(avail, k)| ::
            k <= FreeFrom(avail, k)[i] < |avail| && avail[FreeFrom(avail, k)[i]].None?
    ensures forall i, j | 0 <= i < j < |FreeFrom(avail, k)| :: FreeFrom(avail, k)[i] < FreeFrom(avail, k)[j]
    decreases |avail| - k
  {
    if k < |avail| { FreeAreFree(avail, k + 1); }
  }

  lemma {:induction false} FreeComplete(avail: seq<Option<Tx>>, k: nat, s: nat)
    requires k <= s < |avail| && avail[s].None?
    ensures s in FreeFrom(avail, k)
    decreases |avail| - k
  {
    if k < s { FreeComplete(avail, k + 1, s); }
  }

  lemma {:induction false} FreeOfNones(n: nat, k: nat)
    requires k <= n
    ensures |FreeFrom(Nones(n), k)| == n - k
    decreases n - k
  {
    if k < n { FreeOfNones(n, k + 1); }
  }

  /** A transaction into a free slot: one slot less, and the others as before. */
  lemma {:induction false} FreeAfter(avail: seq<Option<Tx>>, s: nat, tx: Tx, k: nat)
    requires k <= |avail| && s < |avail| && avail[s].None?
    ensures |FreeFrom(avail[s := Some(tx)], k)| == |FreeFrom(avail, k)| - if k <= s then 1 else 0
    decreases |avail| - k
  {
    if k < |avail| { FreeAfter(avail, s, tx, k + 1); }
  }

  /** Prefilled transactions take distinct slots, each after the one before. */
  lemma {:induction false} LayoutFree(c: Compact, i: nat)
    requires i <= |c.prefilled| && forall k | 0 <= k < i :: PlaceableAt(c, k)
    ensures forall s | 0 <= s < Count(c) && s > Position(c.prefilled, i) :: Layout(c, i)[s].None?
    ensures |Holes(Layout(c, i))| == Count(c) - i
  {
    if i == 0 {
      FreeOfNones(Count(c), 0);
    } else {
      LayoutFree(c, i - 1);
      PositionGrows(c.prefilled, i);
      assert PlaceableAt(c, i - 1);
      FreeAfter(Layout(c, i - 1), Position(c.prefilled, i), c.prefilled[i - 1].tx, 0);
    }
  }

  // ----- Short ids -----

  predicate Distinct(s: seq<nat>) { forall i, j | 0 <= i < j < |s| :: s[i] != s[j] }

  /** No bucket of the table was too full after any insertion. */
  predicate Uncrowded(ids: seq<nat>, crowded: seq<nat> -> bool)
  {
    forall i | 0 < i <= |ids| :: !crowded(ids[..i])
  }

  /** The table takes every short id to its slot, the i-th id to the i-th free one. */
  ghost predicate Mapped(ids: seq<nat>, slots: seq<nat>, table: map<nat, nat>)
    requires |ids| <= |slots|
  {
    && (forall i | 0 <= i < |ids| :: ids[i] in table && table[ids[i]] == slots[i])
    && (forall k <- table :: k in ids)
  }

  /** The table after the ids `s`: one entry each, unless one came twice. */
  ghost predicate Built(s: seq<nat>, slots: seq<nat>, table: map<nat, nat>)
    requires |s| <= |slots|
  {
    && (forall k <- table :: k in s)
    && (forall i | 0 <= i < |s| :: s[i] in table)
    && |table| <= |s|
    && (|table| == |s| <==> Distinct(s))
    && (|table| == |s| ==> Mapped(s, slots, table))
  }

  lemma BuiltNext(s: seq<nat>, slots: seq<nat>, table: map<nat, nat>, k: nat)
    requires |s| < |slots| && Built(s, slots, table)
    ensures Built(s + [k], slots, table[k := slots[|s|]])
  {
    var t, after := s + [k], table[k := slots[|s|]];
    assert after.Keys == table.Keys + {k} && |after| == |after.Keys| && |table| == |table.Keys|;
    LastDistinct(s, k);
    if |after| == |t| {
      assert k !in table;
      assert forall i | 0 <= i < |s| :: s[i] != k;
    }
  }

  lemma LastDistinct(s: seq<nat>, k: nat)
    ensures Distinct(s + [k]) <==> Distinct(s) && k !in s
  {
    var t := s + [k];
    if Distinct(t) {
      forall a, b | 0 <= a < b < |s|
        ensures s[a] != s[b]
      {
        assert t[a] != t[b];
      }
      forall a | 0 <= a < |s|
        ensures s[a] != k
      {
        assert t[a] != t[|s|];
      }
    }
  }

  /** The next free slot at or after `from`. */
  method NextFree(avail: seq<Option<Tx>>, from: nat) returns (slot: nat)
    requires from <= |avail| && FreeFrom(avail, from) != []
    ensures from <= slot < |avail| && avail[slot].None? && FreeFrom(avail, from) == [slot] + FreeFrom(avail, slot + 1)
  {
    slot := from;
    while avail[slot].Some?
      invariant from <= slot < |avail| && FreeFrom(avail, slot) == FreeFrom(avail, from)
      decreases |avail| - slot
    {
      slot := slot + 1;
    }
  }

  lemma HeadOf(free: seq<nat>, i: nat, slot: nat, rest: seq<nat>)
    requires i < |free| && free[i..] == [slot] + rest
    ensures free[i] == slot && free[i + 1..] == rest
  {
    assert free[i] == free[i..][0] && free[i + 1..] == free[i..][1..];
  }

  /** The table after `i` ids, the search for free slots having come to slot `at`. */
  ghost predicate Mapping(free: seq<nat>, ids: seq<nat>, i: nat, avail: seq<Option<Tx>>, at: nat, table: map<nat, nat>)
  {
    && i <= |ids| == |free| && at <= |avail|
    && FreeFrom(avail, at) == free[i..]
    && Built(ids[..i], free, table)
  }

  lemma MappingNext(free: seq<nat>, ids: seq<nat>, i: nat, avail: seq<Option<Tx>>, at: nat, table: map<nat, nat>,
                    slot: nat)
    requires Mapping(free, ids, i, avail, at, table) && i < |ids|
    requires slot < |avail| && FreeFrom(avail, at) == [slot] + FreeFrom(avail, slot + 1)
    ensures Mapping(free, ids, i + 1, avail, slot + 1, table[ids[i] := slot])
  {
    HeadOf(free, i, slot, FreeFrom(avail, slot + 1));
    BuiltNext(ids[..i], free, table, ids[i]);
    assert ids[..i + 1] == ids[..i] + [ids[i]];
  }

  lemma MappingDone(free: seq<nat>, ids: seq<nat>, avail: seq<Option<Tx>>, at: nat, table: map<nat, nat>)
    requires Mapping(free, ids, |ids|, avail, at, table)
    ensures |table| == |ids| <==> Distinct(ids)
    ensures |table| == |ids| ==> Mapped(ids, free, table)
  {
    assert ids[..|ids|] == ids;
  }

  /** A slot as the table stores it. */
  function Low16(slot: nat): (r: nat)
    ensures r < UINT16 && (slot < UINT16 ==> r == slot)
  {
    slot % UINT16
  }

  /** One id into the table, at the next free slot. */
  method MapNext(avail: seq<Option<Tx>>, ids: seq<nat>, i: nat, offset: nat, table: map<nat, nat>, ghost free: seq<nat>)
    returns (nextOffset: nat, next: map<nat, nat>)
    requires |avail| < UINT16 && i < |ids| && Mapping(free, ids, i, avail, i + offset, table)
    ensures Mapping(free, ids, i + 1, avail, i + 1 + nextOffset, next)
  {
    var slot := NextFree(avail, i + offset);
    MappingNext(free, ids, i, avail, i + offset, table, slot);
    next := table[ids[i] := Low16(slot)];
    nextOffset := slot - i;
    assert i + 1 + nextOffset == slot + 1;
  }

  method MapShortIds(avail: seq<Option<Tx>>, ids: seq<nat>, crowded: seq<nat> -> bool)
    returns (ok: bool, table: map<nat, nat>)
    requires |Holes(avail)| == |ids| && |avail| < UINT16
    ensures ok <==> Uncrowded(ids, crowded) && Distinct(ids)
    ensures ok ==> Mapped(ids, Holes(avail), table) && |table| == |ids|
  {
    ghost var free := Holes(avail);
    table := map[];
    var offset := 0;
    assert free[0..] == free;
    for i := 0 to |ids|
      invariant 0 <= offset && Mapping(free, ids, i, avail, i + offset, table)
      invariant Uncrowded(ids[..i], crowded)
    {
      offset, table := MapNext(avail, ids, i, offset, table, free);
      UncrowdedNext(ids, i, crowded);
      if crowded(ids[..i + 1]) {
        return false, table;
      }
    }
    MappingDone(free, ids, avail, |ids| + offset, table);
    assert ids[..|ids|] == ids;
    ok := |table| == |ids|;
  }

  lemma UncrowdedNext(ids: seq<nat>, i: nat, crowded: seq<nat> -> bool)
    requires i < |ids| && Uncrowded(ids[..i], crowded)
    ensures crowded(ids[..i + 1]) ==> !Uncrowded(ids, crowded)
    ensures !crowded(ids[..i + 1]) ==> Uncrowded(ids[..i + 1], crowded)
  {
    var s := ids[..i + 1];
    forall k | 0 < k <= i
      ensures !crowded(s[..k])
    {
      assert ids[..i][..k] == s[..k];
    }
    assert s[..i + 1] == s;
  }
}
