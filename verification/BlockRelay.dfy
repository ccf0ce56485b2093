/**
 The whole exchange of compact block relay: the request for missing transactions in differential form, the answer,
 and that an honest exchange rebuilds the very block that was sent.
 */
module BlockRelay {
  import opened Basics
  import opened BlockEncodings
  import opened PartialBlock

  // ----- DifferenceFormatter -----

  /** Where the next value of a differential list may start. */
  function Shift(s: seq<nat>, i: nat): nat
    requires i <= |s|
  {
    if i == 0 then 0 else s[i - 1] + 1
  }

  predicate Link(s: seq<nat>, ns: seq<nat>, i: nat)
    requires i < |s| && i < |ns|
  {
    s[i] == Shift(s, i) + ns[i]
  }

  /** `ns` holds the distance of every value from the successor of the one before. */
  predicate Encodes(s: seq<nat>, ns: seq<nat>)
  {
    |s| == |ns| && forall i | 0 <= i < |s| :: Link(s, ns, i)
  }

  predicate Increasing(s: seq<nat>) { forall i | 0 < i < |s| :: s[i - 1] < s[i] }

  class DifferenceFormatter {
    var m_shift: nat

    constructor ()
      ensures m_shift == 0
    {
      m_shift := 0;
    }

    method Ser(v: u16) returns (n: Option<nat>)
      modifies this
      ensures n.Some? <==> old(m_shift) <= v
      ensures n.Some? ==> n.value == v - old(m_shift) && m_shift == v + 1
    {
      if v < m_shift || v >= UINT64 - 1 {
        return None;
      }
      n := Some(v - m_shift);
      m_shift := v + 1;
    }

    /** The 64-bit sum wraps; the checks leave exactly the sums that fit sixteen bits. */
    method Unser(n: nat) returns (v: Option<u16>)
      requires m_shift <= UINT16 && n < UINT64
      modifies this
      ensures v.Some? <==> old(m_shift) + n < UINT16
      ensures v.Some? ==> v.value == old(m_shift) + n && m_shift == v.value + 1
    {
      m_shift := (m_shift + n) % UINT64;
      if m_shift < n || m_shift >= UINT64 - 1 || m_shift >= UINT16 {
        return None;
      }
      v := Some(m_shift);
      m_shift := m_shift + 1;
    }
  }

  /** A vector of indexes is written exactly when it increases. */
  method SerVector(s: seq<u16>) returns (ns: Option<seq<nat>>)
    ensures ns.Some? <==> Increasing(s)
    ensures ns.Some? ==> Encodes(s, ns.value) && forall i | 0 <= i < |ns.value| :: ns.value[i] < UINT16
  {
    var f := new DifferenceFormatter();
    var out: seq<nat> := [];
    for i := 0 to |s|
      invariant f.m_shift == Shift(s, i) && |out| == i
      invariant forall k | 0 <= k < i :: Link(s, out, k) && out[k] < UINT16
    {
      var n := f.Ser(s[i]);
      if n.None? {
        return None;
      }
      ghost var before := out;
      out := out + [n.value];
      assert forall k | 0 <= k < i :: Link(s, before, k) ==> Link(s, out, k);
    }
    ns := Some(out);
    forall i | 0 < i < |s|
      ensures s[i - 1] < s[i]
    {
      assert Link(s, out, i);
    }
  }

  /** Reading gives back the one list that was written, and fails where there is none. */
  method UnserVector(ns: seq<nat>) returns (s: Option<seq<u16>>)
    requires forall i | 0 <= i < |ns| :: ns[i] < UINT64
    ensures s.Some? ==> Encodes(s.value, ns)
    ensures s.None? ==> forall t: seq<u16> :: !Encodes(t, ns)
  {
    var f := new DifferenceFormatter();
    var out: seq<u16> := [];
    for i := 0 to |ns|
      invariant |out| == i && f.m_shift == Shift(out, i)
      invariant forall k | 0 <= k < i :: Link(out, ns, k)
    {
      var v := f.Unser(ns[i]);
      if v.None? {
        forall t: seq<u16>
          ensures !Encodes(t, ns)
        {
          if Encodes(t, ns) { ContinuesWith(t, out, ns, i); }
        }
        return None;
      }
      LinkMore(out, v.value, ns);
      out := out + [v.value];
    }
    s := Some(out);
  }

  lemma LinkMore(out: seq<u16>, v: u16, ns: seq<nat>)
    requires |out| < |ns| && v == Shift(out, |out|) + ns[|out|] && forall k | 0 <= k < |out| :: Link(out, ns, k)
    ensures forall k | 0 <= k <= |out| :: Link(out + [v], ns, k)
  {
    forall k | 0 <= k <= |out|
      ensures Link(out + [v], ns, k)
    {
      if k < |out| { assert Link(out, ns, k); }
    }
  }

  lemma ContinuesWith(t: seq<nat>, out: seq<nat>, ns: seq<nat>, i: nat)
    requires i == |out| < |ns| && Encodes(t, ns) && forall k | 0 <= k < i :: Link(out, ns, k)
    ensures t[i] == Shift(out, i) + ns[i]
  {
    SamePrefix(t, out, ns, i);
    assert Link(t, ns, i);
  }

  lemma {:induction false} SamePrefix(t: seq<nat>, out: seq<nat>, ns: seq<nat>, i: nat)
    requires i <= |t| && i <= |out| && i <= |ns|
    requires forall k | 0 <= k < i :: Link(t, ns, k) && Link(out, ns, k)
    ensures forall k | 0 <= k < i :: t[k] == out[k]
  {
    if i > 0 {
      SamePrefix(t, out, ns, i - 1);
      assert Link(t, ns, i - 1) && Link(out, ns, i - 1);
    }
  }

  lemma EncodesUnique(s: seq<nat>, t: seq<nat>, ns: seq<nat>)
    requires Encodes(s, ns) && Encodes(t, ns)
    ensures s == t
  {
    SamePrefix(s, t, ns, |ns|);
  }

  // ----- An honest exchange -----

  /** The transactions of a block at the asked indexes. */
  function Answer(vtx: seq<Tx>, indexes: seq<nat>): (r: seq<Tx>)
    requires forall i | 0 <= i < |indexes| :: indexes[i] < |vtx|
    ensures |r| == |indexes| && forall i | 0 <= i < |r| :: r[i] == vtx[indexes[i]]
  {
    if indexes == [] then [] else [vtx[indexes[0]]] + Answer(vtx, indexes[1..])
  }

  /** Equal short ids mean equal transactions. */
  ghost predicate Honest(block: Block, useWtxid: bool, short: nat -> nat, pool: seq<Entry>)
    requires Relayable(block)
  {
    forall i, j | 0 <= i < |pool| && 0 <= j < |Plain(block)| ::
      short(pool[i].0) == short(HashOf(Plain(block)[j], useWtxid)) ==> pool[i].1 == Plain(block)[j]
  }

  lemma HonestPrefix(block: Block, useWtxid: bool, short: nat -> nat, pool: seq<Entry>, m: nat)
    requires Relayable(block) && Honest(block, useWtxid, short, pool) && m <= |pool|
    ensures Honest(block, useWtxid, short, pool[..m])
  {
  }

  /** What the receiver lays out for a block: the first transaction, room for the plain ones, the HogEx. */
  function Laid(block: Block): seq<Option<Tx>>
    requires Relayable(block)
  {
    [Some(block.vtx[0])] + Nones(|Plain(block)|) + if block.mweb.Some? then [Some(block.vtx[|block.vtx| - 1])] else []
  }

  lemma CompactIds(block: Block, useWtxid: bool, short: nat -> nat)
    requires Relayable(block)
    ensures var c := CompactOf(block, useWtxid, short);
      && Count(c) == |block.vtx| && |c.shortIds| == |Plain(block)|
      && forall j | 0 <= j < |Plain(block)| :: c.shortIds[j] == short(HashOf(Plain(block)[j], useWtxid))
  {
    ShortIdsOfBlock(block, useWtxid, short);
    ShortIdsAll(Plain(block), useWtxid, short);
  }

  lemma CompactPlaceable(block: Block, useWtxid: bool, short: nat -> nat)
    requires Relayable(block)
    ensures var c := CompactOf(block, useWtxid, short);
      && Placeable(c) && Position(c.prefilled, 1) == 0
         && (block.mweb.Some? ==> Position(c.prefilled, 2) == |block.vtx| - 1)
  {
    CompactIds(block, useWtxid, short);
    var c := CompactOf(block, useWtxid, short);
    assert Position(c.prefilled, 0) == -1 && Position(c.prefilled, 1) == 0;
    assert PlaceableAt(c, 0);
    if block.mweb.Some? {
      assert PlaceableAt(c, 1);
    }
  }

  lemma CompactLayout(block: Block, useWtxid: bool, short: nat -> nat)
    requires Relayable(block)
    ensures var c := CompactOf(block, useWtxid, short); Placeable(c) && Layout(c, |c.prefilled|) == Laid(block)
  {
    var c, n := CompactOf(block, useWtxid, short), |block.vtx|;
    CompactIds(block, useWtxid, short);
    CompactPlaceable(block, useWtxid, short);
    var none := Layout(c, 0);
    assert none == Nones(n);
    var one := Layout(c, 1);
    assert one == none[0 := Some(block.vtx[0])];
    if block.mweb.Some? {
      assert Layout(c, 2) == one[n - 1 := Some(block.vtx[n - 1])] == Laid(block);
    } else {
      assert one == Laid(block);
    }
  }

  lemma {:induction false} HolesBetween(laid: seq<Option<Tx>>, k: nat, m: nat)
    requires k <= m <= |laid| && (forall s | k <= s < m :: laid[s].None?)
             && (forall s | m <= s < |laid| :: laid[s].Some?)
    ensures |FreeFrom(laid, k)| == m - k && forall j | 0 <= j < m - k :: FreeFrom(laid, k)[j] == k + j
    decreases |laid| - k
  {
    if k < m {
      HolesBetween(laid, k + 1, m);
    } else if k < |laid| {
      HolesBetween(laid, k + 1, k + 1);
    }
  }

  /** The free slots of a block's layout are those of its plain transactions, in order. */
  lemma HolesOfBlock(block: Block)
    requires Relayable(block)
    ensures |Holes(Laid(block))| == |Plain(block)| && forall j | 0 <= j < |Plain(block)| ::
            Holes(Laid(block))[j] == 1 + j
  {
    HolesBetween(Laid(block), 1, 1 + |Plain(block)|);
  }

  /** With honest pools every available transaction is the block's own, in its place. */
  lemma AvailableIsRight(block: Block, useWtxid: bool, short: nat -> nat, pool: seq<Entry>, extra: seq<Entry>,
                         avail: seq<Option<Tx>>)
    requires Relayable(block) && Received(CompactOf(block, useWtxid, short), short, pool, extra, avail)
    requires Honest(block, useWtxid, short, pool) && Honest(block, useWtxid, short, extra)
    ensures |avail| == |block.vtx|
    ensures forall s | 0 <= s < |avail| && avail[s].Some? :: avail[s].value == block.vtx[s]
  {
    CompactIds(block, useWtxid, short);
    CompactLayout(block, useWtxid, short);
    HolesOfBlock(block);
    forall s | 0 <= s < |avail| && avail[s].Some?
      ensures avail[s].value == block.vtx[s]
    {
      SlotIsRight(block, useWtxid, short, pool, extra, avail, s);
    }
  }

  lemma SlotIsRight(block: Block, useWtxid: bool, short: nat -> nat, pool: seq<Entry>, extra: seq<Entry>,
                    avail: seq<Option<Tx>>, s: nat)
    requires Relayable(block) && Received(CompactOf(block, useWtxid, short), short, pool, extra, avail)
    requires Honest(block, useWtxid, short, pool) && Honest(block, useWtxid, short, extra)
    requires s < |avail| == |block.vtx| && avail[s].Some?
    ensures avail[s].value == block.vtx[s]
  {
    var c := CompactOf(block, useWtxid, short);
    CompactIds(block, useWtxid, short);
    CompactLayout(block, useWtxid, short);
    HolesOfBlock(block);
    var laid := Laid(block);
    if 1 <= s <= |Plain(block)| {
      assert FromPools(Holes(laid)[s - 1], c.shortIds[s - 1], short, pool, extra, avail);
      PooledIsRight(block, useWtxid, short, pool, extra, s - 1);
    } else {
      assert laid[s].Some? && avail[s] == laid[s];
    }
  }

  lemma PooledIsRight(block: Block, useWtxid: bool, short: nat -> nat, pool: seq<Entry>, extra: seq<Entry>, j: nat)
    requires Relayable(block) && j < |Plain(block)|
    requires Honest(block, useWtxid, short, pool) && Honest(block, useWtxid, short, extra)
    ensures var k := short(HashOf(Plain(block)[j], useWtxid));
      var t := ExtraSlot(PoolSlot(pool, short, k), extra, short, k).tx; t.Some? ==> t.value == Plain(block)[j]
  {
    var k := short(HashOf(Plain(block)[j], useWtxid));
    PoolSlotIs(pool, short, k);
    ExtraSlotOffered(PoolSlot(pool, short, k), extra, short, k);
  }

  /** A block's transactions, with those that are available already in their places. */
  function Merged(avail: seq<Option<Tx>>, vtx: seq<Tx>): (r: seq<Tx>)
    requires |avail| == |vtx|
  {
    seq(|vtx|, i requires 0 <= i < |vtx| => if avail[i].Some? then avail[i].value else vtx[i])
  }

  /** Every available transaction is the block's own. */
  ghost predicate Right(avail: seq<Option<Tx>>, vtx: seq<Tx>)
    requires |avail| == |vtx|
  {
    forall s | 0 <= s < |avail| && avail[s].Some? :: avail[s].value == vtx[s]
  }

  lemma MergedExactly(avail: seq<Option<Tx>>, vtx: seq<Tx>)
    requires |avail| == |vtx|
    ensures Merged(avail, vtx) == vtx <==> Right(avail, vtx)
  {
    if Merged(avail, vtx) == vtx {
      assert forall s | 0 <= s < |avail| :: Merged(avail, vtx)[s] == vtx[s];
    }
  }

  /** Completed with the block's own transactions at the holes, it differs from the block only where the pools did. */
  lemma Rebuilt(vtx: seq<Tx>, avail: seq<Option<Tx>>, missing: seq<Tx>, built: seq<Tx>)
    requires |avail| == |vtx| && |missing| == |Holes(avail)|
    requires forall j | 0 <= j < |missing| :: Holes(avail)[j] < |vtx| && missing[j] == vtx[Holes(avail)[j]]
    requires Completed(avail, missing, built)
    ensures built == Merged(avail, vtx)
  {
    forall s | 0 <= s < |built|
      ensures built[s] == Merged(avail, vtx)[s]
    {
      if avail[s].None? {
        FreeComplete(avail, 0, s);
        var j :| 0 <= j < |Holes(avail)| && Holes(avail)[j] == s;
      }
    }
  }

  /** The indexes to ask for. */
  method MissingIndexes(partial: PartiallyDownloadedBlock, count: nat) returns (indexes: seq<u16>)
    requires partial.header.Header? && count == |partial.txn_available| < UINT16
    ensures indexes == Holes(partial.txn_available)
  {
    ghost var avail := partial.txn_available;
    indexes := [];
    for i := 0 to count
      invariant Holes(avail) == indexes + FreeFrom(avail, i)
    {
      var available := partial.IsTxAvailable(i);
      if !available {
        assert indexes + FreeFrom(avail, i) == indexes + [i] + FreeFrom(avail, i + 1);
        indexes := indexes + [i];
      }
    }
  }

  /** The request goes over the wire and comes back as it was. */
  method SendRequest(indexes: seq<u16>) returns (arrived: seq<u16>)
    requires Increasing(indexes)
    ensures arrived == indexes
  {
    var ns := SerVector(indexes);
    var s := UnserVector(ns.value);
    assert s.Some?;
    EncodesUnique(indexes, s.value, ns.value);
    arrived := s.value;
  }

  lemma HolesIncrease(avail: seq<Option<Tx>>)
    ensures Increasing(Holes(avail)) && forall j | 0 <= j < |Holes(avail)| :: Holes(avail)[j] < |avail|
  {
    FreeAreFree(avail, 0);
  }

  /** What the pools of the receiver give for the j-th plain transaction of a block. */
  ghost function Supplied(block: Block, useWtxid: bool, short: nat -> nat, pool: seq<Entry>, extra: seq<Entry>, j: nat)
    : Option<Tx>
    requires Relayable(block) && j < |Plain(block)|
  {
    Supply(KeysOf(CompactOf(block, useWtxid, short)), 0, short, pool, extra, short(HashOf(Plain(block)[j], useWtxid)))
  }

  /** A block's transactions, with those that the pools supply in their places. */
  ghost function Relayed(block: Block, useWtxid: bool, short: nat -> nat, pool: seq<Entry>,
                         extra: seq<Entry>): (r: seq<Tx>)
    requires Relayable(block)
    ensures |r| == |block.vtx|
  {
    seq(|block.vtx|, s requires 0 <= s < |block.vtx| =>
      if 1 <= s <= |Plain(block)| && Supplied(block, useWtxid, short, pool, extra, s - 1).Some?
      then Supplied(block, useWtxid, short, pool, extra, s - 1).value
      else block.vtx[s])
  }

  /** Whatever the pools supply is the block's own. */
  ghost predicate SuppliedRight(block: Block, useWtxid: bool, short: nat -> nat, pool: seq<Entry>, extra: seq<Entry>)
    requires Relayable(block)
  {
    forall j | 0 <= j < |Plain(block)| ::
      Supplied(block, useWtxid, short, pool, extra, j) in {None, Some(Plain(block)[j])}
  }

  /** The rebuilt transactions are those of the block exactly when the pools supply no others. */
  lemma RelayedExactly(block: Block, useWtxid: bool, short: nat -> nat, pool: seq<Entry>, extra: seq<Entry>)
    requires Relayable(block)
    ensures Relayed(block, useWtxid, short, pool, extra) == block.vtx <==>
            SuppliedRight(block, useWtxid, short, pool, extra)
  {
    var r := Relayed(block, useWtxid, short, pool, extra);
    forall j | 0 <= j < |Plain(block)|
      ensures r[1 + j] == block.vtx[1 + j] <==>
              Supplied(block, useWtxid, short, pool, extra, j) in {None, Some(Plain(block)[j])}
    {
      assert Plain(block)[j] == block.vtx[1 + j];
    }
    if SuppliedRight(block, useWtxid, short, pool, extra) {
      forall s | 0 <= s < |r| ensures r[s] == block.vtx[s] {
        if 1 <= s <= |Plain(block)| { assert r[1 + (s - 1)] == block.vtx[s]; }
      }
    }
  }

  /** The slots after the two scans are what the pools supply. */
  lemma ReceivedIsRelayed(block: Block, useWtxid: bool, short: nat -> nat, pool: seq<Entry>, extra: seq<Entry>, m: nat,
                          n: nat, avail: seq<Option<Tx>>)
    requires Relayable(block) && |avail| == |block.vtx|
    requires Stops(KeysOf(CompactOf(block, useWtxid, short)), 0, short, pool, extra, m, n)
    requires Received(CompactOf(block, useWtxid, short), short, pool[..m], extra[..n], avail)
    ensures Merged(avail, block.vtx) == Relayed(block, useWtxid, short, pool, extra)
  {
    var r := Relayed(block, useWtxid, short, pool, extra);
    forall s | 0 <= s < |block.vtx| ensures Merged(avail, block.vtx)[s] == r[s] {
      SlotIsSupplied(block, useWtxid, short, pool, extra, m, n, avail, s);
    }
  }

  lemma SlotIsSupplied(block: Block, useWtxid: bool, short: nat -> nat, pool: seq<Entry>, extra: seq<Entry>, m: nat,
                       n: nat, avail: seq<Option<Tx>>, s: nat)
    requires Relayable(block) && s < |avail| == |block.vtx|
    requires Stops(KeysOf(CompactOf(block, useWtxid, short)), 0, short, pool, extra, m, n)
    requires Received(CompactOf(block, useWtxid, short), short, pool[..m], extra[..n], avail)
    ensures 1 <= s <= |Plain(block)| ==> avail[s] == Supplied(block, useWtxid, short, pool, extra, s - 1)
    ensures !(1 <= s <= |Plain(block)|) ==> avail[s] == Some(block.vtx[s])
  {
    hide CompactOf, Holes;
    var c := CompactOf(block, useWtxid, short);
    CompactIds(block, useWtxid, short);
    CompactLayout(block, useWtxid, short);
    HolesOfBlock(block);
    var laid := Laid(block);
    if 1 <= s <= |Plain(block)| {
      assert FromPools(Holes(laid)[s - 1], c.shortIds[s - 1], short, pool[..m], extra[..n], avail);
    } else {
      assert laid[s].Some? && avail[s] == laid[s];
    }
  }

  /**
   A block sent as a compact block, its missing transactions asked for and answered, over any pools.  Unless two of its
   short ids are equal or crowd a bucket, the receiver ends with the verdict on a block that has the pools'
   transactions where they supply one and the sender's elsewhere; it is the very block that was sent exactly when the
   pools supply no other transactions, and so when equal short ids mean equal transactions.
   */
  method Relay(block: Block, useWtxid: bool, short: nat -> nat, pool: seq<Entry>, extra: seq<Entry>,
               crowded: seq<nat> -> bool, check: Block -> Verdict)
    returns (status: ReadStatus, got: Option<Block>)
    requires Relayable(block)
    ensures var ids := CompactOf(block, useWtxid, short).shortIds;
      if Uncrowded(ids, crowded) && Distinct(ids) then
        && got == Some(Block(block.header, Relayed(block, useWtxid, short, pool, extra), block.mweb))
        && status == StatusOf(check(got.value))
        && (got == Some(block) <==> SuppliedRight(block, useWtxid, short, pool, extra))
        && (Honest(block, useWtxid, short, pool) && Honest(block, useWtxid, short, extra) ==> got == Some(block))
      else got == None && status == Failed
  {
    var c := MakeCompact(block, useWtxid, short);
    CompactIds(block, useWtxid, short);
    CompactPlaceable(block, useWtxid, short);
    var partial := new PartiallyDownloadedBlock(None);
    ghost var m, n;
    status, m, n := partial.InitData(c, short, pool, extra, crowded);
    if status == Failed {
      return Failed, None;
    }
    ghost var avail := partial.txn_available;
    HonestIsRight(block, useWtxid, short, pool, extra, m, n, avail);
    ReceivedIsRelayed(block, useWtxid, short, pool, extra, m, n, avail);
    RelayedExactly(block, useWtxid, short, pool, extra);
    MergedExactly(avail, block.vtx);
    status, got := Finish(block, partial, check);
  }

  lemma HonestIsRight(block: Block, useWtxid: bool, short: nat -> nat, pool: seq<Entry>, extra: seq<Entry>, m: nat,
                      n: nat,
                      avail: seq<Option<Tx>>)
    requires Relayable(block) && m <= |pool| && n <= |extra| && |avail| == |block.vtx|
    requires Received(CompactOf(block, useWtxid, short), short, pool[..m], extra[..n], avail)
    ensures Honest(block, useWtxid, short, pool) && Honest(block, useWtxid, short, extra) ==> Right(avail, block.vtx)
  {
    if Honest(block, useWtxid, short, pool) && Honest(block, useWtxid, short, extra) {
      HonestPrefix(block, useWtxid, short, pool, m);
      HonestPrefix(block, useWtxid, short, extra, n);
      AvailableIsRight(block, useWtxid, short, pool[..m], extra[..n], avail);
    }
  }

  /** A mempool of one transaction is scanned to its end. */
  lemma OneEntryScanned(keys: set<nat>, short: nat -> nat, e: Entry, k: nat)
    requires short(e.0) == k
    ensures Supply(keys, 0, short, [e], [], k) == Some(e.1)
  {
    assert [e][..1] == [e] && [e][..0] == [];
    assert PoolStop(keys, 0, short, [e], 0) == 1;
    assert PoolSlot([e], short, k) == Slot(Some(e.1), true);
    var none: seq<Entry> := [];
    assert none[..0] == none;
  }

  /** A mempool transaction under the short id of another one goes into the block instead of it. */
  lemma CollisionMisleads(block: Block, useWtxid: bool, short: nat -> nat, j: nat, e: Entry)
    requires Relayable(block) && j < |Plain(block)|
    requires short(e.0) == short(HashOf(Plain(block)[j], useWtxid)) && e.1 != Plain(block)[j]
    ensures !SuppliedRight(block, useWtxid, short, [e], []) && Relayed(block, useWtxid, short, [e], [])[1 + j] == e.1
  {
    OneEntryScanned(KeysOf(CompactOf(block, useWtxid, short)), short, e, short(e.0));
    assert Supplied(block, useWtxid, short, [e], [], j) == Some(e.1);
  }

  /** So the exchange over that mempool never ends with the block that was sent. */
  method RelayOverCollision(block: Block, useWtxid: bool, short: nat -> nat, ghost j: nat, e: Entry,
                            crowded: seq<nat> -> bool, check: Block -> Verdict)
    returns (status: ReadStatus, got: Option<Block>)
    requires Relayable(block) && j < |Plain(block)|
    requires short(e.0) == short(HashOf(Plain(block)[j], useWtxid)) && e.1 != Plain(block)[j]
    ensures got != Some(block)
  {
    CollisionMisleads(block, useWtxid, short, j, e);
    status, got := Relay(block, useWtxid, short, [e], [], crowded, check);
  }

  /** From the initialised object on: request, answer, completion. */
  method Finish(block: Block, partial: PartiallyDownloadedBlock, check: Block -> Verdict)
    returns (status: ReadStatus, got: Option<Block>)
    requires partial.header == block.header && block.header.Header? && partial.mweb_block == block.mweb
    requires |partial.txn_available| == |block.vtx| < UINT16
    modifies partial
    ensures got == Some(Block(block.header, Merged(old(partial.txn_available), block.vtx), block.mweb))
    ensures status == StatusOf(check(got.value))
  {
    ghost var avail := partial.txn_available;
    HolesIncrease(avail);
    var indexes := MissingIndexes(partial, |block.vtx|);
    var arrived := SendRequest(indexes);
    var answer := Answer(block.vtx, arrived);
    var b;
    status, b := partial.FillBlock(answer, check);
    Rebuilt(block.vtx, avail, answer, b.vtx);
    got := Some(b);
  }
}
