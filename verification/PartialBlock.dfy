/**
 `PartiallyDownloadedBlock` (`src/blockencodings.cpp`): what the receiver of a compact block finds in its pools, slot
 by slot, and the block it completes.
 */
module PartialBlock {
  import opened Basics
  import opened BlockEncodings

  type Entry = (nat, Tx)

  // ----- One slot, as the two scans see it -----

  datatype Slot = Slot(tx: Option<Tx>, have: bool)

  /** A mempool transaction whose short id is the slot's: the first is taken, a second empties the slot for good. */
  function PoolMatch(s: Slot, tx: Tx): Slot { if !s.have then Slot(Some(tx), true) else Slot(None, true) }

  /** An extra transaction empties the slot only if it is a different one. */
  function ExtraMatch(s: Slot, tx: Tx): Slot
  {
    if !s.have then Slot(Some(tx), true)
    else if s.tx.Some? && s.tx.value.wtxid != tx.wtxid then Slot(None, true)
    else s
  }

  function PoolSlot(pool: seq<Entry>, short: nat -> nat, k: nat): Slot
  {
    if pool == [] then Slot(None, false) else
      var s, e := PoolSlot(pool[..|pool| - 1], short, k), pool[|pool| - 1];
      if short(e.0) == k then PoolMatch(s, e.1) else s
  }

  function Offer(s: Slot, e: Entry, short: nat -> nat, k: nat): Slot {
    if short(e.0) == k then ExtraMatch(s, e.1) else s
  }

  function ExtraSlot(start: Slot, extra: seq<Entry>, short: nat -> nat, k: nat): Slot
  {
    if extra == [] then start else
      Offer(ExtraSlot(start, extra[..|extra| - 1], short, k), extra[|extra| - 1], short, k)
  }

  function Matches(pool: seq<Entry>, short: nat -> nat, k: nat): nat
  {
    if pool == [] then 0 else
      Matches(pool[..|pool| - 1], short, k) + if short(pool[|pool| - 1].0) == k then 1 else 0
  }

  /** A transaction of the pool with short id `k`. */
  ghost predicate Offered(pool: seq<Entry>, short: nat -> nat, k: nat, tx: Tx)
  {
    exists i :: 0 <= i < |pool| && short(pool[i].0) == k && pool[i].1 == tx
  }

  lemma OfferedMore(pool: seq<Entry>, short: nat -> nat, k: nat, tx: Tx)
    requires pool != []
    ensures Offered(pool, short, k, tx) <==>
      Offered(pool[..|pool| - 1], short, k, tx) || (short(pool[|pool| - 1].0) == k && pool[|pool| - 1].1 == tx)
  {
    var rest := pool[..|pool| - 1];
    if Offered(rest, short, k, tx) {
      var i :| 0 <= i < |rest| && short(rest[i].0) == k && rest[i].1 == tx;
      assert pool[i] == rest[i];
    }
    if Offered(pool, short, k, tx) {
      var i :| 0 <= i < |pool| && short(pool[i].0) == k && pool[i].1 == tx;
      if i < |rest| { assert rest[i] == pool[i]; }
    }
  }

  /** The mempool fills a slot exactly when one of its transactions, and no more, has the slot's short id. */
  lemma {:induction false} PoolSlotIs(pool: seq<Entry>, short: nat -> nat, k: nat)
    ensures PoolSlot(pool, short, k).have <==> Matches(pool, short, k) > 0
    ensures PoolSlot(pool, short, k).tx.Some? <==> Matches(pool, short, k) == 1
    ensures PoolSlot(pool, short, k).tx.Some? ==> Offered(pool, short, k, PoolSlot(pool, short, k).tx.value)
  {
    if pool != [] {
      PoolSlotIs(pool[..|pool| - 1], short, k);
      if PoolSlot(pool, short, k).tx.Some? { OfferedMore(pool, short, k, PoolSlot(pool, short, k).tx.value); }
    }
  }

  /** Every transaction of the pool with short id `k` has the same witness hash. */
  predicate Agree(pool: seq<Entry>, short: nat -> nat, k: nat, wtxid: nat)
  {
    forall i | 0 <= i < |pool| && short(pool[i].0) == k :: pool[i].1.wtxid == wtxid
  }

  /** The extra pool keeps a found transaction exactly when all that match it are the same one. */
  lemma {:induction false} ExtraSlotKeeps(start: Slot, extra: seq<Entry>, short: nat -> nat, k: nat)
    requires start.have
    ensures ExtraSlot(start, extra, short, k).have
    ensures ExtraSlot(start, extra, short, k).tx ==
      if start.tx.Some? && Agree(extra, short, k, start.tx.value.wtxid) then start.tx else None
  {
    if extra != [] {
      var rest, e := extra[..|extra| - 1], extra[|extra| - 1];
      ExtraSlotKeeps(start, rest, short, k);
      if start.tx.Some? {
        var w := start.tx.value.wtxid;
        assert extra == rest + [e];
        assert Agree(extra, short, k, w) <==> Agree(rest, short, k, w) && (short(e.0) == k ==> e.1.wtxid == w) by {
          if Agree(extra, short, k, w) {
            forall i | 0 <= i < |rest| && short(rest[i].0) == k
              ensures rest[i].1.wtxid == w
            {
              assert extra[i] == rest[i];
            }
            assert extra[|rest|] == e;
          }
        }
      }
    }
  }

  /** The first transaction of the pool with short id `k`. */
  function FirstMatch(pool: seq<Entry>, short: nat -> nat, k: nat): (r: Option<nat>)
    ensures r.None? ==> forall i | 0 <= i < |pool| :: short(pool[i].0) != k
    ensures r.Some? ==> r.value < |pool| && short(pool[r.value].0) == k
    ensures r.Some? ==> forall i | 0 <= i < r.value :: short(pool[i].0) != k
  {
    if pool == [] then None else
      var n := |pool| - 1;
      var r := FirstMatch(pool[..n], short, k);
      if r.Some? || short(pool[n].0) != k then r else Some(n)
  }

  /**
   A slot that the mempool left untouched is filled by the extra pool exactly when some transaction there has its short
   id and all of them are the same one; it then gets the first of them.
   */
  lemma {:induction false} ExtraSlotFills(extra: seq<Entry>, short: nat -> nat, k: nat)
    ensures var first, r := FirstMatch(extra, short, k), ExtraSlot(Slot(None, false), extra, short, k);
      && r.have == first.Some?
      && r.tx == if first.Some? && Agree(extra, short, k, extra[first.value].1.wtxid) then Some(extra[first.value].1)
         else None
  {
    if extra != [] {
      var n := |extra| - 1;
      var rest := extra[..n];
      ExtraSlotFills(rest, short, k);
      var first := FirstMatch(rest, short, k);
      assert extra == rest + [extra[n]];
      if first.Some? {
        var w := extra[first.value].1.wtxid;
        assert forall i | 0 <= i < n :: extra[i] == rest[i];
        assert Agree(extra, short, k, w) <==>
          Agree(rest, short, k, w) && (short(extra[n].0) == k ==> extra[n].1.wtxid == w);
      }
    }
  }

  /** Whatever a slot ends with came from one of the pools under the slot's short id. */
  lemma {:induction false} ExtraSlotOffered(start: Slot, extra: seq<Entry>, short: nat -> nat, k: nat)
    ensures var r := ExtraSlot(start, extra, short, k);
            r.tx.Some? ==> r.tx == start.tx || Offered(extra, short, k, r.tx.value)
  {
    if extra != [] {
      ExtraSlotOffered(start, extra[..|extra| - 1], short, k);
      var r := ExtraSlot(start, extra, short, k);
      if r.tx.Some? { OfferedMore(extra, short, k, r.tx.value); }
    }
  }

  // ----- How far the two scans go -----

  /** The short ids for which the mempool has given a transaction. */
  ghost function Given(keys: set<nat>, short: nat -> nat, pool: seq<Entry>): set<nat> {
    set k | k in keys && PoolSlot(pool, short, k).tx.Some?
  }

  /** The same after the extra pool. */
  ghost function GivenWith(keys: set<nat>, short: nat -> nat, pool: seq<Entry>, extra: seq<Entry>): set<nat> {
    set k | k in keys && ExtraSlot(PoolSlot(pool, short, k), extra, short, k).tx.Some?
  }

  /** The mempool is scanned, from `i` on, up to the first entry with which every slot is filled. */
  ghost function PoolStop(keys: set<nat>, base: nat, short: nat -> nat, pool: seq<Entry>, i: nat): (m: nat)
    requires i <= |pool|
    ensures i <= m <= |pool| && (i < |pool| ==> i < m)
    decreases |pool| - i
  {
    if i == |pool| then i
    else if base + |Given(keys, short, pool[..i + 1])| == |keys| then i + 1
    else PoolStop(keys, base, short, pool, i + 1)
  }

  /** So is the extra pool. */
  ghost function ExtraStop(keys: set<nat>, base: nat, short: nat -> nat, pool: seq<Entry>, extra: seq<Entry>, i: nat)
    : (n: nat)
    requires i <= |extra|
    ensures i <= n <= |extra| && (i < |extra| ==> i < n)
    decreases |extra| - i
  {
    if i == |extra| then i
    else if base + |GivenWith(keys, short, pool, extra[..i + 1])| == |keys| then i + 1
    else ExtraStop(keys, base, short, pool, extra, i + 1)
  }

  /** It is the first place behind `i` where every slot is filled, or else the end. */
  lemma {:induction false} PoolStopIsFirst(keys: set<nat>, base: nat, short: nat -> nat, pool: seq<Entry>, i: nat,
                                           m: nat)
    requires i < m <= |pool|
    ensures m == PoolStop(keys, base, short, pool, i) <==>
      && (m < |pool| ==> base + |Given(keys, short, pool[..m])| == |keys|)
      && forall j | i < j < m :: base + |Given(keys, short, pool[..j])| != |keys|
    decreases |pool| - i
  {
    if i + 1 < m { PoolStopIsFirst(keys, base, short, pool, i + 1, m); }
  }

  lemma {:induction false} ExtraStopIsFirst(keys: set<nat>, base: nat, short: nat -> nat, pool: seq<Entry>,
                                            extra: seq<Entry>, i: nat, n: nat)
    requires i < n <= |extra|
    ensures n == ExtraStop(keys, base, short, pool, extra, i) <==>
      && (n < |extra| ==> base + |GivenWith(keys, short, pool, extra[..n])| == |keys|)
      && forall j | i < j < n :: base + |GivenWith(keys, short, pool, extra[..j])| != |keys|
    decreases |extra| - i
  {
    if i + 1 < n { ExtraStopIsFirst(keys, base, short, pool, extra, i + 1, n); }
  }

  /** How much of the two pools is scanned. */
  ghost predicate Stops(keys: set<nat>, base: nat, short: nat -> nat, pool: seq<Entry>, extra: seq<Entry>, m: nat,
                        n: nat)
  {
    && m == PoolStop(keys, base, short, pool, 0) && m <= |pool|
    && n == ExtraStop(keys, base, short, pool[..m], extra, 0) && n <= |extra|
  }

  /** What the pools give for a short id in the end. */
  ghost function Supply(keys: set<nat>, base: nat, short: nat -> nat, pool: seq<Entry>, extra: seq<Entry>, k: nat)
    : Option<Tx>
  {
    var m := PoolStop(keys, base, short, pool, 0);
    var n := ExtraStop(keys, base, short, pool[..m], extra, 0);
    ExtraSlot(PoolSlot(pool[..m], short, k), extra[..n], short, k).tx
  }

  // ----- The table of short ids and the slots -----

  ghost predicate Table(table: map<nat, nat>, n: nat)
  {
    && (forall k <- table :: table[k] < n)
    && (forall j, k | j in table && k in table && table[j] == table[k] :: j == k)
  }

  ghost function Found(table: map<nat, nat>, avail: seq<Option<Tx>>): set<nat>
    requires Table(table, |avail|)
  {
    set k | k in table && avail[table[k]].Some?
  }

  ghost function View(table: map<nat, nat>, avail: seq<Option<Tx>>, have: seq<bool>, k: nat): Slot
    requires Table(table, |avail|) && |have| == |avail| && k in table
  {
    Slot(avail[table[k]], have[table[k]])
  }

  lemma FoundIsGiven(table: map<nat, nat>, avail: seq<Option<Tx>>, have: seq<bool>, short: nat -> nat, pool: seq<Entry>)
    requires Table(table, |avail|) && |have| == |avail|
    requires forall k <- table :: View(table, avail, have, k) == PoolSlot(pool, short, k)
    ensures Found(table, avail) == Given(table.Keys, short, pool)
  {
    forall k | k in table ensures avail[table[k]] == PoolSlot(pool, short, k).tx {
      assert View(table, avail, have, k).tx == avail[table[k]];
    }
  }

  lemma FoundIsGivenWith(table: map<nat, nat>, avail: seq<Option<Tx>>, have: seq<bool>, short: nat -> nat,
                         pool: seq<Entry>,
                         extra: seq<Entry>)
    requires Table(table, |avail|) && |have| == |avail|
    requires forall k <- table :: View(table, avail, have, k) == ExtraSlot(PoolSlot(pool, short, k), extra, short, k)
    ensures Found(table, avail) == GivenWith(table.Keys, short, pool, extra)
  {
    forall k | k in table ensures avail[table[k]] == ExtraSlot(PoolSlot(pool, short, k), extra, short, k).tx {
      assert View(table, avail, have, k).tx == avail[table[k]];
    }
  }

  /** The slots a scan has reached: the others are as before, and only marked slots are filled. */
  ghost predicate Scanned(table: map<nat, nat>, before: seq<Option<Tx>>, avail: seq<Option<Tx>>, have: seq<bool>)
  {
    && |before| == |avail| == |have| && Table(table, |avail|)
    && (forall s | 0 <= s < |avail| && s !in table.Values :: avail[s] == before[s])
    && (forall k <- table :: avail[table[k]].Some? ==> have[table[k]])
  }

  /** Before the mempool scan. */
  lemma NothingFound(table: map<nat, nat>, avail: seq<Option<Tx>>, have: seq<bool>, short: nat -> nat, pool: seq<Entry>)
    requires Table(table, |avail|) && (forall k <- table :: avail[table[k]].None?) && pool == []
    requires |have| == |avail| && forall s | 0 <= s < |have| :: !have[s]
    ensures Scanned(table, avail, avail, have) && Found(table, avail) == {}
    ensures forall k <- table :: View(table, avail, have, k) == PoolSlot(pool, short, k)
  {
  }

  /** One slot changes: what is found changes with it, and nothing else. */
  lemma FoundChanges(table: map<nat, nat>, avail: seq<Option<Tx>>, k: nat, t: Option<Tx>, next: seq<Option<Tx>>)
    requires Table(table, |avail|) && k in table && next == avail[table[k] := t]
    ensures Found(table, next) == (if t.Some? then Found(table, avail) + {k} else Found(table, avail) - {k})
    ensures k in Found(table, avail) <==> avail[table[k]].Some?
  {
    forall j | j in table && j != k ensures j in Found(table, next) <==> j in Found(table, avail) {
      assert table[j] != table[k];
      assert next[table[j]] == avail[table[j]];
    }
  }

  lemma SizeAfter(s: set<nat>, k: nat)
    ensures |s + {k}| == |s| + (if k in s then 0 else 1) && |s - {k}| == |s| - if k in s then 1 else 0
  {
    if k in s {
      assert s + {k} == s;
    } else {
      assert s - {k} == s;
    }
  }

  lemma FoundAfter(table: map<nat, nat>, avail: seq<Option<Tx>>, k: nat, t: Option<Tx>)
    requires Table(table, |avail|) && k in table
    ensures |Found(table, avail[table[k] := t])| ==
      |Found(table, avail)| + (if t.Some? then 1 else 0) - if avail[table[k]].Some? then 1 else 0
  {
    FoundChanges(table, avail, k, t, avail[table[k] := t]);
    SizeAfter(Found(table, avail), k);
  }

  lemma ScannedAfter(table: map<nat, nat>, before: seq<Option<Tx>>, avail: seq<Option<Tx>>, have: seq<bool>, k: nat,
                     t: Option<Tx>)
    requires Scanned(table, before, avail, have) && k in table
    ensures var next, now := avail[table[k] := t], have[table[k] := true];
      && Scanned(table, before, next, now) && View(table, next, now, k) == Slot(t, true)
      && forall j | j in table && j != k :: View(table, next, now, j) == View(table, avail, have, j)
  {
    var next, now := avail[table[k] := t], have[table[k] := true];
    assert forall j | j in table && j != k :: next[table[j]] == avail[table[j]] && now[table[j]] == have[table[j]];
    assert table[k] in table.Values;
  }

  // ----- What InitData leaves -----

  /** The conditions on the message and on the object under which nothing is read at all. */
  predicate Refused(c: Compact, header: Header, avail: seq<Option<Tx>>)
  {
    || c.header.NullHeader? || Count(c) == 0
    || Count(c) > MAX_BLOCK_WEIGHT / MIN_SERIALIZABLE_TRANSACTION_WEIGHT
    || header.Header? || avail != []
  }

  /** Prefilled transactions in their places; in the i-th free slot what the pools gave for the i-th short id. */
  ghost predicate Received(c: Compact, short: nat -> nat, pool: seq<Entry>, extra: seq<Entry>, avail: seq<Option<Tx>>)
  {
    && Placeable(c) && |avail| == Count(c)
    && var laid := Layout(c, |c.prefilled|);
    && (forall s | 0 <= s < |avail| && laid[s].Some? :: avail[s] == laid[s])
    && |Holes(laid)| == |c.shortIds|
    && forall i | 0 <= i < |c.shortIds| :: FromPools(Holes(laid)[i], c.shortIds[i], short, pool, extra, avail)
  }

  ghost function KeysOf(c: Compact): set<nat> { set k | k in c.shortIds }

  ghost predicate FromPools(slot: nat, k: nat, short: nat -> nat, pool: seq<Entry>, extra: seq<Entry>,
                            avail: seq<Option<Tx>>)
  {
    slot < |avail| && avail[slot] == ExtraSlot(PoolSlot(pool, short, k), extra, short, k).tx
  }

  /** The slots of short ids that have a transaction. */
  ghost function Filled(laid: seq<Option<Tx>>, avail: seq<Option<Tx>>): set<nat>
    requires |laid| == |avail|
  {
    set s | 0 <= s < |avail| && laid[s].None? && avail[s].Some?
  }

  lemma {:induction false} ImageSize(keys: set<nat>, table: map<nat, nat>, n: nat)
    requires Table(table, n) && keys <= table.Keys
    ensures |set k | k in keys :: table[k]| == |keys|
  {
    var image := set k | k in keys :: table[k];
    if keys != {} {
      var x :| x in keys;
      ImageSize(keys - {x}, table, n);
      var rest := set k | k in keys - {x} :: table[k];
      assert image == rest + {table[x]};
      assert table[x] !in rest;
    }
  }

  /** The table of the short ids is one to one into the free slots, and onto them. */
  lemma MappedTable(ids: seq<nat>, laid: seq<Option<Tx>>, table: map<nat, nat>)
    requires |ids| == |Holes(laid)| && Distinct(ids) && Mapped(ids, Holes(laid), table)
    ensures Table(table, |laid|) && (forall k <- table :: laid[table[k]].None?)
    ensures forall s | 0 <= s < |laid| :: laid[s].None? <==> s in table.Values
  {
    var free := Holes(laid);
    FreeAreFree(laid, 0);
    forall k | k in table
      ensures table[k] < |laid| && laid[table[k]].None?
    {
      var i :| 0 <= i < |ids| && ids[i] == k;
    }
    forall j, k | j in table && k in table && table[j] == table[k]
      ensures j == k
    {
      var a :| 0 <= a < |ids| && ids[a] == j;
      var b :| 0 <= b < |ids| && ids[b] == k;
      assert free[a] == free[b];
      assert a == b;
    }
    forall s | 0 <= s < |laid| && laid[s].None?
      ensures s in table.Values
    {
      FreeComplete(laid, 0, s);
      var i :| 0 <= i < |free| && free[i] == s;
      assert ids[i] in table && table[ids[i]] == s;
    }
  }

  lemma FilledIsFound(laid: seq<Option<Tx>>, avail: seq<Option<Tx>>, table: map<nat, nat>)
    requires |laid| == |avail| && Table(table, |laid|)
    requires forall s | 0 <= s < |laid| :: laid[s].None? <==> s in table.Values
    ensures |Filled(laid, avail)| == |Found(table, avail)|
  {
    var found := Found(table, avail);
    var image := set k | k in found :: table[k];
    ImageSize(found, table, |laid|);
    forall s | s in Filled(laid, avail)
      ensures s in image
    {
      var k :| k in table && table[k] == s;
      assert k in found;
    }
    forall s | s in image
      ensures s in Filled(laid, avail)
    {
      var k :| k in found && table[k] == s;
      assert s in table.Values;
    }
    assert Filled(laid, avail) == image;
  }

  lemma ReceivedFrom(c: Compact, short: nat -> nat, pool: seq<Entry>, extra: seq<Entry>, laid: seq<Option<Tx>>,
                     table: map<nat, nat>, avail: seq<Option<Tx>>, have: seq<bool>)
    requires Placeable(c) && laid == Layout(c, |c.prefilled|) && |Holes(laid)| == |c.shortIds|
    requires Mapped(c.shortIds, Holes(laid), table) && Scanned(table, laid, avail, have)
    requires forall s | 0 <= s < |laid| :: laid[s].None? <==> s in table.Values
    requires forall k <- table :: View(table, avail, have, k) == ExtraSlot(PoolSlot(pool, short, k), extra, short, k)
    ensures Received(c, short, pool, extra, avail)
  {
    FreeAreFree(laid, 0);
    forall i | 0 <= i < |c.shortIds|
      ensures FromPools(Holes(laid)[i], c.shortIds[i], short, pool, extra, avail)
    {
      assert table[c.shortIds[i]] == Holes(laid)[i];
      assert View(table, avail, have, c.shortIds[i]).tx == avail[Holes(laid)[i]];
    }
  }

  // ----- What FillBlock completes -----

  /** A block from the available transactions, the missing ones in the order of their slots. */
  ghost predicate Completed(avail: seq<Option<Tx>>, missing: seq<Tx>, vtx: seq<Tx>)
  {
    && |vtx| == |avail| && |missing| == |Holes(avail)|
    && (forall s | 0 <= s < |avail| && avail[s].Some? :: vtx[s] == avail[s].value)
    && (forall j | 0 <= j < |missing| :: Holes(avail)[j] < |vtx| && vtx[Holes(avail)[j]] == missing[j])
  }

  /** The first `i` slots of a block in completion, `offset` of the missing transactions used. */
  ghost predicate Completing(avail: seq<Option<Tx>>, missing: seq<Tx>, vtx: seq<Tx>, i: nat, offset: nat)
  {
    && i == |vtx| <= |avail| && offset <= |missing| && offset <= |Holes(avail)|
    && FreeFrom(avail, i) == Holes(avail)[offset..]
    && (forall s | 0 <= s < i && avail[s].Some? :: vtx[s] == avail[s].value)
    && (forall j | 0 <= j < offset :: Holes(avail)[j] < i && vtx[Holes(avail)[j]] == missing[j])
  }

  lemma CompleteAvailable(avail: seq<Option<Tx>>, missing: seq<Tx>, vtx: seq<Tx>, i: nat, offset: nat)
    requires Completing(avail, missing, vtx, i, offset) && i < |avail| && avail[i].Some?
    ensures Completing(avail, missing, vtx + [avail[i].value], i + 1, offset)
  {
  }

  lemma CompleteMissing(avail: seq<Option<Tx>>, missing: seq<Tx>, vtx: seq<Tx>, i: nat, offset: nat)
    requires Completing(avail, missing, vtx, i, offset) && i < |avail| && avail[i].None?
    ensures offset < |Holes(avail)| && Holes(avail)[offset] == i
    ensures offset < |missing| ==> Completing(avail, missing, vtx + [missing[offset]], i + 1, offset + 1)
  {
    HeadOf(Holes(avail), offset, i, FreeFrom(avail, i + 1));
  }

  function StatusOf(v: Verdict): ReadStatus
  {
    match v
    case Good => OK
    case Mutated => Failed
    case Bad => CheckBlockFailed
  }

  /** The slots below `i` moved out of the object. */
  predicate MovedOut(was: seq<Option<Tx>>, now: seq<Option<Tx>>, i: nat)
  {
    |now| == |was| && forall s | 0 <= s < |now| :: now[s] == if s < i then None else was[s]
  }

  class PartiallyDownloadedBlock {
    var txn_available: seq<Option<Tx>>
    var prefilled_count: nat
    var mempool_count: nat
    var extra_count: nat
    var header: Header
    var mweb_block: Option<nat>

    constructor (mweb: Option<nat>)
      ensures txn_available == [] && header == NullHeader && mweb_block == mweb
      ensures prefilled_count == mempool_count == extra_count == 0
    {
      txn_available, header, mweb_block := [], NullHeader, mweb;
      prefilled_count, mempool_count, extra_count := 0, 0, 0;
    }

    method FillSlot(table: map<nat, nat>, have: seq<bool>, k: nat, tx: Tx, ghost base: nat,
                    ghost before: seq<Option<Tx>>)
      returns (now: seq<bool>)
      requires Scanned(table, before, txn_available, have) && k in table
      requires mempool_count == base + |Found(table, txn_available)|
      requires !have[table[k]]
      modifies this`txn_available, this`mempool_count
      ensures Scanned(table, before, txn_available, now)
      ensures mempool_count == base + |Found(table, txn_available)|
      ensures forall j | j in table && j != k ::
              View(table, txn_available, now, j) == old(View(table, txn_available, have, j))
      ensures View(table, txn_available, now, k) == Slot(Some(tx), true) && mempool_count == old(mempool_count) + 1
    {
      FoundAfter(table, txn_available, k, Some(tx));
      ScannedAfter(table, before, txn_available, have, k, Some(tx));
      txn_available := txn_available[table[k] := Some(tx)];
      now := have[table[k] := true];
      mempool_count := mempool_count + 1;
    }

    method EmptySlot(table: map<nat, nat>, have: seq<bool>, k: nat, ghost base: nat, ghost before: seq<Option<Tx>>)
      requires Scanned(table, before, txn_available, have) && k in table
      requires mempool_count == base + |Found(table, txn_available)|
      requires txn_available[table[k]].Some?
      modifies this`txn_available, this`mempool_count
      ensures Scanned(table, before, txn_available, have)
      ensures mempool_count == base + |Found(table, txn_available)|
      ensures forall j | j in table && j != k ::
              View(table, txn_available, have, j) == old(View(table, txn_available, have, j))
      ensures View(table, txn_available, have, k) == Slot(None, true) && mempool_count == old(mempool_count) - 1
    {
      FoundAfter(table, txn_available, k, None);
      ScannedAfter(table, before, txn_available, have, k, None);
      assert have[table[k] := true] == have;
      txn_available := txn_available[table[k] := None];
      mempool_count := mempool_count - 1;
    }

    /** A mempool entry whose short id is in the table. */
    method TakeFromPool(table: map<nat, nat>, have: seq<bool>, k: nat, tx: Tx, ghost base: nat,
                        ghost before: seq<Option<Tx>>)
      returns (now: seq<bool>)
      requires Scanned(table, before, txn_available, have) && k in table
      requires mempool_count == base + |Found(table, txn_available)|
      modifies this`txn_available, this`mempool_count
      ensures Scanned(table, before, txn_available, now)
      ensures mempool_count == base + |Found(table, txn_available)|
      ensures forall j | j in table && j != k ::
              View(table, txn_available, now, j) == old(View(table, txn_available, have, j))
      ensures View(table, txn_available, now, k) == PoolMatch(old(View(table, txn_available, have, k)), tx)
    {
      now := have;
      if !have[table[k]] {
        now := FillSlot(table, have, k, tx, base, before);
      } else {
        if txn_available[table[k]].Some? {
          EmptySlot(table, have, k, base, before);
        }
      }
    }

    /** An entry of the extra pool whose short id is in the table; `extra_count` can wrap below zero. */
    method TakeFromExtra(table: map<nat, nat>, have: seq<bool>, k: nat, tx: Tx, ghost base: nat,
                         ghost before: seq<Option<Tx>>)
      returns (now: seq<bool>)
      requires Scanned(table, before, txn_available, have) && k in table
      requires mempool_count == base + |Found(table, txn_available)|
      requires extra_count < UINT64
      modifies this`txn_available, this`mempool_count, this`extra_count
      ensures Scanned(table, before, txn_available, now)
      ensures mempool_count == base + |Found(table, txn_available)|
      ensures forall j | j in table && j != k ::
              View(table, txn_available, now, j) == old(View(table, txn_available, have, j))
      ensures View(table, txn_available, now, k) == ExtraMatch(old(View(table, txn_available, have, k)), tx)
      ensures extra_count == Wrapped(old(extra_count) + mempool_count - old(mempool_count))
    {
      now := have;
      if !have[table[k]] {
        now := FillSlot(table, have, k, tx, base, before);
        extra_count := (extra_count + 1) % UINT64;
      } else {
        var here := txn_available[table[k]];
        if here.Some? && here.value.wtxid != tx.wtxid {
          EmptySlot(table, have, k, base, before);
          extra_count := (extra_count - 1) % UINT64;
        }
      }
    }

    /** One entry of the mempool, whatever its short id. */
    method OfferPool(table: map<nat, nat>, short: nat -> nat, pool: seq<Entry>, i: nat, have: seq<bool>,
                     ghost base: nat,
                     ghost before: seq<Option<Tx>>)
      returns (now: seq<bool>)
      requires i < |pool| && Scanned(table, before, txn_available, have)
      requires mempool_count == base + |Found(table, txn_available)|
      requires forall k <- table :: View(table, txn_available, have, k) == PoolSlot(pool[..i], short, k)
      modifies this`txn_available, this`mempool_count
      ensures Scanned(table, before, txn_available, now)
      ensures mempool_count == base + |Found(table, txn_available)|
      ensures forall k <- table :: View(table, txn_available, now, k) == PoolSlot(pool[..i + 1], short, k)
      ensures Found(table, txn_available) == Given(table.Keys, short, pool[..i + 1])
    {
      assert pool[..i + 1][..i] == pool[..i];
      now := have;
      var id := short(pool[i].0);
      if id in table {
        now := TakeFromPool(table, have, id, pool[i].1, base, before);
      }
      FoundIsGiven(table, txn_available, now, short, pool[..i + 1]);
    }

    /** The mempool scan, which ends early when every slot is filled. */
    method ScanPool(table: map<nat, nat>, short: nat -> nat, pool: seq<Entry>, ghost base: nat)
      returns (have: seq<bool>, ghost scanned: nat)
      requires Table(table, |txn_available|) && (forall k <- table :: txn_available[table[k]].None?)
      requires mempool_count == base
      modifies this`txn_available, this`mempool_count
      ensures scanned == PoolStop(table.Keys, base, short, pool, 0) && scanned <= |pool|
      ensures scanned < |pool| ==> mempool_count == |table|
      ensures Scanned(table, old(txn_available), txn_available, have)
      ensures mempool_count == base + |Found(table, txn_available)|
      ensures forall k <- table :: View(table, txn_available, have, k) == PoolSlot(pool[..scanned], short, k)
    {
      ghost var before := txn_available;
      have := seq(|txn_available|, _ => false);
      var i := 0;
      NothingFound(table, txn_available, have, short, pool[..0]);
      ghost var stop := PoolStop(table.Keys, base, short, pool, 0);
      while i < |pool|
        invariant 0 <= i <= |pool|
        invariant Scanned(table, before, txn_available, have)
        invariant mempool_count == base + |Found(table, txn_available)|
        invariant forall k <- table :: View(table, txn_available, have, k) == PoolSlot(pool[..i], short, k)
        invariant stop == PoolStop(table.Keys, base, short, pool, i)
      {
        have := OfferPool(table, short, pool, i, have, base, before);
        i := i + 1;
        if mempool_count == |table| {
          break;
        }
      }
      scanned := i;
    }

    /** One entry of the extra pool, whatever its short id. */
    method OfferExtra(table: map<nat, nat>, short: nat -> nat, ghost pool: seq<Entry>, extra: seq<Entry>, i: nat,
                      have: seq<bool>, ghost base: nat, ghost before: seq<Option<Tx>>, ghost start: int)
      returns (now: seq<bool>)
      requires i < |extra| && Scanned(table, before, txn_available, have)
      requires mempool_count == base + |Found(table, txn_available)| && extra_count == Wrapped(start + mempool_count)
      requires forall k <- table ::
        View(table, txn_available, have, k) == ExtraSlot(PoolSlot(pool, short, k), extra[..i], short, k)
      modifies this`txn_available, this`mempool_count, this`extra_count
      ensures Scanned(table, before, txn_available, now)
      ensures mempool_count == base + |Found(table, txn_available)|
      ensures forall k <- table ::
        View(table, txn_available, now, k) == ExtraSlot(PoolSlot(pool, short, k), extra[..i + 1], short, k)
      ensures Found(table, txn_available) == GivenWith(table.Keys, short, pool, extra[..i + 1])
      ensures extra_count == Wrapped(start + mempool_count)
    {
      ExtraSlotNext(extra, i, short);
      now := have;
      var id := short(extra[i].0);
      if id in table {
        now := TakeFromExtra(table, have, id, extra[i].1, base, before);
        WrapsTwice(start + old(mempool_count), mempool_count - old(mempool_count));
      }
      FoundIsGivenWith(table, txn_available, now, short, pool, extra[..i + 1]);
    }

    /** The scan of the extra pool, after that of the mempool. */
    method ScanExtra(table: map<nat, nat>, short: nat -> nat, ghost pool: seq<Entry>, extra: seq<Entry>,
                     found: seq<bool>,
                     ghost base: nat)
      returns (ghost have: seq<bool>, ghost scanned: nat)
      requires Scanned(table, txn_available, txn_available, found)
      requires mempool_count == base + |Found(table, txn_available)| && extra_count < UINT64
      requires forall k <- table :: View(table, txn_available, found, k) == PoolSlot(pool, short, k)
      modifies this`txn_available, this`mempool_count, this`extra_count
      ensures scanned == ExtraStop(table.Keys, base, short, pool, extra, 0) && scanned <= |extra|
      ensures scanned < |extra| ==> mempool_count == |table|
      ensures Scanned(table, old(txn_available), txn_available, have)
      ensures mempool_count == base + |Found(table, txn_available)|
      ensures forall k <- table ::
        View(table, txn_available, have, k) == ExtraSlot(PoolSlot(pool, short, k), extra[..scanned], short, k)
      ensures extra_count == Wrapped(old(extra_count) - old(mempool_count) + mempool_count)
    {
      ghost var before := txn_available;
      ghost var stop := ExtraStop(table.Keys, base, short, pool, extra, 0);
      var marks := found;
      var i := 0;
      while i < |extra|
        invariant 0 <= i <= |extra|
        invariant Scanned(table, before, txn_available, marks)
        invariant mempool_count == base + |Found(table, txn_available)|
        invariant forall k <- table ::
          View(table, txn_available, marks, k) == ExtraSlot(PoolSlot(pool, short, k), extra[..i], short, k)
        invariant extra_count == Wrapped(old(extra_count) - old(mempool_count) + mempool_count)
        invariant stop == ExtraStop(table.Keys, base, short, pool, extra, i)
      {
        marks := OfferExtra(table, short, pool, extra, i, marks, base, before, old(extra_count) - old(mempool_count));
        i := i + 1;
        if mempool_count == |table| {
          break;
        }
      }
      have, scanned := marks, i;
    }

    /** The prefilled transactions into their slots. */
    method PlacePrefilled(c: Compact) returns (ok: bool)
      requires txn_available == Nones(Count(c))
      modifies this`txn_available
      ensures ok <==> Placeable(c)
      ensures |txn_available| == Count(c) && (ok ==> txn_available == Layout(c, |c.prefilled|))
    {
      var last := -1;
      for i := 0 to |c.prefilled|
        invariant last == Position(c.prefilled, i) && |txn_available| == Count(c)
        invariant forall k | 0 <= k < i :: PlaceableAt(c, k)
        invariant txn_available == Layout(c, i)
      {
        if c.prefilled[i].tx.empty {
          assert !PlaceableAt(c, i);
          return false;
        }
        last := last + c.prefilled[i].index + 1;
        if last >= UINT16 {
          assert !PlaceableAt(c, i);
          return false;
        }
        if last > |c.shortIds| + i {
          assert !PlaceableAt(c, i);
          return false;
        }
        PositionGrows(c.prefilled, i + 1);
        txn_available := txn_available[last := Some(c.prefilled[i].tx)];
      }
      ok := true;
    }

    /** Both scans, after the slots are known. */
    method FindTransactions(c: Compact, short: nat -> nat, pool: seq<Entry>, extra: seq<Entry>, table: map<nat, nat>)
      returns (ghost m: nat, ghost n: nat)
      requires Placeable(c) && txn_available == Layout(c, |c.prefilled|) && |Holes(txn_available)| == |c.shortIds|
      requires Distinct(c.shortIds) && Mapped(c.shortIds, Holes(txn_available), table) && |table| == |c.shortIds|
      requires extra_count < UINT64
      modifies this`txn_available, this`mempool_count, this`extra_count
      ensures Stops(KeysOf(c), old(mempool_count), short, pool, extra, m, n)
      ensures Received(c, short, pool[..m], extra[..n], txn_available)
      ensures mempool_count == old(mempool_count) + |Filled(old(txn_available), txn_available)|
      ensures n < |extra| ==> mempool_count == |c.shortIds|
      ensures extra_count < UINT64
    {
      ghost var laid, base := txn_available, mempool_count;
      MappedTable(c.shortIds, laid, table);
      var found;
      found, m := ScanPool(table, short, pool, base);
      ghost var have;
      have, n := ScanExtra(table, short, pool[..m], extra, found, base);
      assert table.Keys == KeysOf(c);
      ReceivedFrom(c, short, pool[..m], extra[..n], laid, table, txn_available, have);
      FilledIsFound(laid, txn_available, table);
    }

    /** From the empty slots on. */
    method ReadSlots(c: Compact, short: nat -> nat, pool: seq<Entry>, extra: seq<Entry>, crowded: seq<nat> -> bool)
      returns (status: ReadStatus, ghost m: nat, ghost n: nat)
      requires txn_available == Nones(Count(c)) && Count(c) < UINT16 && extra_count < UINT64
      modifies this`txn_available, this`prefilled_count, this`mempool_count, this`extra_count
      ensures status == Invalid <==> !Placeable(c)
      ensures status == Failed <==> Placeable(c) && !(Uncrowded(c.shortIds, crowded) && Distinct(c.shortIds))
      ensures status in {OK, Invalid, Failed} && |txn_available| == Count(c)
      ensures status == OK ==>
        && Stops(KeysOf(c), old(mempool_count), short, pool, extra, m, n)
        && Received(c, short, pool[..m], extra[..n], txn_available)
      ensures status == OK ==>
        && prefilled_count == |c.prefilled|
        && mempool_count == old(mempool_count) + |Filled(Layout(c, |c.prefilled|), txn_available)|
        && (n < |extra| ==> mempool_count == |c.shortIds|)
    {
      m, n := 0, 0;
      var placed := PlacePrefilled(c);
      if !placed {
        return Invalid, m, n;
      }
      prefilled_count := |c.prefilled|;
      LayoutFree(c, |c.prefilled|);
      var mapped, table := MapShortIds(txn_available, c.shortIds, crowded);
      if !mapped {
        return Failed, m, n;
      }
      m, n := FindTransactions(c, short, pool, extra, table);
      status := OK;
    }

    method InitData(c: Compact, short: nat -> nat, pool: seq<Entry>, extra: seq<Entry>, crowded: seq<nat> -> bool)
      returns (status: ReadStatus, ghost m: nat, ghost n: nat)
      requires Count(c) < UINT16 && extra_count < UINT64
      modifies this
      ensures status == Invalid <==> old(Refused(c, header, txn_available)) || !Placeable(c)
      ensures status == Failed <==>
              !old(Refused(c, header, txn_available)) && Placeable(c)
                && !(Uncrowded(c.shortIds, crowded) && Distinct(c.shortIds))
      ensures status in {OK, Invalid, Failed}
      ensures old(Refused(c, header, txn_available)) ==> unchanged(this)
      ensures !old(Refused(c, header, txn_available)) ==>
              header == c.header && mweb_block == c.mweb && |txn_available| == Count(c)
      ensures status == OK ==>
        && Stops(KeysOf(c), old(mempool_count), short, pool, extra, m, n)
        && Received(c, short, pool[..m], extra[..n], txn_available)
      ensures status == OK ==>
        && prefilled_count == |c.prefilled|
        && mempool_count == old(mempool_count) + |Filled(Layout(c, |c.prefilled|), txn_available)|
        && (n < |extra| ==> mempool_count == |c.shortIds|)
    {
      m, n := 0, 0;
      if c.header.NullHeader? || (|c.shortIds| == 0 && |c.prefilled| == 0) {
        return Invalid, m, n;
      }
      if |c.shortIds| + |c.prefilled| > MAX_BLOCK_WEIGHT / MIN_SERIALIZABLE_TRANSACTION_WEIGHT {
        return Invalid, m, n;
      }
      if header.Header? || txn_available != [] {
        return Invalid, m, n;
      }
      header := c.header;
      mweb_block := c.mweb;
      txn_available := Nones(|c.shortIds| + |c.prefilled|);
      status, m, n := ReadSlots(c, short, pool, extra, crowded);
    }

    method IsTxAvailable(index: nat) returns (available: bool)
      requires header.Header? ==> index < |txn_available|
      ensures available <==> header.Header? && txn_available[index].Some?
    {
      if header.NullHeader? {
        return false;
      }
      return txn_available[index].Some?;
    }

    /** The transactions into `vtx`, slot by slot; too few of them end it with the slots before the hole moved out. */
    method Complete(missing: seq<Tx>) returns (ok: bool, vtx: seq<Tx>, offset: nat)
      modifies this`txn_available
      ensures ok <==> |Holes(old(txn_available))| <= |missing|
      ensures ok ==> Completing(old(txn_available), missing, vtx, |old(txn_available)|, offset)
      ensures !ok ==> MovedOut(old(txn_available), txn_available, Holes(old(txn_available))[|missing|])
    {
      vtx, offset := [], 0;
      ghost var avail := txn_available;
      assert Holes(avail)[0..] == Holes(avail);
      for i := 0 to |txn_available|
        invariant MovedOut(avail, txn_available, i) && Completing(avail, missing, vtx, i, offset)
      {
        if txn_available[i].None? {
          CompleteMissing(avail, missing, vtx, i, offset);
          if |missing| <= offset {
            return false, vtx, offset;
          }
          vtx, offset := vtx + [missing[offset]], offset + 1;
        } else {
          CompleteAvailable(avail, missing, vtx, i, offset);
          vtx := vtx + [txn_available[i].value];
          txn_available := txn_available[i := None];
        }
      }
      ok := true;
      assert FreeFrom(avail, |avail|) == [];
    }

    method FillBlock(missing: seq<Tx>, check: Block -> Verdict) returns (status: ReadStatus, block: Block)
      modifies this`header, this`txn_available
      ensures old(header).NullHeader? ==> status == Invalid && unchanged(this)
      ensures old(header).Header? && |missing| < |Holes(old(txn_available))| ==>
        status == Invalid && header == old(header)
          && MovedOut(old(txn_available), txn_available, Holes(old(txn_available))[|missing|])
      ensures old(header).Header? && |missing| >= |Holes(old(txn_available))| ==>
              header == NullHeader && txn_available == []
      ensures old(header).Header? && |missing| > |Holes(old(txn_available))| ==> status == Invalid
      ensures old(header).Header? && |missing| == |Holes(old(txn_available))| ==>
        && Completed(old(txn_available), missing, block.vtx) && block == Block(old(header), block.vtx, mweb_block)
        && status == StatusOf(check(block))
    {
      if header.NullHeader? {
        return Invalid, Block(NullHeader, [], None);
      }
      var ok, vtx, offset := Complete(missing);
      block := Block(header, vtx, mweb_block);
      if !ok {
        return Invalid, block;
      }
      header := NullHeader;
      txn_available := [];
      if |missing| != offset {
        return Invalid, block;
      }
      status := StatusOf(check(block));
    }
  }

  /** A counter of 64 bits. */
  ghost function Wrapped(x: int): (r: nat)
    ensures r < UINT64
    decreases if x < 0 then -x else x
  {
    if x < 0 then if x + UINT64 < 0 then Wrapped(x + UINT64) else x + UINT64
    else if x < UINT64 then x else Wrapped(x - UINT64)
  }

  lemma SameRemainder(x: int)
    ensures (x + UINT64) % UINT64 == x % UINT64
  {
  }

  lemma {:induction false} WrappedIs(x: int)
    ensures Wrapped(x) == x % UINT64
    decreases if x < 0 then -x else x
  {
    if x < 0 {
      SameRemainder(x);
      if x + UINT64 < 0 { WrappedIs(x + UINT64); }
    } else if x >= UINT64 {
      SameRemainder(x - UINT64);
      WrappedIs(x - UINT64);
    }
  }

  lemma WrapsTwice(x: int, d: int)
    ensures Wrapped(Wrapped(x) + d) == Wrapped(x + d)
  {
    WrappedIs(x);
    WrappedIs(Wrapped(x) + d);
    WrappedIs(x + d);
  }

  lemma ExtraSlotNext(extra: seq<Entry>, i: nat, short: nat -> nat)
    requires i < |extra|
    ensures forall start, k ::
      ExtraSlot(start, extra[..i + 1], short, k) == Offer(ExtraSlot(start, extra[..i], short, k), extra[i], short, k)
  {
    assert extra[..i + 1][..i] == extra[..i];
  }
}
