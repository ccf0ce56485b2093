/**
 The tables of the address manager (`src/addrman.h`, `src/addrman.cpp`) as a value: the steps that its
 methods are made of, and the consistency that `Check_` asks for, which every step keeps.

 The secret key appears through the bucket functions it induces, which are arbitrary apart from their ranges.
 */
module AddrTables {
  import opened Basics

  const ADDRMAN_TRIED_BUCKET_COUNT := 256
  const ADDRMAN_NEW_BUCKET_COUNT := 1024
  const ADDRMAN_BUCKET_SIZE := 64
  const ADDRMAN_NEW_BUCKETS_PER_ADDRESS := 8
  const ADDRMAN_SET_TRIED_COLLISION_SIZE := 10

  type NetAddr = nat
  datatype Service = Service(ip: NetAddr, port: nat)

  /** `CAddrInfo`. */
  datatype Info = Info(
    service: Service,
    source: NetAddr,
    nTime: int,
    nServices: set<nat>,
    nLastTry: int,
    nLastCountAttempt: int,
    nLastSuccess: int,
    nAttempts: int,
    nRefCount: int,
    fInTried: bool,
    nRandomPos: int)

  /** The key, as the hashes it gives: of an address, of an address and its source, of an address in a bucket. */
  datatype Key = Key(tried: map<Service, nat>, fromSource: map<(Service, NetAddr), nat>,
                     position: map<(bool, nat, Service), nat>)

  function GetTriedBucket(k: Key, a: Service): (b: nat)
    ensures b < ADDRMAN_TRIED_BUCKET_COUNT
  {
    (if a in k.tried then k.tried[a] else 0) % ADDRMAN_TRIED_BUCKET_COUNT
  }

  function GetNewBucket(k: Key, a: Service, src: NetAddr): (b: nat)
    ensures b < ADDRMAN_NEW_BUCKET_COUNT
  {
    (if (a, src) in k.fromSource then k.fromSource[(a, src)] else 0) % ADDRMAN_NEW_BUCKET_COUNT
  }

  function GetBucketPosition(k: Key, fNew: bool, b: nat, a: Service): (p: nat)
    ensures p < ADDRMAN_BUCKET_SIZE
  {
    (if (fNew, b, a) in k.position then k.position[(fNew, b, a)] else 0) % ADDRMAN_BUCKET_SIZE
  }

  // ----- Tables -----

  type Table = seq<seq<int>>

  predicate Shape(t: Table, buckets: nat) {
    |t| == buckets && forall b | 0 <= b < |t| :: |t[b]| == ADDRMAN_BUCKET_SIZE
  }

  function Cell(t: Table, b: int, p: int): int {
    if 0 <= b < |t| && 0 <= p < |t[b]| then t[b][p] else -1
  }

  function SetCell(t: Table, b: nat, p: nat, id: int): Table
    requires b < |t| && p < |t[b]|
  {
    t[b := t[b][p := id]]
  }

  function EmptyTable(buckets: nat): (t: Table)
    ensures Shape(t, buckets) && forall b, p :: Cell(t, b, p) == -1
  {
    seq(buckets, _ => seq(ADDRMAN_BUCKET_SIZE, _ => -1))
  }

  // ----- The state -----

  datatype State = State(
    nKey: Key,
    nIdCount: nat,
    mapInfo: map<int, Info>,
    mapAddr: map<NetAddr, int>,
    vRandom: seq<int>,
    nTried: int,
    vvTried: Table,
    nNew: int,
    vvNew: Table)

  function NewPos(k: Key, b: nat, a: Service): nat { GetBucketPosition(k, true, b, a) }
  function TriedPos(k: Key, a: Service): nat { GetBucketPosition(k, false, GetTriedBucket(k, a), a) }

  /** What is in the tried slot of an address. */
  function TriedOccupant(k: Key, vvTried: Table, a: Service): int {
    Cell(vvTried, GetTriedBucket(k, a), TriedPos(k, a))
  }

  /** The new buckets in which an id occupies the slot that its address hashes to. */
  function NewBuckets(k: Key, vvNew: Table, a: Service, id: int): set<nat> {
    set b: nat | 0 <= b < ADDRMAN_NEW_BUCKET_COUNT && Cell(vvNew, b, NewPos(k, b, a)) == id
  }

  /** The ids in the tried table, or those that are not. */
  function Ids(m: map<int, Info>, tried: bool): set<int> { set id | id in m && m[id].fInTried == tried }

  lemma IdsUpdate(m: map<int, Info>, id: int, i: Info, tried: bool)
    ensures |Ids(m[id := i], tried)|
         == |Ids(m, tried)| - (if id in Ids(m, tried) then 1 else 0) + (if i.fInTried == tried then 1 else 0)
  {
    var r := m[id := i];
    if i.fInTried == tried {
      assert Ids(r, tried) == Ids(m, tried) + {id};
    } else {
      assert Ids(r, tried) == Ids(m, tried) - {id};
    }
  }

  lemma IdsRemove(m: map<int, Info>, id: int, tried: bool)
    ensures |Ids(m - {id}, tried)| == |Ids(m, tried)| - if id in Ids(m, tried) then 1 else 0
  {
    assert Ids(m - {id}, tried) == Ids(m, tried) - {id};
  }

  // ----- Consistency -----

  /** What `Check_` asks of one entry; an idle one has no reference yet and is not in the tried table. */
  ghost predicate EntryOk(s: State, id: int, idle: set<int>) {
    id in s.mapInfo ==>
      var i := s.mapInfo[id];
      && 0 <= id < s.nIdCount
      && i.service.ip in s.mapAddr && s.mapAddr[i.service.ip] == id
      && 0 <= i.nRandomPos < |s.vRandom| && s.vRandom[i.nRandomPos] == id
      && 0 <= i.nLastTry && 0 <= i.nLastSuccess
      && i.nRefCount == |NewBuckets(s.nKey, s.vvNew, i.service, id)| <= ADDRMAN_NEW_BUCKETS_PER_ADDRESS
      && (i.fInTried ==>
         id !in idle && i.nLastSuccess > 0 && i.nRefCount == 0 && TriedOccupant(s.nKey, s.vvTried, i.service) == id)
      && (!i.fInTried && id !in idle ==> i.nRefCount > 0)
  }

  ghost predicate AddrOk(s: State, a: NetAddr) {
    a in s.mapAddr ==> s.mapAddr[a] in s.mapInfo && s.mapInfo[s.mapAddr[a]].service.ip == a
  }

  ghost predicate RandomOk(s: State, k: int) {
    0 <= k < |s.vRandom| ==> s.vRandom[k] in s.mapInfo && s.mapInfo[s.vRandom[k]].nRandomPos == k
  }

  ghost predicate NewCellOk(s: State, b: int, p: int) {
    var id := Cell(s.vvNew, b, p);
    id != -1 ==> id in s.mapInfo && !s.mapInfo[id].fInTried && p == NewPos(s.nKey, b, s.mapInfo[id].service)
  }

  ghost predicate TriedCellOk(s: State, b: int, p: int) {
    var id := Cell(s.vvTried, b, p);
    id != -1 ==>
      && id in s.mapInfo && s.mapInfo[id].fInTried
      && b == GetTriedBucket(s.nKey, s.mapInfo[id].service) && p == TriedPos(s.nKey, s.mapInfo[id].service)
  }

  ghost predicate Shapes(s: State) {
    Shape(s.vvNew, ADDRMAN_NEW_BUCKET_COUNT) && Shape(s.vvTried, ADDRMAN_TRIED_BUCKET_COUNT)
  }

  ghost predicate Indexed(s: State) {
    (forall a :: AddrOk(s, a)) && (forall k :: RandomOk(s, k))
  }

  ghost predicate Celled(s: State) {
    (forall b, p :: NewCellOk(s, b, p)) && (forall b, p :: TriedCellOk(s, b, p))
  }

  /** Everything but the counters. */
  ghost predicate Structure(s: State, idle: set<int>) {
    Shapes(s) && Indexed(s) && Celled(s) && (forall id :: EntryOk(s, id, idle))
  }

  /** `uncounted` entries are for the moment in neither `nNew` nor `nTried`. */
  ghost predicate Counts(s: State, uncounted: nat) {
    s.nTried == |Ids(s.mapInfo, true)| && s.nNew + uncounted == |Ids(s.mapInfo, false)|
  }

  /** Consistency in the middle of an operation. */
  ghost predicate Partial(s: State, idle: set<int>, uncounted: nat) {
    Structure(s, idle) && Counts(s, uncounted)
  }

  /** Consistency between operations. */
  ghost predicate Consistent(s: State) { Partial(s, {}, 0) }

  // ----- The steps -----

  /** Changing what `Check_` does not look at. */
  ghost predicate SameRole(i: Info, j: Info) {
    && j.service == i.service && j.source == i.source && j.nRefCount == i.nRefCount && j.fInTried == i.fInTried
       && j.nRandomPos == i.nRandomPos
    && 0 <= j.nLastTry && 0 <= j.nLastSuccess && (i.nLastSuccess > 0 ==> j.nLastSuccess > 0)
  }

  function SetInfo(s: State, id: int, i: Info): State { s.(mapInfo := s.mapInfo[id := i]) }

  lemma SetInfoKeeps(s: State, id: int, i: Info, idle: set<int>, uncounted: nat)
    requires Partial(s, idle, uncounted) && id in s.mapInfo && SameRole(s.mapInfo[id], i)
    ensures Partial(SetInfo(s, id, i), idle, uncounted)
  {
    var r := SetInfo(s, id, i);
    forall a ensures AddrOk(r, a) { assert AddrOk(s, a); }
    forall k ensures RandomOk(r, k) { assert RandomOk(s, k); }
    forall b, p ensures NewCellOk(r, b, p) { assert NewCellOk(s, b, p); }
    forall b, p ensures TriedCellOk(r, b, p) { assert TriedCellOk(s, b, p); }
    forall j ensures EntryOk(r, j, idle) { assert EntryOk(s, j, idle); }
    IdsUpdate(s.mapInfo, id, i, true);
    IdsUpdate(s.mapInfo, id, i, false);
  }

  /** `Create`: a fresh id without references. */
  function Create(s: State, a: Service, source: NetAddr, nTime: int, nServices: set<nat>): State {
    var i := Info(a, source, nTime, nServices, 0, 0, 0, 0, 0, false, |s.vRandom|);
    s.(nIdCount := s.nIdCount + 1, mapInfo := s.mapInfo[s.nIdCount := i], mapAddr := s.mapAddr[a.ip := s.nIdCount],
       vRandom := s.vRandom + [s.nIdCount])
  }

  /** An id that is not in use is in no cell. */
  lemma UnusedInNoCell(s: State, id: int, a: Service)
    requires Celled(s) && id !in s.mapInfo && id != -1
    ensures NewBuckets(s.nKey, s.vvNew, a, id) == {}
  {
    forall b, p ensures Cell(s.vvNew, b, p) != id {
      assert NewCellOk(s, b, p);
    }
  }

  lemma CreateKeeps(s: State, a: Service, source: NetAddr, nTime: int, nServices: set<nat>, idle: set<int>,
                    uncounted: nat)
    requires Partial(s, idle, uncounted) && a.ip !in s.mapAddr
    ensures Partial(Create(s, a, source, nTime, nServices), idle + {s.nIdCount}, uncounted + 1)
    ensures s.nIdCount !in s.mapInfo
  {
    var id, r := s.nIdCount, Create(s, a, source, nTime, nServices);
    assert id !in s.mapInfo by { assert EntryOk(s, id, idle); }
    assert Indexed(r) by {
      forall x ensures AddrOk(r, x) { assert AddrOk(s, x); }
      forall k ensures RandomOk(r, k) { assert RandomOk(s, k); }
    }
    assert Celled(r) by {
      forall b, p ensures NewCellOk(r, b, p) { assert NewCellOk(s, b, p); }
      forall b, p ensures TriedCellOk(r, b, p) { assert TriedCellOk(s, b, p); }
    }
    assert forall j :: EntryOk(r, j, idle + {id}) by {
      UnusedInNoCell(s, id, a);
      forall j ensures EntryOk(r, j, idle + {id}) { assert EntryOk(s, j, idle); }
    }
    IdsUpdate(s.mapInfo, id, r.mapInfo[id], true);
    IdsUpdate(s.mapInfo, id, r.mapInfo[id], false);
  }

  lemma CreateFirstKeeps(s: State, a: Service, source: NetAddr, nTime: int, nServices: set<nat>)
    requires Consistent(s) && a.ip !in s.mapAddr
    ensures Partial(Create(s, a, source, nTime, nServices), {s.nIdCount}, 1)
    ensures s.nIdCount !in s.mapInfo
  {
    CreateKeeps(s, a, source, nTime, nServices, {}, 0);
    var id: int := s.nIdCount;
    assert {} + {id} == {id};
  }

  /** `SwapRandom`: two positions of the random order change places. */
  function SwapRandom(s: State, i: nat, j: nat): State
    requires i < |s.vRandom| && j < |s.vRandom| && s.vRandom[i] in s.mapInfo && s.vRandom[j] in s.mapInfo
  {
    if i == j then s else
    var a, b := s.vRandom[i], s.vRandom[j];
    var m := s.mapInfo[a := s.mapInfo[a].(nRandomPos := j)];
    s.(mapInfo := m[b := m[b].(nRandomPos := i)], vRandom := s.vRandom[i := b][j := a])
  }

  lemma SwapRandomKeeps(s: State, i: nat, j: nat, idle: set<int>, uncounted: nat)
    requires Partial(s, idle, uncounted) && i < |s.vRandom| && j < |s.vRandom|
    ensures RandomOk(s, i) && RandomOk(s, j)
    ensures Partial(SwapRandom(s, i, j), idle, uncounted)
  {
    assert RandomOk(s, i) && RandomOk(s, j);
    if i != j {
      var r := SwapRandom(s, i, j);
      var m := s.mapInfo[s.vRandom[i] := s.mapInfo[s.vRandom[i]].(nRandomPos := j)];
      assert s.vRandom[i] != s.vRandom[j];
      assert Indexed(r) by {
        forall x ensures AddrOk(r, x) { assert AddrOk(s, x); }
        forall k ensures RandomOk(r, k) { assert RandomOk(s, k); }
      }
      assert Celled(r) by {
        forall b, p ensures NewCellOk(r, b, p) { assert NewCellOk(s, b, p); }
        forall b, p ensures TriedCellOk(r, b, p) { assert TriedCellOk(s, b, p); }
      }
      forall id ensures EntryOk(r, id, idle) { assert EntryOk(s, id, idle); }
      IdsUpdate(s.mapInfo, s.vRandom[i], m[s.vRandom[i]], true);
      IdsUpdate(s.mapInfo, s.vRandom[i], m[s.vRandom[i]], false);
      IdsUpdate(m, s.vRandom[j], r.mapInfo[s.vRandom[j]], true);
      IdsUpdate(m, s.vRandom[j], r.mapInfo[s.vRandom[j]], false);
    }
  }

  /** `Delete`: an id leaves; the last id of the random order takes its place there. */
  function Delete(s: State, id: int): State
    requires id in s.mapInfo && 0 <= s.mapInfo[id].nRandomPos < |s.vRandom|
    requires s.vRandom[s.mapInfo[id].nRandomPos] in s.mapInfo && s.vRandom[|s.vRandom| - 1] in s.mapInfo
  {
    var r := SwapRandom(s, s.mapInfo[id].nRandomPos, |s.vRandom| - 1);
    r.(vRandom := r.vRandom[..|r.vRandom| - 1], mapAddr := r.mapAddr - {s.mapInfo[id].service.ip},
       mapInfo := r.mapInfo - {id}, nNew := r.nNew - 1)
  }

  lemma DeleteDefined(s: State, id: int, idle: set<int>)
    requires Structure(s, idle) && id in s.mapInfo
    ensures 0 <= s.mapInfo[id].nRandomPos < |s.vRandom|
    ensures s.vRandom[s.mapInfo[id].nRandomPos] == id && s.vRandom[|s.vRandom| - 1] in s.mapInfo
  {
    assert EntryOk(s, id, idle);
    assert RandomOk(s, |s.vRandom| - 1);
  }

  /** An id holds its cells in buckets of its own. */
  lemma CellInBuckets(s: State, id: int, b: int, p: int)
    requires Shapes(s) && Celled(s) && id in s.mapInfo && id != -1 && Cell(s.vvNew, b, p) == id
    ensures b in NewBuckets(s.nKey, s.vvNew, s.mapInfo[id].service, id)
  {
    assert NewCellOk(s, b, p);
  }

  /** An id without references is in no cell. */
  lemma UnreferencedInNoCell(s: State, id: int, idle: set<int>, b: int, p: int)
    requires Structure(s, idle) && id in s.mapInfo && s.mapInfo[id].nRefCount == 0
    ensures Cell(s.vvNew, b, p) != id
  {
    assert EntryOk(s, id, idle);
    if Cell(s.vvNew, b, p) == id {
      CellInBuckets(s, id, b, p);
      assert false;
    }
  }

  /** Deleting the last id of the random order. */
  lemma DeleteLastKeeps(s: State, id: int, idle: set<int>, uncounted: nat)
    requires Partial(s, idle, uncounted) && id in s.mapInfo && !s.mapInfo[id].fInTried && s.mapInfo[id].nRefCount == 0
    requires |s.vRandom| > 0 && s.mapInfo[id].nRandomPos == |s.vRandom| - 1
    ensures s.vRandom[|s.vRandom| - 1] == id
    ensures Partial(Delete(s, id), idle - {id}, uncounted)
  {
    DeleteDefined(s, id, idle);
    var r := Delete(s, id);
    assert Indexed(r) by {
      forall x ensures AddrOk(r, x) { assert AddrOk(s, x) && EntryOk(s, id, idle); }
      forall k ensures RandomOk(r, k) { assert RandomOk(s, k); }
    }
    assert Celled(r) by {
      forall b, p ensures NewCellOk(r, b, p) {
        assert NewCellOk(s, b, p);
        UnreferencedInNoCell(s, id, idle, b, p);
      }
      forall b, p ensures TriedCellOk(r, b, p) { assert TriedCellOk(s, b, p); }
    }
    forall j ensures EntryOk(r, j, idle - {id}) { assert EntryOk(s, j, idle) && EntryOk(s, id, idle); }
    IdsRemove(s.mapInfo, id, true);
    IdsRemove(s.mapInfo, id, false);
  }

  /** Deleting an id without references keeps consistency, and no one else notices. */
  lemma DeleteKeeps(s: State, id: int, idle: set<int>, uncounted: nat)
    requires Partial(s, idle, uncounted) && id in s.mapInfo && !s.mapInfo[id].fInTried && s.mapInfo[id].nRefCount == 0
    ensures 0 <= s.mapInfo[id].nRandomPos < |s.vRandom|
    ensures s.vRandom[s.mapInfo[id].nRandomPos] == id && s.vRandom[|s.vRandom| - 1] in s.mapInfo
    ensures Partial(Delete(s, id), idle - {id}, uncounted)
  {
    DeleteDefined(s, id, idle);
    var k, n := s.mapInfo[id].nRandomPos, |s.vRandom| - 1;
    SwapRandomKeeps(s, k, n, idle, uncounted);
    var r := SwapRandom(s, k, n);
    DeleteLastKeeps(r, id, idle, uncounted);
    assert Delete(s, id) == Delete(r, id);
  }

  // ----- References from the new table -----

  /** Whether a cell of the new table is the slot of an address in its bucket. */
  predicate IsSlot(k: Key, a: Service, b: nat, p: nat) { p == NewPos(k, b, a) }

  /** How one cell counts towards the references of an id. */
  lemma BucketsAfter(k: Key, t: Table, b: nat, p: nat, v: int, a: Service, id: int)
    requires Shape(t, ADDRMAN_NEW_BUCKET_COUNT) && b < ADDRMAN_NEW_BUCKET_COUNT && p < ADDRMAN_BUCKET_SIZE
    ensures |NewBuckets(k, SetCell(t, b, p, v), a, id)|
         == |NewBuckets(k, t, a, id)| - (if IsSlot(k, a, b, p) && Cell(t, b, p) == id then 1 else 0)
                                      + (if IsSlot(k, a, b, p) && v == id then 1 else 0)
  {
    var r := SetCell(t, b, p, v);
    var was, now := NewBuckets(k, t, a, id), NewBuckets(k, r, a, id);
    forall c: nat ensures c in now <==> if c == b && IsSlot(k, a, b, p) then v == id else c in was {
      CellAfter(t, b, p, v, c, NewPos(k, c, a));
    }
    if !IsSlot(k, a, b, p) {
      assert now == was;
    } else {
      assert b in was <==> Cell(t, b, p) == id;
      WithAndWithout(was, b);
      assert now == if v == id then was + {b} else was - {b};
    }
  }

  lemma WithAndWithout(s: set<nat>, x: nat)
    ensures |s + {x}| == |s| + if x in s then 0 else 1
    ensures |s - {x}| == |s| - if x in s then 1 else 0
  {
    if x in s { assert s + {x} == s; }
  }

  lemma CellAfter(t: Table, b: nat, p: nat, v: int, c: int, q: int)
    requires b < |t| && p < |t[b]|
    ensures Cell(SetCell(t, b, p, v), c, q) == if c == b && q == p then v else Cell(t, c, q)
  {
  }

  /** Give up one reference. */
  function DropNew(s: State, b: nat, p: nat): State
    requires b < |s.vvNew| && p < |s.vvNew[b]| && Cell(s.vvNew, b, p) in s.mapInfo
  {
    var id := Cell(s.vvNew, b, p);
    s.(mapInfo := s.mapInfo[id := s.mapInfo[id].(nRefCount := s.mapInfo[id].nRefCount - 1)],
       vvNew := SetCell(s.vvNew, b, p, -1))
  }

  lemma DropNewKeeps(s: State, b: nat, p: nat, idle: set<int>, uncounted: nat)
    requires Partial(s, idle, uncounted) && b < ADDRMAN_NEW_BUCKET_COUNT && p < ADDRMAN_BUCKET_SIZE
             && Cell(s.vvNew, b, p) != -1
    ensures Cell(s.vvNew, b, p) in s.mapInfo && s.mapInfo[Cell(s.vvNew, b, p)].nRefCount > 0
    ensures !s.mapInfo[Cell(s.vvNew, b, p)].fInTried
    ensures Partial(DropNew(s, b, p), idle + {Cell(s.vvNew, b, p)}, uncounted)
  {
    var id := Cell(s.vvNew, b, p);
    assert NewCellOk(s, b, p) && EntryOk(s, id, idle);
    assert b in NewBuckets(s.nKey, s.vvNew, s.mapInfo[id].service, id);
    var r := DropNew(s, b, p);
    assert Indexed(r) by {
      forall x ensures AddrOk(r, x) { assert AddrOk(s, x); }
      forall k ensures RandomOk(r, k) { assert RandomOk(s, k); }
    }
    assert Celled(r) by {
      forall b', p' ensures NewCellOk(r, b', p') { assert NewCellOk(s, b', p'); }
      forall b', p' ensures TriedCellOk(r, b', p') { assert TriedCellOk(s, b', p'); }
    }
    forall j ensures EntryOk(r, j, idle + {id}) {
      assert EntryOk(s, j, idle);
      if j in s.mapInfo { BucketsAfter(s.nKey, s.vvNew, b, p, -1, s.mapInfo[j].service, j); }
    }
    IdsUpdate(s.mapInfo, id, r.mapInfo[id], true);
    IdsUpdate(s.mapInfo, id, r.mapInfo[id], false);
  }

  /** Take one more reference. */
  function PutNew(s: State, b: nat, p: nat, id: int): State
    requires b < |s.vvNew| && p < |s.vvNew[b]| && id in s.mapInfo
  {
    s.(mapInfo := s.mapInfo[id := s.mapInfo[id].(nRefCount := s.mapInfo[id].nRefCount + 1)],
       vvNew := SetCell(s.vvNew, b, p, id))
  }

  lemma PutNewKeeps(s: State, b: nat, id: int, idle: set<int>, uncounted: nat)
    requires Partial(s, idle, uncounted) && b < ADDRMAN_NEW_BUCKET_COUNT && id in s.mapInfo
    requires !s.mapInfo[id].fInTried && s.mapInfo[id].nRefCount < ADDRMAN_NEW_BUCKETS_PER_ADDRESS
    requires Cell(s.vvNew, b, NewPos(s.nKey, b, s.mapInfo[id].service)) == -1
    ensures Partial(PutNew(s, b, NewPos(s.nKey, b, s.mapInfo[id].service), id), idle - {id}, uncounted)
  {
    var p := NewPos(s.nKey, b, s.mapInfo[id].service);
    var r := PutNew(s, b, p, id);
    assert EntryOk(s, id, idle);
    assert Indexed(r) by {
      forall x ensures AddrOk(r, x) { assert AddrOk(s, x); }
      forall k ensures RandomOk(r, k) { assert RandomOk(s, k); }
    }
    assert Celled(r) by {
      forall b', p' ensures NewCellOk(r, b', p') { assert NewCellOk(s, b', p'); }
      forall b', p' ensures TriedCellOk(r, b', p') { assert TriedCellOk(s, b', p'); }
    }
    forall j ensures EntryOk(r, j, idle - {id}) {
      assert EntryOk(s, j, idle);
      if j in s.mapInfo { BucketsAfter(s.nKey, s.vvNew, b, p, id, s.mapInfo[j].service, j); }
    }
    IdsUpdate(s.mapInfo, id, r.mapInfo[id], true);
    IdsUpdate(s.mapInfo, id, r.mapInfo[id], false);
  }

  /** An id with a reference need not be called idle. */
  lemma NotIdle(s: State, id: int, idle: set<int>, uncounted: nat)
    requires Partial(s, idle, uncounted) && id in s.mapInfo && s.mapInfo[id].nRefCount > 0
    ensures Partial(s, idle - {id}, uncounted)
  {
    forall j ensures EntryOk(s, j, idle - {id}) { assert EntryOk(s, j, idle); }
  }

  /** A new id may be called idle. */
  lemma Idle(s: State, id: int, idle: set<int>, uncounted: nat)
    requires Partial(s, idle, uncounted) && id in s.mapInfo && !s.mapInfo[id].fInTried
    ensures Partial(s, idle + {id}, uncounted)
  {
    forall j ensures EntryOk(s, j, idle + {id}) { assert EntryOk(s, j, idle); }
  }

  /** Counting is separate from structure. */
  lemma Recount(s: State, nNew: int, idle: set<int>, uncounted: nat, uncounted': nat)
    requires Partial(s, idle, uncounted) && nNew + uncounted' == s.nNew + uncounted
    ensures Partial(s.(nNew := nNew), idle, uncounted')
  {
    var r := s.(nNew := nNew);
    forall a ensures AddrOk(r, a) { assert AddrOk(s, a); }
    forall k ensures RandomOk(r, k) { assert RandomOk(s, k); }
    forall b, p ensures NewCellOk(r, b, p) { assert NewCellOk(s, b, p); }
    forall b, p ensures TriedCellOk(r, b, p) { assert TriedCellOk(s, b, p); }
    forall j ensures EntryOk(r, j, idle) { assert EntryOk(s, j, idle); }
  }

  // ----- The tried table -----

  /** The occupant of a tried slot leaves it. */
  function LeaveTried(s: State, b: nat, p: nat): State
    requires b < |s.vvTried| && p < |s.vvTried[b]| && Cell(s.vvTried, b, p) in s.mapInfo
  {
    var id := Cell(s.vvTried, b, p);
    s.(mapInfo := s.mapInfo[id := s.mapInfo[id].(fInTried := false)], vvTried := SetCell(s.vvTried, b, p, -1),
       nTried := s.nTried - 1)
  }

  lemma LeaveTriedKeeps(s: State, b: nat, p: nat, idle: set<int>, uncounted: nat)
    requires Partial(s, idle, uncounted) && b < ADDRMAN_TRIED_BUCKET_COUNT && p < ADDRMAN_BUCKET_SIZE
             && Cell(s.vvTried, b, p) != -1
    ensures Cell(s.vvTried, b, p) in s.mapInfo && Cell(s.vvTried, b, p) !in idle
    ensures s.mapInfo[Cell(s.vvTried, b, p)].nRefCount == 0
    ensures Partial(LeaveTried(s, b, p), idle + {Cell(s.vvTried, b, p)}, uncounted + 1)
  {
    var id := Cell(s.vvTried, b, p);
    assert TriedCellOk(s, b, p) && EntryOk(s, id, idle);
    var r := LeaveTried(s, b, p);
    assert Indexed(r) by {
      forall x ensures AddrOk(r, x) { assert AddrOk(s, x); }
      forall k ensures RandomOk(r, k) { assert RandomOk(s, k); }
    }
    assert Celled(r) by {
      forall b', p' ensures NewCellOk(r, b', p') { assert NewCellOk(s, b', p'); }
      forall b', p' ensures TriedCellOk(r, b', p') { assert TriedCellOk(s, b', p'); }
    }
    forall j ensures EntryOk(r, j, idle + {id}) { assert EntryOk(s, j, idle); }
    IdsUpdate(s.mapInfo, id, r.mapInfo[id], true);
    IdsUpdate(s.mapInfo, id, r.mapInfo[id], false);
  }

  /** An id moves into the tried slot of its address. */
  function EnterTried(s: State, id: int): State
    requires Shapes(s) && id in s.mapInfo
  {
    var a := s.mapInfo[id].service;
    s.(mapInfo := s.mapInfo[id := s.mapInfo[id].(fInTried := true)],
       vvTried := SetCell(s.vvTried, GetTriedBucket(s.nKey, a), TriedPos(s.nKey, a), id), nTried := s.nTried + 1)
  }

  lemma EnterTriedKeeps(s: State, id: int, idle: set<int>, uncounted: nat)
    requires Partial(s, idle, uncounted) && uncounted > 0 && id in idle && id in s.mapInfo
    requires s.mapInfo[id].nRefCount == 0 && s.mapInfo[id].nLastSuccess > 0
    requires TriedOccupant(s.nKey, s.vvTried, s.mapInfo[id].service) == -1
    ensures Partial(EnterTried(s, id), idle - {id}, uncounted - 1)
  {
    assert EntryOk(s, id, idle);
    var r := EnterTried(s, id);
    assert Indexed(r) by {
      forall x ensures AddrOk(r, x) { assert AddrOk(s, x); }
      forall k ensures RandomOk(r, k) { assert RandomOk(s, k); }
    }
    assert Celled(r) by {
      forall b, p ensures NewCellOk(r, b, p) {
        assert NewCellOk(s, b, p);
        UnreferencedInNoCell(s, id, idle, b, p);
      }
      forall b, p ensures TriedCellOk(r, b, p) { assert TriedCellOk(s, b, p); }
    }
    forall j ensures EntryOk(r, j, idle - {id}) { assert EntryOk(s, j, idle); }
    IdsUpdate(s.mapInfo, id, r.mapInfo[id], true);
    IdsUpdate(s.mapInfo, id, r.mapInfo[id], false);
  }

  // ----- What others see of a step -----

  /** Same entry, up to its place in the random order. */
  predicate Unmoved(i: Info, j: Info) { j == i.(nRandomPos := j.nRandomPos) }

  /** One id is gone; the others keep their entries. */
  ghost predicate OnlyGone(s: State, r: State, gone: set<int>) {
    && r.mapInfo.Keys == s.mapInfo.Keys - gone
    && forall j | j in r.mapInfo :: Unmoved(s.mapInfo[j], r.mapInfo[j])
  }

  lemma DeleteEffect(s: State, id: int)
    requires id in s.mapInfo && 0 <= s.mapInfo[id].nRandomPos < |s.vRandom|
    requires s.vRandom[s.mapInfo[id].nRandomPos] in s.mapInfo && s.vRandom[|s.vRandom| - 1] in s.mapInfo
    ensures OnlyGone(s, Delete(s, id), {id})
  {
  }
}
