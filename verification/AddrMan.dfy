/**
 `CAddrMan` (`src/addrman.cpp`, `src/addrman.h`): every operation keeps the tables consistent, no assertion of
 the code fails, and a pending collision always has an occupant of the tried slot it waits for.
 */
module AddrMan {
  import opened Basics
  import opened AddrTables

  // ----- What operations preserve from one moment to the next -----

  ghost predicate SlotKept(s: State, r: State, b: int, p: int) {
    Cell(s.vvTried, b, p) != -1 ==> Cell(r.vvTried, b, p) != -1
  }

  ghost predicate IdKept(s: State, r: State, id: int) {
    id in r.mapInfo && id < s.nIdCount ==>
      id in s.mapInfo && r.mapInfo[id].service == s.mapInfo[id].service && r.mapInfo[id].source == s.mapInfo[id].source
  }

  /** Ids are never reused, an id keeps its address, and an occupied tried slot stays occupied. */
  ghost predicate Onward(s: State, r: State) {
    && r.nKey == s.nKey && s.nIdCount <= r.nIdCount
    && (forall b, p :: SlotKept(s, r, b, p))
    && (forall id :: IdKept(s, r, id))
  }

  lemma OnwardAgain(s: State, t: State, r: State)
    requires Onward(s, t) && Onward(t, r)
    ensures Onward(s, r)
  {
    forall b, p ensures SlotKept(s, r, b, p) { assert SlotKept(s, t, b, p) && SlotKept(t, r, b, p); }
    forall id ensures IdKept(s, r, id) { assert IdKept(s, t, id) && IdKept(t, r, id); }
  }

  /** Keeping the tried table and the addresses of the ids. */
  lemma OnwardSame(s: State, r: State)
    requires r.nKey == s.nKey && s.nIdCount <= r.nIdCount && r.vvTried == s.vvTried
    requires forall id | id in r.mapInfo && id < s.nIdCount ::
               id in s.mapInfo && r.mapInfo[id].service == s.mapInfo[id].service
                 && r.mapInfo[id].source == s.mapInfo[id].source
    ensures Onward(s, r)
  {
  }

  ghost predicate PendingOk(s: State, id: int) {
    0 <= id < s.nIdCount && (id in s.mapInfo ==> TriedOccupant(s.nKey, s.vvTried, s.mapInfo[id].service) != -1)
  }

  /** Pending collisions: few, and each has an occupant in the slot it wants. */
  ghost predicate CollisionsOk(s: State, pending: set<int>) {
    |pending| <= ADDRMAN_SET_TRIED_COLLISION_SIZE && forall id | id in pending :: PendingOk(s, id)
  }

  lemma ReorderedOnward(s: State, r: State)
    requires OnlyGone(s, r, {}) && r.nKey == s.nKey && r.nIdCount == s.nIdCount && r.vvTried == s.vvTried
    ensures Onward(s, r)
  {
  }

  lemma CollisionsKept(s: State, r: State, pending: set<int>)
    requires CollisionsOk(s, pending) && Onward(s, r)
    ensures CollisionsOk(r, pending)
  {
    forall id | id in pending ensures PendingOk(r, id) {
      assert PendingOk(s, id) && IdKept(s, r, id);
      if id in r.mapInfo {
        var a := r.mapInfo[id].service;
        assert SlotKept(s, r, GetTriedBucket(s.nKey, a), TriedPos(s.nKey, a));
      }
    }
  }

  /**
   What clearing a new slot does to the entries: its occupant, if any, loses a reference, the last one with
   its entry.
   */
  ghost predicate ClearedFor(s: State, r: State, occupant: int) {
    && r.mapInfo.Keys == s.mapInfo.Keys - LastReference(s, occupant)
    && forall j | j in r.mapInfo :: ClearedEntry(s.mapInfo[j], r.mapInfo[j], j == occupant)
  }

  ghost function LastReference(s: State, occupant: int): set<int> {
    if occupant in s.mapInfo && s.mapInfo[occupant].nRefCount == 1 then {occupant} else {}
  }

  ghost predicate ClearedEntry(i: Info, j: Info, cleared: bool) {
    Unmoved(if cleared then i.(nRefCount := i.nRefCount - 1) else i, j)
  }

  /** Same entry, up to what the tables say about it. */
  ghost predicate SameData(i: Info, j: Info) {
    j == i.(nRandomPos := j.nRandomPos, nRefCount := j.nRefCount, fInTried := j.fInTried)
  }

  /**
   Every entry that is still there keeps its data, at most one entry (a new one) is gone, and `tried` is the
   tried set.
   */
  ghost predicate Rearranged(s: State, r: State, lost: set<int>, tried: set<int>) {
    && r.mapInfo.Keys == s.mapInfo.Keys - lost && lost <= Ids(s.mapInfo, false) && |lost| <= 1
    && forall id | id in r.mapInfo ::
       SameData(s.mapInfo[id], r.mapInfo[id]) && (r.mapInfo[id].fInTried <==> id in tried)
  }

  lemma ClearedIsRearranged(s: State, r: State, occupant: int)
    requires ClearedFor(s, r, occupant) && (occupant in s.mapInfo ==> !s.mapInfo[occupant].fInTried)
    ensures Rearranged(s, r, LastReference(s, occupant), Ids(s.mapInfo, true))
  {
  }

  lemma SetCellTwice(t: Table, b: nat, p: nat, v: int, w: int)
    requires b < |t| && p < |t[b]|
    ensures SetCell(SetCell(t, b, p, v), b, p, w) == SetCell(t, b, p, w)
  {
    assert t[b][p := v][p := w] == t[b][p := w];
  }

  /** The three parts of `MakeTried` together. */
  lemma MovedIsRearranged(s: State, t: State, u: State, r: State, id: int, lost: set<int>, occupant: int)
    requires id in s.mapInfo && !s.mapInfo[id].fInTried
    requires t.mapInfo == s.mapInfo[id := s.mapInfo[id].(nRefCount := 0)]
    requires Rearranged(t, u, lost, Ids(t.mapInfo, true) - {occupant})
    requires id in u.mapInfo && r.mapInfo == u.mapInfo[id := u.mapInfo[id].(fInTried := true)]
    ensures Rearranged(s, r, lost, Ids(s.mapInfo, true) - {occupant} + {id})
  {
    assert Ids(t.mapInfo, true) == Ids(s.mapInfo, true);
    assert Ids(t.mapInfo, false) == Ids(s.mapInfo, false);
  }

  lemma RearrangedOnward(s: State, r: State, lost: set<int>, tried: set<int>, b: nat, p: nat, id: int)
    requires Rearranged(s, r, lost, tried) && r.nKey == s.nKey && r.nIdCount == s.nIdCount
    requires b < |s.vvTried| && p < |s.vvTried[b]| && id != -1 && r.vvTried == SetCell(s.vvTried, b, p, id)
    ensures Onward(s, r)
  {
  }

  // ----- Clocks and quality -----

  const ADDRMAN_HORIZON_DAYS := 30
  const ADDRMAN_RETRIES := 3
  const ADDRMAN_MAX_FAILURES := 10
  const ADDRMAN_MIN_FAIL_DAYS := 7
  const ADDRMAN_REPLACEMENT_HOURS := 4
  const ADDRMAN_TEST_WINDOW := 40 * 60

  /** `IsTerrible`. */
  predicate IsTerrible(i: Info, nNow: int) {
    if i.nLastTry != 0 && i.nLastTry >= nNow - 60 then false
    else if i.nTime > nNow + 10 * 60 then true
    else if i.nTime == 0 || nNow - i.nTime > ADDRMAN_HORIZON_DAYS * 24 * 60 * 60 then true
    else if i.nLastSuccess == 0 && i.nAttempts >= ADDRMAN_RETRIES then true
    else nNow - i.nLastSuccess > ADDRMAN_MIN_FAIL_DAYS * 24 * 60 * 60 && i.nAttempts >= ADDRMAN_MAX_FAILURES
  }

  /** Some member of a set of ids. */
  method Pick(s: set<int>) returns (id: int)
    requires s != {}
    ensures id in s
  {
    assert (forall i :: i !in s) ==> s == {};
    id :| id in s;
  }

  /** `CAddress`. */
  datatype Address = Address(service: Service, nTime: int, nServices: set<nat>)

  function Max(a: int, b: int): int { if a < b then b else a }

  /** The refreshed entry of `Add_`: a newer time stamp, if it is newer by enough, and all services. */
  function Refreshed(i: Info, addr: Address, nTimePenalty: int, nNow: int): Info {
    var nUpdateInterval := if nNow - addr.nTime < 24 * 60 * 60 then 60 * 60 else 24 * 60 * 60;
    var stale := addr.nTime != 0 && (i.nTime == 0 || i.nTime < addr.nTime - nUpdateInterval - nTimePenalty);
    i.(nTime := if stale then Max(0, addr.nTime - nTimePenalty) else i.nTime, nServices := i.nServices + addr.nServices)
  }

  /**
   What adding to the new table leaves of the entries that were there: all but at most one new entry, in the
   same tables.
   */
  ghost predicate OthersKept(s: State, r: State, lost: set<int>) {
    && s.mapInfo.Keys - lost <= r.mapInfo.Keys && lost <= Ids(s.mapInfo, false) && |lost| <= 1
    && forall id | id in s.mapInfo && id !in lost :: r.mapInfo[id].fInTried == s.mapInfo[id].fInTried
  }

  /** From before an addition (`s`), over the moment when the entry exists (`t`), to its end (`r`). */
  lemma ReferencedKept(s: State, t: State, r: State, id: int, gone: set<int>)
    requires t.nKey == s.nKey == r.nKey && s.nIdCount <= t.nIdCount == r.nIdCount && s.vvTried == t.vvTried == r.vvTried
    requires id in t.mapInfo && !t.mapInfo[id].fInTried && t.mapInfo.Keys == s.mapInfo.Keys + {id}
             && (id in s.mapInfo || id >= s.nIdCount)
    requires forall j | j in s.mapInfo ::
               t.mapInfo[j].service == s.mapInfo[j].service && t.mapInfo[j].source == s.mapInfo[j].source
                 && t.mapInfo[j].fInTried == s.mapInfo[j].fInTried
    requires Rearranged(t, r, gone, Ids(t.mapInfo, true))
    ensures OthersKept(s, r, if id in s.mapInfo then gone else gone - {id})
    ensures Onward(s, r)
  {
    OnwardSame(s, r);
    assert |gone - {id}| <= |gone|;
    assert gone <= Ids(t.mapInfo, false) && Ids(t.mapInfo, false) <= Ids(s.mapInfo, false) + {id};
  }

  lemma EmptyConsistent(s: State)
    requires s.mapInfo == map[] && s.mapAddr == map[] && s.vRandom == [] && s.nTried == 0 && s.nNew == 0
    requires s.vvTried == EmptyTable(ADDRMAN_TRIED_BUCKET_COUNT) && s.vvNew == EmptyTable(ADDRMAN_NEW_BUCKET_COUNT)
    ensures Consistent(s)
  {
    assert Ids(s.mapInfo, true) == {} && Ids(s.mapInfo, false) == {};
  }

  /** What `GetAddr_` hands out of an entry. */
  function AddressOf(i: Info): Address { Address(i.service, i.nTime, i.nServices) }

  /** `vAddr` holds the addresses of `ids`, different entries of `m` that are not terrible. */
  ghost predicate Gathered(m: map<int, Info>, vAddr: seq<Address>, ids: seq<int>, nNow: int) {
    && |ids| == |vAddr|
    && (forall k | 0 <= k < |ids| :: ids[k] in m && vAddr[k] == AddressOf(m[ids[k]]) && !IsTerrible(m[ids[k]], nNow))
    && (forall j, k | 0 <= j < k < |ids| :: ids[j] != ids[k])
  }

  /** Of the ids drawn so far, those whose entries are not terrible have been gathered. */
  ghost predicate Drawn(m: map<int, Info>, drawn: seq<int>, ids: seq<int>, nNow: int) {
    && (forall k | 0 <= k < |ids| :: ids[k] in drawn)
    && (forall id | id in drawn :: id in m && (IsTerrible(m[id], nNow) || id in ids))
  }

  lemma GatherStep(m: map<int, Info>, r: map<int, Info>, drawn: seq<int>, x: int, vAddr: seq<Address>, ids: seq<int>,
                   nNow: int)
    requires Gathered(m, vAddr, ids, nNow) && Drawn(m, drawn, ids, nNow)
    requires r.Keys == m.Keys && forall id | id in r :: Unmoved(m[id], r[id])
    requires x in r && x !in drawn
    ensures IsTerrible(r[x], nNow) ==> Gathered(r, vAddr, ids, nNow) && Drawn(r, drawn + [x], ids, nNow)
    ensures !IsTerrible(r[x], nNow) ==>
              Gathered(r, vAddr + [AddressOf(r[x])], ids + [x], nNow) && Drawn(r, drawn + [x], ids + [x], nNow)
  {
    forall id | id in r
      ensures AddressOf(r[id]) == AddressOf(m[id]) && IsTerrible(r[id], nNow) == IsTerrible(m[id], nNow)
    {
      assert Unmoved(m[id], r[id]);
    }
  }

  /** Different ids have different addresses. */
  lemma GatheredOnce(s: State, vAddr: seq<Address>, ids: seq<int>, nNow: int, j: nat, k: nat)
    requires Consistent(s) && Gathered(s.mapInfo, vAddr, ids, nNow) && j < k < |vAddr|
    ensures vAddr[j].service.ip != vAddr[k].service.ip
  {
    assert EntryOk(s, ids[j], {}) && EntryOk(s, ids[k], {});
  }

  // ----- The manager -----

  class AddrMan {
    var nKey: Key
    var nIdCount: nat
    var mapInfo: map<int, Info>
    var mapAddr: map<NetAddr, int>
    var vRandom: seq<int>
    var nTried: int
    var vvTried: Table
    var nNew: int
    var vvNew: Table
    var nLastGood: int
    var m_tried_collisions: set<int>

    ghost function Value(): State
      reads this
    {
      State(nKey, nIdCount, mapInfo, mapAddr, vRandom, nTried, vvTried, nNew, vvNew)
    }

    ghost predicate Valid()
      reads this
    {
      Consistent(Value()) && CollisionsOk(Value(), m_tried_collisions)
    }

    /** An empty manager. */
    constructor (key: Key)
      ensures Valid() && mapInfo == map[] && m_tried_collisions == {} && nKey == key && nIdCount == 0
    {
      nKey, nIdCount, mapInfo, mapAddr, vRandom := key, 0, map[], map[], [];
      nTried, nNew, nLastGood := 0, 0, 1;
      vvTried, vvNew := EmptyTable(ADDRMAN_TRIED_BUCKET_COUNT), EmptyTable(ADDRMAN_NEW_BUCKET_COUNT);
      m_tried_collisions := {};
      new;
      EmptyConsistent(Value());
    }

    /** `Clear`, under a new key.  Pending collisions are not forgotten, so they are only right if there are none. */
    method Clear(key: Key)
      modifies this
      ensures Consistent(Value()) && mapInfo == map[] && m_tried_collisions == old(m_tried_collisions)
      ensures |m_tried_collisions| <= ADDRMAN_SET_TRIED_COLLISION_SIZE ==> (Valid() <==> m_tried_collisions == {})
    {
      vRandom := [];
      nKey := key;
      vvNew := EmptyTable(ADDRMAN_NEW_BUCKET_COUNT);
      vvTried := EmptyTable(ADDRMAN_TRIED_BUCKET_COUNT);
      nIdCount, nTried, nNew := 0, 0, 0;
      nLastGood := 1;
      mapInfo, mapAddr := map[], map[];
      EmptyConsistent(Value());
      assert (forall i :: i !in m_tried_collisions) ==> m_tried_collisions == {};
      assert forall i :: !PendingOk(Value(), i);
    }

    /** `Find`. */
    method Find(addr: NetAddr) returns (found: bool, nId: int)
      ensures found <==> addr in mapAddr && mapAddr[addr] in mapInfo
      ensures found ==> nId == mapAddr[addr]
    {
      if addr !in mapAddr { return false, -1; }
      nId := mapAddr[addr];
      found := nId in mapInfo;
    }

    /** `Create`. */
    method Create(addr: Service, source: NetAddr, nTime: int, nServices: set<nat>) returns (nId: int)
      modifies `nIdCount, `mapInfo, `mapAddr, `vRandom
      ensures Value() == AddrTables.Create(old(Value()), addr, source, nTime, nServices) && nId == old(nIdCount)
    {
      nId := nIdCount;
      nIdCount := nIdCount + 1;
      mapInfo := mapInfo[nId := Info(addr, source, nTime, nServices, 0, 0, 0, 0, 0, false, -1)];
      mapAddr := mapAddr[addr.ip := nId];
      mapInfo := mapInfo[nId := mapInfo[nId].(nRandomPos := |vRandom|)];
      vRandom := vRandom + [nId];
      assert mapInfo == old(mapInfo)[nId := Info(addr, source, nTime, nServices, 0, 0, 0, 0, 0, false, old(|vRandom|))];
    }

    /** `SwapRandom`. */
    method SwapRandom(i: nat, j: nat, ghost idle: set<int>, ghost uncounted: nat)
      requires Partial(Value(), idle, uncounted) && i < |vRandom| && j < |vRandom|
      modifies `mapInfo, `vRandom
      ensures old(vRandom[i] in mapInfo && vRandom[j] in mapInfo)
      ensures Value() == AddrTables.SwapRandom(old(Value()), i, j)
      ensures Partial(Value(), idle, uncounted)
    {
      SwapRandomKeeps(Value(), i, j, idle, uncounted);
      if i == j { return; }
      var nId1, nId2 := vRandom[i], vRandom[j];
      assert nId1 in mapInfo && nId2 in mapInfo;
      mapInfo := mapInfo[nId1 := mapInfo[nId1].(nRandomPos := j)];
      mapInfo := mapInfo[nId2 := mapInfo[nId2].(nRandomPos := i)];
      vRandom := vRandom[i := nId2];
      vRandom := vRandom[j := nId1];
    }

    /** `Delete`. */
    method Delete(nId: int, ghost idle: set<int>, ghost uncounted: nat)
      requires Partial(Value(), idle, uncounted)
      requires nId in mapInfo && !mapInfo[nId].fInTried && mapInfo[nId].nRefCount == 0
      modifies `mapInfo, `vRandom, `mapAddr, `nNew
      ensures old(0 <= mapInfo[nId].nRandomPos < |vRandom|)
      ensures old(vRandom[mapInfo[nId].nRandomPos] == nId && vRandom[|vRandom| - 1] in mapInfo)
      ensures Value() == AddrTables.Delete(old(Value()), nId)
      ensures Partial(Value(), idle - {nId}, uncounted)
    {
      DeleteKeeps(Value(), nId, idle, uncounted);
      var addr := mapInfo[nId].service.ip;
      SwapRandom(mapInfo[nId].nRandomPos, |vRandom| - 1, idle, uncounted);
      vRandom := vRandom[..|vRandom| - 1];
      mapAddr := mapAddr - {addr};
      mapInfo := mapInfo - {nId};
      nNew := nNew - 1;
    }

    /** `ClearNew`: the occupant of a new slot loses that reference, and is deleted with the last one. */
    method ClearNew(b: nat, p: nat, ghost idle: set<int>, ghost uncounted: nat)
      requires Partial(Value(), idle, uncounted)
      requires b < ADDRMAN_NEW_BUCKET_COUNT && p < ADDRMAN_BUCKET_SIZE && Cell(vvNew, b, p) !in idle
      modifies `mapInfo, `vRandom, `mapAddr, `nNew, `vvNew
      ensures Partial(Value(), idle, uncounted)
      ensures vvNew == SetCell(old(vvNew), b, p, -1)
      ensures ClearedFor(old(Value()), Value(), old(Cell(vvNew, b, p)))
    {
      if vvNew[b][p] != -1 {
        var nIdDelete := vvNew[b][p];
        ghost var s := Value();
        DropNewKeeps(s, b, p, idle, uncounted);
        assert mapInfo[nIdDelete].nRefCount > 0;
        mapInfo := mapInfo[nIdDelete := mapInfo[nIdDelete].(nRefCount := mapInfo[nIdDelete].nRefCount - 1)];
        vvNew := SetCell(vvNew, b, p, -1);
        ghost var t := Value();
        assert t == DropNew(s, b, p);
        assert idle + {nIdDelete} - {nIdDelete} == idle;
        if mapInfo[nIdDelete].nRefCount == 0 {
          Delete(nIdDelete, idle + {nIdDelete}, uncounted);
          DeleteEffect(t, nIdDelete);
        } else {
          NotIdle(t, nIdDelete, idle + {nIdDelete}, uncounted);
        }
      } else {
        assert EntryOk(Value(), -1, idle);
        assert vvNew[b] == vvNew[b][p := -1];
        assert vvNew == SetCell(vvNew, b, p, -1);
      }
    }

    /** The first part of `MakeTried`: the entry leaves all its new buckets. */
    method LeaveNew(nId: int)
      requires Consistent(Value()) && nId in mapInfo && !mapInfo[nId].fInTried
      modifies `mapInfo, `vvNew
      ensures Partial(Value(), {nId}, 0)
      ensures mapInfo == old(mapInfo)[nId := old(mapInfo)[nId].(nRefCount := 0)]
    {
      Idle(Value(), nId, {}, 0);
      assert {} + {nId} == {nId};
      var info := mapInfo[nId].service;
      var bucket := 0;
      while bucket < ADDRMAN_NEW_BUCKET_COUNT
        invariant 0 <= bucket <= ADDRMAN_NEW_BUCKET_COUNT
        invariant Partial(Value(), {nId}, 0) && nId in mapInfo
        invariant mapInfo == old(mapInfo)[nId := old(mapInfo)[nId].(nRefCount := mapInfo[nId].nRefCount)]
        invariant forall c | 0 <= c < bucket :: Cell(vvNew, c, NewPos(nKey, c, info)) != nId
      {
        var pos := GetBucketPosition(nKey, true, bucket, info);
        if vvNew[bucket][pos] == nId {
          ghost var s := Value();
          assert EntryOk(s, -1, {nId});
          DropNewKeeps(s, bucket, pos, {nId}, 0);
          vvNew := SetCell(vvNew, bucket, pos, -1);
          mapInfo := mapInfo[nId := mapInfo[nId].(nRefCount := mapInfo[nId].nRefCount - 1)];
          assert Value() == DropNew(s, bucket, pos);
          assert {nId} + {nId} == {nId};
        }
        bucket := bucket + 1;
      }
      assert NewBuckets(nKey, vvNew, info, nId) == {};
      assert EntryOk(Value(), nId, {nId});
    }

    /** The occupant of a tried slot leaves it. */
    method TakeFromTried(b: nat, p: nat, nId: int) returns (nIdEvict: int)
      requires Partial(Value(), {nId}, 1)
      requires b < ADDRMAN_TRIED_BUCKET_COUNT && p < ADDRMAN_BUCKET_SIZE && Cell(vvTried, b, p) != -1
      modifies `mapInfo, `vvTried, `nTried
      ensures nIdEvict == old(Cell(vvTried, b, p)) && nIdEvict in old(mapInfo) && nIdEvict != nId
      ensures Partial(Value(), {nId} + {nIdEvict}, 2)
      ensures vvTried == SetCell(old(vvTried), b, p, -1)
      ensures mapInfo == old(mapInfo)[nIdEvict := old(mapInfo)[nIdEvict].(fInTried := false)]
              && mapInfo[nIdEvict].nRefCount == 0
    {
      nIdEvict := vvTried[b][p];
      LeaveTriedKeeps(Value(), b, p, {nId}, 1);
      assert nIdEvict in mapInfo;
      mapInfo := mapInfo[nIdEvict := mapInfo[nIdEvict].(fInTried := false)];
      vvTried := SetCell(vvTried, b, p, -1);
      nTried := nTried - 1;
      assert Value() == LeaveTried(old(Value()), b, p);
    }

    /** Both ids without references are in no new slot, so clearing one does not touch them. */
    method ClearFor(nIdEvict: int, nId: int) returns (nUBucket: nat, nUBucketPos: nat, ghost lost: set<int>)
      requires Partial(Value(), {nId} + {nIdEvict}, 2) && nId in mapInfo && nIdEvict in mapInfo
      requires mapInfo[nId].nRefCount == 0 && mapInfo[nIdEvict].nRefCount == 0
      modifies `mapInfo, `vRandom, `mapAddr, `nNew, `vvNew
      ensures Partial(Value(), {nId} + {nIdEvict}, 2) && nId in mapInfo && nIdEvict in mapInfo
      ensures mapInfo[nId].nRefCount == 0 && mapInfo[nIdEvict].nRefCount == 0
      ensures nUBucket == GetNewBucket(nKey, mapInfo[nIdEvict].service, mapInfo[nIdEvict].source)
      ensures nUBucketPos == NewPos(nKey, nUBucket, mapInfo[nIdEvict].service)
              && Cell(vvNew, nUBucket, nUBucketPos) == -1
      ensures Rearranged(old(Value()), Value(), lost, Ids(old(mapInfo), true))
    {
      ghost var idle, s := {nId} + {nIdEvict}, Value();
      var infoOld := mapInfo[nIdEvict];
      nUBucket := GetNewBucket(nKey, infoOld.service, infoOld.source);
      nUBucketPos := GetBucketPosition(nKey, true, nUBucket, infoOld.service);
      UnreferencedInNoCell(s, nId, idle, nUBucket, nUBucketPos);
      UnreferencedInNoCell(s, nIdEvict, idle, nUBucket, nUBucketPos);
      ghost var occupant := Cell(vvNew, nUBucket, nUBucketPos);
      assert NewCellOk(s, nUBucket, nUBucketPos) && EntryOk(s, -1, idle);
      lost := LastReference(s, occupant);
      ClearNew(nUBucket, nUBucketPos, idle, 2);
      ClearedIsRearranged(s, Value(), occupant);
    }

    /** An evicted id takes its one reference. */
    method ReenterNew(nIdEvict: int, nUBucket: nat, nId: int)
      requires Partial(Value(), {nId} + {nIdEvict}, 2) && nIdEvict in mapInfo && nIdEvict != nId
      requires mapInfo[nIdEvict].nRefCount == 0 && !mapInfo[nIdEvict].fInTried && nUBucket < ADDRMAN_NEW_BUCKET_COUNT
      requires Cell(vvNew, nUBucket, NewPos(nKey, nUBucket, mapInfo[nIdEvict].service)) == -1
      modifies `mapInfo, `vvNew, `nNew
      ensures Partial(Value(), {nId}, 1)
      ensures mapInfo == old(mapInfo)[nIdEvict := old(mapInfo)[nIdEvict].(nRefCount := 1)]
      ensures vvNew == SetCell(old(vvNew), nUBucket, NewPos(nKey, nUBucket, old(mapInfo)[nIdEvict].service), nIdEvict)
    {
      var pos := GetBucketPosition(nKey, true, nUBucket, mapInfo[nIdEvict].service);
      PutNewKeeps(Value(), nUBucket, nIdEvict, {nId} + {nIdEvict}, 2);
      mapInfo := mapInfo[nIdEvict := mapInfo[nIdEvict].(nRefCount := 1)];
      vvNew := SetCell(vvNew, nUBucket, pos, nIdEvict);
      assert Value() == PutNew(old(Value()), nUBucket, pos, nIdEvict);
      assert {nId} + {nIdEvict} - {nIdEvict} == {nId};
      Recount(Value(), nNew + 1, {nId}, 2, 1);
      nNew := nNew + 1;
    }

    /** The middle part of `MakeTried`: the occupant of a tried slot goes back to the new table. */
    method BackToNew(b: nat, p: nat, nId: int) returns (ghost lost: set<int>)
      requires Partial(Value(), {nId}, 1) && nId in mapInfo && mapInfo[nId].nRefCount == 0
      requires b < ADDRMAN_TRIED_BUCKET_COUNT && p < ADDRMAN_BUCKET_SIZE && Cell(vvTried, b, p) != -1
      modifies `mapInfo, `vRandom, `mapAddr, `nNew, `vvNew, `vvTried, `nTried
      ensures Partial(Value(), {nId}, 1) && nId in mapInfo && mapInfo[nId].nRefCount == 0
      ensures vvTried == SetCell(old(vvTried), b, p, -1)
      ensures Rearranged(old(Value()), Value(), lost, Ids(old(mapInfo), true) - {old(Cell(vvTried, b, p))})
      ensures var evicted := old(Cell(vvTried, b, p));
        && evicted in mapInfo && mapInfo[evicted].nRefCount == 1
        && var bucket := GetNewBucket(nKey, mapInfo[evicted].service, mapInfo[evicted].source);
           Cell(vvNew, bucket, NewPos(nKey, bucket, mapInfo[evicted].service)) == evicted
    {
      var nIdEvict := TakeFromTried(b, p, nId);
      var nUBucket, nUBucketPos;
      nUBucket, nUBucketPos, lost := ClearFor(nIdEvict, nId);
      assert vvNew[nUBucket][nUBucketPos] == -1;
      ReenterNew(nIdEvict, nUBucket, nId);
    }

    /** The tried slot of an address is emptied, if need be. */
    method MakeRoom(b: nat, p: nat, nId: int) returns (ghost lost: set<int>)
      requires Partial(Value(), {nId}, 1) && nId in mapInfo && mapInfo[nId].nRefCount == 0
      requires b < ADDRMAN_TRIED_BUCKET_COUNT && p < ADDRMAN_BUCKET_SIZE
      modifies `mapInfo, `vRandom, `mapAddr, `nNew, `vvNew, `vvTried, `nTried
      ensures Partial(Value(), {nId}, 1) && nId in mapInfo && mapInfo[nId].nRefCount == 0
      ensures vvTried == SetCell(old(vvTried), b, p, -1)
      ensures Rearranged(old(Value()), Value(), lost, Ids(old(mapInfo), true) - {old(Cell(vvTried, b, p))})
    {
      if vvTried[b][p] != -1 {
        lost := BackToNew(b, p, nId);
      } else {
        lost := {};
        assert EntryOk(Value(), -1, {nId});
        assert vvTried[b] == vvTried[b][p := -1];
      }
    }

    /** The last part of `MakeTried`. */
    method Occupy(nId: int, b: nat, p: nat)
      requires Partial(Value(), {nId}, 1) && nId in mapInfo && mapInfo[nId].nRefCount == 0
               && mapInfo[nId].nLastSuccess > 0
      requires b == GetTriedBucket(nKey, mapInfo[nId].service) && p == TriedPos(nKey, mapInfo[nId].service)
      requires Cell(vvTried, b, p) == -1
      modifies `mapInfo, `vvTried, `nTried
      ensures Consistent(Value())
      ensures vvTried == SetCell(old(vvTried), b, p, nId)
      ensures mapInfo == old(mapInfo)[nId := old(mapInfo)[nId].(fInTried := true)]
    {
      EnterTriedKeeps(Value(), nId, {nId}, 1);
      vvTried := SetCell(vvTried, b, p, nId);
      nTried := nTried + 1;
      mapInfo := mapInfo[nId := mapInfo[nId].(fInTried := true)];
      assert Value() == EnterTried(old(Value()), nId);
      assert {nId} - {nId} == {};
    }

    /**
     `MakeTried`: a new entry moves into its tried slot.  An occupant goes back to the new table, where it may
     cost one other entry its last reference; nothing else leaves, and no entry but the two changes table.
     */
    method MakeTried(nId: int) returns (ghost lost: set<int>)
      requires Consistent(Value()) && nId in mapInfo && !mapInfo[nId].fInTried && mapInfo[nId].nLastSuccess > 0
      modifies `mapInfo, `vRandom, `mapAddr, `nNew, `vvNew, `vvTried, `nTried
      ensures Consistent(Value()) && nId in mapInfo
      ensures vvTried == SetCell(old(vvTried), GetTriedBucket(nKey, old(mapInfo[nId].service)),
                                 TriedPos(nKey, old(mapInfo[nId].service)), nId)
      ensures Rearranged(old(Value()), Value(), lost,
                Ids(old(mapInfo), true) - {old(TriedOccupant(nKey, vvTried, mapInfo[nId].service))} + {nId})
    {
      LeaveNew(nId);
      Recount(Value(), nNew - 1, {nId}, 0, 1);
      nNew := nNew - 1;
      ghost var t := Value();
      var a := mapInfo[nId].service;
      var nKBucket := GetTriedBucket(nKey, a);
      var nKBucketPos := GetBucketPosition(nKey, false, nKBucket, a);
      lost := MakeRoom(nKBucket, nKBucketPos, nId);
      SetCellTwice(old(vvTried), nKBucket, nKBucketPos, -1, nId);
      ghost var u := Value();
      Occupy(nId, nKBucket, nKBucketPos);
      MovedIsRearranged(old(Value()), t, u, Value(), nId, lost, Cell(t.vvTried, nKBucket, nKBucketPos));
    }

    /** Update fields of an entry that the tables do not depend on. */
    method UpdateInfo(nId: int, i: Info)
      requires Valid() && nId in mapInfo && SameRole(mapInfo[nId], i)
      modifies `mapInfo
      ensures Valid() && Value() == SetInfo(old(Value()), nId, i)
      ensures Onward(old(Value()), Value())
    {
      SetInfoKeeps(Value(), nId, i, {}, 0);
      mapInfo := mapInfo[nId := i];
      OnwardSame(old(Value()), Value());
      CollisionsKept(old(Value()), Value(), m_tried_collisions);
    }

    /** The search of `Good_` for a new bucket of an entry, from a random starting point. */
    method FindNewBucket(nId: int) returns (nUBucket: int)
      requires Consistent(Value()) && nId in mapInfo && !mapInfo[nId].fInTried
      ensures 0 <= nUBucket < ADDRMAN_NEW_BUCKET_COUNT
      ensures Cell(vvNew, nUBucket, NewPos(nKey, nUBucket, mapInfo[nId].service)) == nId
    {
      var nRnd: nat := *;
      nRnd := nRnd % ADDRMAN_NEW_BUCKET_COUNT;
      var a := mapInfo[nId].service;
      // an entry of the new table is in some bucket
      assert EntryOk(Value(), nId, {});
      ghost var there :| there in NewBuckets(nKey, vvNew, a, nId);
      ghost var last := (there - nRnd) % ADDRMAN_NEW_BUCKET_COUNT;
      assert (last + nRnd) % ADDRMAN_NEW_BUCKET_COUNT == there;
      nUBucket := -1;
      var n := 0;
      while n < ADDRMAN_NEW_BUCKET_COUNT && nUBucket == -1
        invariant 0 <= n <= ADDRMAN_NEW_BUCKET_COUNT && -1 <= nUBucket < ADDRMAN_NEW_BUCKET_COUNT
        invariant nUBucket == -1 ==> n <= last
        invariant nUBucket != -1 ==> HoldsAt(nId, a, nUBucket)
      {
        var nB := (n + nRnd) % ADDRMAN_NEW_BUCKET_COUNT;
        var nBpos := GetBucketPosition(nKey, true, nB, a);
        if vvNew[nB][nBpos] == nId {
          nUBucket := nB;
        }
        n := n + 1;
      }
      assert nUBucket != -1;
    }

    ghost predicate HoldsAt(id: int, a: Service, b: nat)
      reads this
    {
      Cell(vvNew, b, NewPos(nKey, b, a)) == id
    }

    /** The end of `Good_`: move the entry to the tried table, unless an occupant is to be tested first. */
    method Promote(nId: int, test_before_evict: bool) returns (ghost lost: set<int>)
      requires Valid() && nId in mapInfo && !mapInfo[nId].fInTried && mapInfo[nId].nLastSuccess > 0
      modifies `mapInfo, `vRandom, `mapAddr, `nNew, `vvNew, `vvTried, `nTried, `m_tried_collisions
      ensures Valid() && Onward(old(Value()), Value()) && nId in mapInfo
      ensures old(test_before_evict && TriedOccupant(nKey, vvTried, mapInfo[nId].service) != -1) ==>
                && Value() == old(Value())
                && m_tried_collisions == if |old(m_tried_collisions)| < ADDRMAN_SET_TRIED_COLLISION_SIZE
                                         then old(m_tried_collisions) + {nId} else old(m_tried_collisions)
      ensures old(!test_before_evict || TriedOccupant(nKey, vvTried, mapInfo[nId].service) == -1) ==>
                && m_tried_collisions == old(m_tried_collisions)
                && Rearranged(old(Value()), Value(), lost,
                     Ids(old(mapInfo), true) - {old(TriedOccupant(nKey, vvTried, mapInfo[nId].service))} + {nId})
    {
      lost := {};
      var a := mapInfo[nId].service;
      var tried_bucket := GetTriedBucket(nKey, a);
      var tried_bucket_pos := GetBucketPosition(nKey, false, tried_bucket, a);
      assert EntryOk(Value(), nId, {});
      if test_before_evict && vvTried[tried_bucket][tried_bucket_pos] != -1 {
        if |m_tried_collisions| < ADDRMAN_SET_TRIED_COLLISION_SIZE {
          m_tried_collisions := m_tried_collisions + {nId};
        }
      } else {
        lost := MakeTried(nId);
        RearrangedOnward(old(Value()), Value(), lost,
          Ids(old(mapInfo), true) - {old(TriedOccupant(nKey, vvTried, mapInfo[nId].service))} + {nId}, tried_bucket,
            tried_bucket_pos, nId);
        CollisionsKept(old(Value()), Value(), m_tried_collisions);
      }
    }

    /** An entry for exactly this address and port. */
    /** What is in the slot of the new table that an address gets for a source. */
    static function NewOccupant(k: Key, vvNew: Table, a: Service, source: NetAddr): int {
      Cell(vvNew, GetNewBucket(k, a, source), NewPos(k, GetNewBucket(k, a, source), a))
    }

    ghost predicate Knows(addr: Service)
      reads this
    {
      addr.ip in mapAddr && mapAddr[addr.ip] in mapInfo && mapInfo[mapAddr[addr.ip]].service == addr
    }

    /**
     `Good_`: an address that just worked. Afterwards it is in the tried table, or waits for the occupant of
     its slot.
     */
    method Good_(addr: Service, test_before_evict: bool, nTime: int)
      requires Valid() && nTime > 0
      modifies this
      ensures Valid() && Onward(old(Value()), Value())
      ensures !old(Knows(addr)) ==> Value() == old(Value()) && m_tried_collisions == old(m_tried_collisions)
      ensures old(Knows(addr)) ==>
              Knows(addr) && mapAddr[addr.ip] == old(mapAddr[addr.ip])
                && mapInfo[mapAddr[addr.ip]].nLastSuccess == nTime
      ensures old(Knows(addr)) && (!test_before_evict || old(TriedOccupant(nKey, vvTried, addr)) == -1) ==>
              mapInfo[mapAddr[addr.ip]].fInTried
      ensures !test_before_evict || old(TriedOccupant(nKey, vvTried, addr)) == -1 ==>
              m_tried_collisions == old(m_tried_collisions)
      ensures old(Knows(addr)) && test_before_evict && old(TriedOccupant(nKey, vvTried, addr)) != -1 ==>
                && vvTried == old(vvTried) && vvNew == old(vvNew)
                && m_tried_collisions ==
                   if mapInfo[mapAddr[addr.ip]].fInTried
                     || |old(m_tried_collisions)| >= ADDRMAN_SET_TRIED_COLLISION_SIZE
                   then old(m_tried_collisions) else old(m_tried_collisions) + {mapAddr[addr.ip]}
      ensures nIdCount == old(nIdCount)
    {
      nLastGood := nTime;
      var found, nId := Find(addr.ip);
      if !found { return; }
      var info := mapInfo[nId];
      if info.service != addr { return; }
      assert EntryOk(Value(), nId, {});
      UpdateInfo(nId, info.(nLastSuccess := nTime, nLastTry := nTime, nAttempts := 0));
      if mapInfo[nId].fInTried { return; }
      var nUBucket := FindNewBucket(nId);
      ghost var t := Value();
      ghost var lost := Promote(nId, test_before_evict);
      OnwardAgain(old(Value()), t, Value());
      StillKnown(t, Value(), nId);
    }

    /** An id that is still there is still found by its address. */
    lemma StillKnown(s: State, r: State, id: int)
      requires Consistent(s) && Consistent(r) && Onward(s, r) && id in s.mapInfo && id in r.mapInfo
      ensures id < s.nIdCount && r.mapInfo[id].service.ip in r.mapAddr && r.mapAddr[r.mapInfo[id].service.ip] == id
      ensures r.mapInfo[id].service == s.mapInfo[id].service
    {
      assert EntryOk(s, id, {}) && EntryOk(r, id, {}) && IdKept(s, r, id);
    }

    /** Whether `Add_` may take a slot of the new table for an entry. */
    predicate MayTake(nId: int, b: nat, p: nat, nNow: int)
      requires nId in mapInfo
      reads this
    {
      var occupant := Cell(vvNew, b, p);
      || occupant == -1
      || (occupant in mapInfo
         && (IsTerrible(mapInfo[occupant], nNow) || (mapInfo[occupant].nRefCount > 1 && mapInfo[nId].nRefCount == 0)))
    }

    /** Take a slot of the new table, whose occupant loses it. */
    method TakeSlot(nId: int, b: nat, p: nat, ghost idle: set<int>)
      requires Partial(Value(), idle, 0) && idle <= {nId} && nId in mapInfo && !mapInfo[nId].fInTried
      requires b < ADDRMAN_NEW_BUCKET_COUNT && p == NewPos(nKey, b, mapInfo[nId].service) && Cell(vvNew, b, p) != nId
      requires mapInfo[nId].nRefCount < ADDRMAN_NEW_BUCKETS_PER_ADDRESS
      modifies `mapInfo, `vRandom, `mapAddr, `nNew, `vvNew
      ensures Consistent(Value()) && nId in mapInfo
      ensures vvNew == SetCell(old(vvNew), b, p, nId)
      ensures Rearranged(old(Value()), Value(), LastReference(old(Value()), old(Cell(vvNew, b, p))),
                         Ids(old(mapInfo), true))
    {
      ghost var occupant, s := Cell(vvNew, b, p), Value();
      assert NewCellOk(s, b, p) && EntryOk(s, -1, idle);
      ClearNew(b, p, idle, 0);
      ClearedIsRearranged(s, Value(), occupant);
      ghost var t := Value();
      PutNewKeeps(t, b, nId, idle, 0);
      mapInfo := mapInfo[nId := mapInfo[nId].(nRefCount := mapInfo[nId].nRefCount + 1)];
      vvNew := SetCell(vvNew, b, p, nId);
      assert Value() == PutNew(t, b, p, nId);
      assert idle - {nId} == {};
      SetCellTwice(s.vvNew, b, p, -1, nId);
    }

    /** The second half of `Add_`: a reference for an entry in the bucket that its source selects. */
    method Reference(nId: int, source: NetAddr, nNow: int, ghost idle: set<int>) returns (ghost lost: set<int>)
      requires Partial(Value(), idle, 0) && nId in mapInfo && !mapInfo[nId].fInTried
      requires mapInfo[nId].nRefCount < ADDRMAN_NEW_BUCKETS_PER_ADDRESS
      requires idle == if mapInfo[nId].nRefCount == 0 then {nId} else {}
      modifies `mapInfo, `vRandom, `mapAddr, `nNew, `vvNew
      ensures Consistent(Value())
      ensures Rearranged(old(Value()), Value(), lost, Ids(old(mapInfo), true))
      ensures nId in mapInfo ==> nId !in lost && mapInfo[nId].nRefCount > 0
      ensures nId !in mapInfo ==> old(mapInfo)[nId].nRefCount == 0
      ensures var a := old(mapInfo)[nId].service;
        var bucket := GetNewBucket(nKey, a, source);
        var pos := NewPos(nKey, bucket, a);
        var taken := old(Cell(vvNew, bucket, pos)) != nId && old(MayTake(nId, bucket, pos, nNow));
        vvNew == if taken then SetCell(old(vvNew), bucket, pos, nId) else old(vvNew)
    {
      lost := {};
      assert EntryOk(Value(), nId, idle);
      var a := mapInfo[nId].service;
      var nUBucket := GetNewBucket(nKey, a, source);
      var nUBucketPos := GetBucketPosition(nKey, true, nUBucket, a);
      if vvNew[nUBucket][nUBucketPos] != nId {
        if MayTake(nId, nUBucket, nUBucketPos, nNow) {
          lost := LastReference(Value(), Cell(vvNew, nUBucket, nUBucketPos));
          TakeSlot(nId, nUBucket, nUBucketPos, idle);
          assert EntryOk(Value(), nId, {});
        } else if mapInfo[nId].nRefCount == 0 {
          lost := {nId};
          ghost var s := Value();
          Delete(nId, idle, 0);
          DeleteEffect(s, nId);
          assert idle - {nId} == {};
        }
      } else {
        HeldIsReferenced(Value(), nId, idle, nUBucket, nUBucketPos);
      }
    }

    lemma HeldIsReferenced(s: State, id: int, idle: set<int>, b: nat, p: nat)
      requires Structure(s, idle) && id in s.mapInfo && Cell(s.vvNew, b, p) == id
      ensures s.mapInfo[id].nRefCount > 0
    {
      assert EntryOk(s, id, idle);
      if s.mapInfo[id].nRefCount == 0 { UnreferencedInNoCell(s, id, idle, b, p); }
    }

    /** A known address: refresh it, and decide whether to give it one more reference. */
    method RefreshKnown(nId: int, addr: Address, nTimePenalty: int, nNow: int) returns (more: bool)
      requires Valid() && nId in mapInfo
      modifies `mapInfo
      ensures Valid() && Onward(old(Value()), Value())
      ensures Value() == SetInfo(old(Value()), nId, Refreshed(old(mapInfo[nId]), addr, nTimePenalty, nNow))
      ensures more ==> !mapInfo[nId].fInTried && 0 < mapInfo[nId].nRefCount < ADDRMAN_NEW_BUCKETS_PER_ADDRESS
    {
      assert EntryOk(Value(), nId, {});
      UpdateInfo(nId, Refreshed(mapInfo[nId], addr, nTimePenalty, nNow));
      var pinfo := mapInfo[nId];
      if addr.nTime == 0 || (pinfo.nTime != 0 && addr.nTime <= pinfo.nTime) { return false; }
      if pinfo.fInTried { return false; }
      if pinfo.nRefCount == ADDRMAN_NEW_BUCKETS_PER_ADDRESS { return false; }
      // each further reference is twice as unlikely as the one before
      more := *;
    }

    /** A new address gets an entry, without a reference yet. */
    method CreateCounted(addr: Address, source: NetAddr, nTimePenalty: int) returns (nId: int)
      requires Valid() && addr.service.ip !in mapAddr
      modifies `nIdCount, `mapInfo, `mapAddr, `vRandom, `nNew
      ensures Partial(Value(), {nId}, 0) && nId == old(nIdCount) && nId !in old(mapInfo)
      ensures mapInfo.Keys == old(mapInfo.Keys) + {nId} && mapInfo[nId].nRefCount == 0 && !mapInfo[nId].fInTried
      ensures mapInfo[nId].service == addr.service && mapInfo[nId].source == source
      ensures forall id | id in old(mapInfo) :: mapInfo[id] == old(mapInfo[id])
      ensures nIdCount == old(nIdCount) + 1
    {
      CreateFirstKeeps(Value(), addr.service, source, addr.nTime, addr.nServices);
      nId := Create(addr.service, source, addr.nTime, addr.nServices);
      var i := mapInfo[nId].(nTime := Max(0, mapInfo[nId].nTime - nTimePenalty));
      SetInfoKeeps(Value(), nId, i, {nId}, 1);
      mapInfo := mapInfo[nId := i];
      Recount(Value(), nNew + 1, {nId}, 1, 0);
      nNew := nNew + 1;
    }

    /** A known address may gain a reference. */
    method AddKnown(nId: int, addr: Address, source: NetAddr, nTimePenalty: int, nNow: int)
      returns (ghost lost: set<int>)
      requires Valid() && nId in mapInfo
      modifies `mapInfo, `mapAddr, `vRandom, `nNew, `vvNew
      ensures Valid() && Onward(old(Value()), Value())
      ensures OthersKept(old(Value()), Value(), lost) && mapInfo.Keys <= old(mapInfo.Keys)
    {
      lost := {};
      var more := RefreshKnown(nId, addr, nTimePenalty, nNow);
      if more {
        ghost var t := Value();
        lost := Reference(nId, source, nNow, {});
        ReferencedKept(old(Value()), t, Value(), nId, lost);
        CollisionsKept(old(Value()), Value(), m_tried_collisions);
      }
    }

    /** A new address is added if it finds a place. */
    /** An entry that took a free slot is known. */
    lemma Placed(a: Service, source: NetAddr, nId: int, occupant: int, t: State)
      requires Consistent(Value()) && nId in t.mapInfo && t.mapInfo[nId].service == a && nId != -1
      requires nId in mapInfo ==> mapInfo[nId].service == a
      requires occupant == -1 ==> NewOccupant(nKey, vvNew, a, source) == nId
      ensures occupant == -1 ==> Knows(a) && mapAddr[a.ip] == nId
    {
      if occupant == -1 {
        var b := GetNewBucket(nKey, a, source);
        assert NewCellOk(Value(), b, NewPos(nKey, b, a));
        assert EntryOk(Value(), nId, {});
      }
    }

    method AddUnknown(addr: Address, source: NetAddr, nTimePenalty: int, nNow: int) returns (ghost lost: set<int>)
      requires Valid() && addr.service.ip !in mapAddr
      modifies `nIdCount, `mapInfo, `mapAddr, `vRandom, `nNew, `vvNew
      ensures Valid() && Onward(old(Value()), Value())
      ensures OthersKept(old(Value()), Value(), lost) && mapInfo.Keys <= old(mapInfo.Keys) + {old(nIdCount)}
      ensures nIdCount == old(nIdCount) + 1
      ensures old(NewOccupant(nKey, vvNew, addr.service, source)) == -1 ==>
                Knows(addr.service) && mapAddr[addr.service.ip] == old(nIdCount)
    {
      hide OthersKept;
      var nId := CreateCounted(addr, source, nTimePenalty);
      ghost var t := Value();
      lost := Reference(nId, source, nNow, {nId});
      Placed(addr.service, source, nId, old(NewOccupant(nKey, vvNew, addr.service, source)), t);
      ReferencedKept(old(Value()), t, Value(), nId, lost);
      lost := lost - {nId};
      CollisionsKept(old(Value()), Value(), m_tried_collisions);
    }

    /**
     `Add_`.  It says true exactly for a routable address that it did not know; that address may still not
     have found a place.  No other entry but the occupant of one slot can be lost, and the tried table is
     not touched.
     */
    method Add_(addr: Address, routable: bool, source: NetAddr, timePenalty: int, nNow: int)
      returns (fNew: bool, ghost lost: set<int>)
      requires Valid()
      modifies `nIdCount, `mapInfo, `mapAddr, `vRandom, `nNew, `vvNew
      ensures Valid() && Onward(old(Value()), Value())
      ensures fNew <==> routable && addr.service.ip !in old(mapAddr)
      ensures OthersKept(old(Value()), Value(), lost)
      ensures mapInfo.Keys <= old(mapInfo.Keys) + if fNew then {old(nIdCount)} else {}
      ensures nIdCount == if fNew then old(nIdCount) + 1 else old(nIdCount)
      ensures fNew && old(NewOccupant(nKey, vvNew, addr.service, source)) == -1 ==>
                Knows(addr.service) && mapAddr[addr.service.ip] == old(nIdCount)
    {
      fNew, lost := false, {};
      if !routable { return; }
      var found, nId := Find(addr.service.ip);
      var nTimePenalty := if addr.service.ip == source then 0 else timePenalty;
      assert AddrOk(Value(), addr.service.ip);
      if found {
        lost := AddKnown(nId, addr, source, nTimePenalty, nNow);
      } else {
        lost := AddUnknown(addr, source, nTimePenalty, nNow);
        fNew := true;
      }
    }

    /** `Attempt_`. */
    method Attempt_(addr: Service, fCountFailure: bool, nTime: int)
      requires Valid() && nTime >= 0
      modifies `mapInfo
      ensures Valid() && Onward(old(Value()), Value())
      ensures !old(Knows(addr)) ==> mapInfo == old(mapInfo)
      ensures old(Knows(addr)) ==>
                var id := mapAddr[addr.ip];
                var counted := fCountFailure && old(mapInfo)[id].nLastCountAttempt < nLastGood;
                mapInfo == old(mapInfo)[id := old(mapInfo)[id].(
                  nLastTry := nTime,
                  nLastCountAttempt := if counted then nTime else old(mapInfo)[id].nLastCountAttempt,
                  nAttempts := old(mapInfo)[id].nAttempts + if counted then 1 else 0)]
    {
      var found, nId := Find(addr.ip);
      if !found { return; }
      var info := mapInfo[nId];
      if info.service != addr { return; }
      assert EntryOk(Value(), nId, {});
      info := info.(nLastTry := nTime);
      if fCountFailure && info.nLastCountAttempt < nLastGood {
        info := info.(nLastCountAttempt := nTime, nAttempts := info.nAttempts + 1);
      }
      UpdateInfo(nId, info);
    }

    /** `Connected_`. */
    method Connected_(addr: Service, nTime: int)
      requires Valid()
      modifies `mapInfo
      ensures Valid() && Onward(old(Value()), Value())
      ensures !old(Knows(addr)) ==> mapInfo == old(mapInfo)
      ensures old(Knows(addr)) ==>
                var i := old(mapInfo)[mapAddr[addr.ip]];
                mapInfo == old(mapInfo)[mapAddr[addr.ip] := i.(nTime := if nTime - i.nTime > 20 * 60 then nTime
                  else i.nTime)]
    {
      var found, nId := Find(addr.ip);
      if !found { return; }
      var info := mapInfo[nId];
      if info.service != addr { return; }
      assert EntryOk(Value(), nId, {});
      if nTime - info.nTime > 20 * 60 {
        UpdateInfo(nId, info.(nTime := nTime));
      }
    }

    /** `SetServices_`. */
    method SetServices_(addr: Service, nServices: set<nat>)
      requires Valid()
      modifies `mapInfo
      ensures Valid() && Onward(old(Value()), Value())
      ensures !old(Knows(addr)) ==> mapInfo == old(mapInfo)
      ensures old(Knows(addr)) ==>
                mapInfo == old(mapInfo)[mapAddr[addr.ip] := old(mapInfo)[mapAddr[addr.ip]].(nServices := nServices)]
    {
      var found, nId := Find(addr.ip);
      if !found { return; }
      var info := mapInfo[nId];
      if info.service != addr { return; }
      assert EntryOk(Value(), nId, {});
      UpdateInfo(nId, info.(nServices := nServices));
    }

    /** The occupant of the slot that an entry waits for worked lately, and stays. */
    ghost predicate OccupantWorked(i: Info, nNow: int)
      reads this
    {
      var o := TriedOccupant(nKey, vvTried, i.service);
      o in mapInfo && nNow - mapInfo[o].nLastSuccess < ADDRMAN_REPLACEMENT_HOURS * (60 * 60)
    }

    /** The occupant was tried for more than a minute without success; or it could not be tried, for too long. */
    ghost predicate OccupantFailed(i: Info, nNow: int)
      reads this
    {
      var o := TriedOccupant(nKey, vvTried, i.service);
      && o in mapInfo && !OccupantWorked(i, nNow)
      && if nNow - mapInfo[o].nLastTry < ADDRMAN_REPLACEMENT_HOURS * (60 * 60) then nNow - mapInfo[o].nLastTry > 60
         else nNow - i.nLastSuccess > ADDRMAN_TEST_WINDOW
    }

    /**
     One pending collision.  It is resolved if the entry or its address is no longer good, if the occupant
     worked, or if the occupant failed; only then is the occupant replaced.  The branch of the code for a
     slot that has become empty is not there: the slot never is.
     */
    method ResolveOne(id_new: int, invalid: set<NetAddr>, nNow: int) returns (erase_collision: bool)
      requires Valid() && id_new in m_tried_collisions && nNow > 0
      modifies this
      ensures Valid() && Onward(old(Value()), Value())
      ensures m_tried_collisions == old(m_tried_collisions)
      ensures erase_collision <==> old(
                || id_new !in mapInfo || mapInfo[id_new].service.ip in invalid
                || OccupantWorked(mapInfo[id_new], nNow) || OccupantFailed(mapInfo[id_new], nNow))
      ensures old(id_new in mapInfo && mapInfo[id_new].service.ip !in invalid
                  && OccupantFailed(mapInfo[id_new], nNow)) ==>
                id_new in mapInfo && mapInfo[id_new].fInTried
      ensures !old(id_new in mapInfo && mapInfo[id_new].service.ip !in invalid
                   && OccupantFailed(mapInfo[id_new], nNow)) ==>
                Value() == old(Value())
    {
      assert PendingOk(Value(), id_new) && EntryOk(Value(), id_new, {});
      if id_new !in mapInfo { return true; }
      var info_new := mapInfo[id_new];
      var tried_bucket := GetTriedBucket(nKey, info_new.service);
      var tried_bucket_pos := GetBucketPosition(nKey, false, tried_bucket, info_new.service);
      if info_new.service.ip in invalid { return true; }
      assert vvTried[tried_bucket][tried_bucket_pos] != -1;
      assert TriedCellOk(Value(), tried_bucket, tried_bucket_pos);
      var id_old := vvTried[tried_bucket][tried_bucket_pos];
      var info_old := mapInfo[id_old];
      erase_collision := false;
      if nNow - info_old.nLastSuccess < ADDRMAN_REPLACEMENT_HOURS * (60 * 60) {
        erase_collision := true;
      } else if nNow - info_old.nLastTry < ADDRMAN_REPLACEMENT_HOURS * (60 * 60) {
        if nNow - info_old.nLastTry > 60 {
          Good_(info_new.service, false, nNow);
          erase_collision := true;
        }
      } else if nNow - info_new.nLastSuccess > ADDRMAN_TEST_WINDOW {
        Good_(info_new.service, false, nNow);
        erase_collision := true;
      }
    }

    /** `ResolveCollisions_`. */
    method ResolveCollisions_(invalid: set<NetAddr>, nNow: int)
      requires Valid() && nNow > 0
      modifies this
      ensures Valid() && Onward(old(Value()), Value())
      ensures m_tried_collisions <= old(m_tried_collisions)
      ensures forall id | id in m_tried_collisions :: id in old(mapInfo)
    {
      var left := m_tried_collisions;
      ghost var before := Value();
      while left != {}
        invariant Valid() && Onward(before, Value())
        invariant left <= m_tried_collisions <= old(m_tried_collisions)
        invariant forall id | id in m_tried_collisions && id !in left :: id in before.mapInfo
        decreases left
      {
        var it := Pick(left);
        ghost var t := Value();
        assert PendingOk(before, it) && IdKept(before, t, it);
        var erase_collision := ResolveOne(it, invalid, nNow);
        OnwardAgain(before, t, Value());
        if erase_collision {
          m_tried_collisions := m_tried_collisions - {it};
        }
        left := left - {it};
      }
    }

    /** `SelectTriedCollision_`: the occupant in the way of some pending entry, which is there. */
    method SelectTriedCollision_() returns (found: bool, info: Info)
      requires Valid()
      modifies `m_tried_collisions
      ensures Valid() && Value() == old(Value())
      ensures found ==> exists id | id in m_tried_collisions && id in mapInfo ::
                TriedOccupant(nKey, vvTried, mapInfo[id].service) in mapInfo
                  && info == mapInfo[TriedOccupant(nKey, vvTried, mapInfo[id].service)] && info.fInTried
      ensures !found ==> m_tried_collisions == {} || exists id | id in old(m_tried_collisions) - mapInfo.Keys ::
              m_tried_collisions == old(m_tried_collisions) - {id}
    {
      info := Info(Service(0, 0), 0, 0, {}, 0, 0, 0, 0, 0, false, -1);
      found := false;
      if m_tried_collisions == {} { return; }
      var id_new := Pick(m_tried_collisions);
      if id_new !in mapInfo {
        m_tried_collisions := m_tried_collisions - {id_new};
        return;
      }
      var a := mapInfo[id_new].service;
      var tried_bucket := GetTriedBucket(nKey, a);
      var tried_bucket_pos := GetBucketPosition(nKey, false, tried_bucket, a);
      assert PendingOk(Value(), id_new) && TriedCellOk(Value(), tried_bucket, tried_bucket_pos);
      var id_old := vvTried[tried_bucket][tried_bucket_pos];
      return true, mapInfo[id_old];
    }

    /** One turn of `GetAddr_`: a random one of the remaining entries comes next in the random order. */
    method DrawNext(n: nat)
      requires Consistent(Value()) && n < |vRandom|
      modifies `mapInfo, `vRandom
      ensures Consistent(Value()) && OnlyGone(old(Value()), Value(), {})
      ensures |vRandom| == old(|vRandom|) && vRandom[..n + 1] == old(vRandom[..n]) + [vRandom[n]]
      ensures vRandom[n] in mapInfo && vRandom[n] !in old(vRandom[..n])
    {
      var nRndPos: nat := *;
      nRndPos := n + nRndPos % (|vRandom| - n);
      SwapRandom(n, nRndPos, {}, 0);
      assert RandomOk(Value(), n);
      forall k | 0 <= k < n ensures vRandom[k] != vRandom[n] { assert RandomOk(Value(), k); }
      assert vRandom[..n] == old(vRandom[..n]);
    }

    lemma DrawnAll(ids: seq<int>, nNow: int)
      requires Consistent(Value()) && Drawn(mapInfo, vRandom, ids, nNow)
      ensures forall id | id in mapInfo && !IsTerrible(mapInfo[id], nNow) :: id in ids
    {
      forall id | id in mapInfo && !IsTerrible(mapInfo[id], nNow) ensures id in ids {
        assert EntryOk(Value(), id, {});
        assert id in vRandom;
      }
    }

    /** One turn of the loop of `GetAddr_`. */
    method GatherOne(n: nat, vAddr: seq<Address>, ghost ids: seq<int>, nNow: int)
      returns (vAddr': seq<Address>, ghost ids': seq<int>)
      requires Consistent(Value()) && n < |vRandom|
      requires Gathered(mapInfo, vAddr, ids, nNow) && Drawn(mapInfo, vRandom[..n], ids, nNow)
      modifies `mapInfo, `vRandom
      ensures Consistent(Value()) && OnlyGone(old(Value()), Value(), {}) && |vRandom| == old(|vRandom|)
      ensures Gathered(mapInfo, vAddr', ids', nNow) && Drawn(mapInfo, vRandom[..n + 1], ids', nNow)
      ensures |vAddr| <= |vAddr'| <= |vAddr| + 1
    {
      DrawNext(n);
      var ai := mapInfo[vRandom[n]];
      GatherStep(old(mapInfo), mapInfo, old(vRandom[..n]), vRandom[n], vAddr, ids, nNow);
      if IsTerrible(ai, nNow) {
        vAddr', ids' := vAddr, ids;
      } else {
        vAddr', ids' := vAddr + [AddressOf(ai)], ids + [vRandom[n]];
      }
    }

    /** The loop of `GetAddr_`. */
    method Gather(nNodes: nat, nNow: int) returns (vAddr: seq<Address>, ghost ids: seq<int>)
      requires Consistent(Value())
      modifies `mapInfo, `vRandom
      ensures Consistent(Value()) && OnlyGone(old(Value()), Value(), {}) && |vRandom| == old(|vRandom|)
      ensures Gathered(mapInfo, vAddr, ids, nNow) && |vAddr| <= nNodes
      ensures |vAddr| < nNodes || |vRandom| <= nNodes ==> forall id | id in mapInfo && !IsTerrible(mapInfo[id], nNow) ::
              id in ids
    {
      vAddr, ids := [], [];
      var n := 0;
      while n < |vRandom| && |vAddr| < nNodes
        invariant 0 <= n <= |vRandom| == old(|vRandom|) && |vAddr| <= nNodes && |vAddr| <= n
        invariant Consistent(Value()) && OnlyGone(old(Value()), Value(), {})
        invariant Gathered(mapInfo, vAddr, ids, nNow) && Drawn(mapInfo, vRandom[..n], ids, nNow)
      {
        vAddr, ids := GatherOne(n, vAddr, ids, nNow);
        n := n + 1;
      }
      if n == |vRandom| {
        assert vRandom[..n] == vRandom;
        DrawnAll(ids, nNow);
      }
    }

    /**
     `GetAddr_`: a random selection of entries that are not terrible, no address twice, at most as many as
     asked for; and if fewer, then all there are.
     */
    method GetAddr_(max_addresses: nat, max_pct: nat, nNow: int) returns (vAddr: seq<Address>, ghost ids: seq<int>)
      requires Valid()
      modifies `mapInfo, `vRandom
      ensures Valid() && OnlyGone(old(Value()), Value(), {})
      ensures Gathered(mapInfo, vAddr, ids, nNow)
      ensures forall j, k | 0 <= j < k < |vAddr| :: vAddr[j].service.ip != vAddr[k].service.ip
      ensures max_pct != 0 ==> |vAddr| <= max_pct * |vRandom| / 100
      ensures max_addresses != 0 ==> |vAddr| <= max_addresses
      ensures (max_pct == 0 || |vAddr| < max_pct * |vRandom| / 100)
              && (max_addresses == 0 || |vAddr| < max_addresses) ==>
                forall id | id in mapInfo && !IsTerrible(mapInfo[id], nNow) :: id in ids
    {
      var nNodes := |vRandom|;
      if max_pct != 0 { nNodes := max_pct * nNodes / 100; }
      if max_addresses != 0 && max_addresses < nNodes { nNodes := max_addresses; }
      vAddr, ids := Gather(nNodes, nNow);
      ReorderedOnward(old(Value()), Value());
      CollisionsKept(old(Value()), Value(), m_tried_collisions);
      forall j, k | 0 <= j < k < |vAddr| ensures vAddr[j].service.ip != vAddr[k].service.ip {
        GatheredOnce(Value(), vAddr, ids, nNow, j, k);
      }
    }
  }

  /** With nothing but tried entries the new table is empty. */
  lemma NoNewCells(s: State, b: int, p: int)
    requires Consistent(s) && forall id | id in s.mapInfo :: s.mapInfo[id].fInTried
    ensures Cell(s.vvNew, b, p) == -1
  {
    assert NewCellOk(s, b, p);
  }

  /** A manager that has seen one address succeed, which holds its tried slot. */
  method OneTried(key: Key, a: Address, source: NetAddr, penalty: int, now: int) returns (m: AddrMan)
    requires now > 0
    ensures fresh(m) && m.Valid() && m.nKey == key && m.m_tried_collisions == {}
    ensures m.mapInfo.Keys == {0} && m.nIdCount == 1
    ensures m.Knows(a.service) && m.mapAddr[a.service.ip] == 0 && m.mapInfo[0].fInTried
  {
    m := new AddrMan(key);
    NoNewCells(m.Value(), GetNewBucket(key, a.service, source),
               NewPos(key, GetNewBucket(key, a.service, source), a.service));
    assert AddrOk(m.Value(), a.service.ip);
    NoTried(m.Value(), a.service);
    var fNew;
    ghost var lost;
    fNew, lost := m.Add_(a, true, source, penalty, now);
    ghost var s := m.Value();
    m.Good_(a.service, true, now);
    forall id | id in m.mapInfo ensures id == 0 { assert EntryOk(m.Value(), id, {}) && IdKept(s, m.Value(), id); }
  }

  lemma NoTried(s: State, a: Service)
    requires Consistent(s) && s.mapInfo == map[]
    ensures TriedOccupant(s.nKey, s.vvTried, a) == -1
  {
    assert TriedCellOk(s, GetTriedBucket(s.nKey, a), TriedPos(s.nKey, a));
  }

  /**
   A run that leaves a cleared manager invalid: the second of two addresses that want one tried slot waits for the
   first, and `Clear` forgets both but not that it waits.
   */
  method ClearWhilePending(key: Key, a: Address, b: Address, source: NetAddr, penalty: int, now: int)
    returns (m: AddrMan, ghost pending: set<int>)
    requires a.service.ip != b.service.ip && now > 0
    requires GetTriedBucket(key, a.service) == GetTriedBucket(key, b.service)
    requires TriedPos(key, a.service) == TriedPos(key, b.service)
    ensures fresh(m) && pending == {1} == m.m_tried_collisions && !m.Valid()
  {
    m := OneTried(key, a, source, penalty, now);
    assert EntryOk(m.Value(), 0, {});
    NoNewCells(m.Value(), GetNewBucket(key, b.service, source),
               NewPos(key, GetNewBucket(key, b.service, source), b.service));
    assert AddrOk(m.Value(), b.service.ip);
    var fNew;
    ghost var lost;
    fNew, lost := m.Add_(b, true, source, penalty, now);
    m.Good_(b.service, true, now);
    assert EntryOk(m.Value(), 1, {});
    pending := m.m_tried_collisions;
    m.Clear(key);
  }
}
