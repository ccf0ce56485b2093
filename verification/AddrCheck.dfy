/**
 `CAddrMan::Check_` (`src/addrman.cpp`), the program's own consistency check: it accepts exactly the states
 that `Checked` describes, and every state that the operations leave behind is one of them.
 */
module AddrCheck {
  import opened Basics
  import opened AddrTables

  /** The address map as `mapAddr[info]` reads it: a missing address counts as id 0. */
  function Lookup(s: State, a: NetAddr): int { if a in s.mapAddr then s.mapAddr[a] else 0 }

  /** What `Check_` asks of an entry by itself. */
  ghost predicate EntryChecked(s: State, id: int) {
    id in s.mapInfo ==>
      var i := s.mapInfo[id];
      && (if i.fInTried then i.nLastSuccess != 0 && i.nRefCount == 0
         else 0 < i.nRefCount <= ADDRMAN_NEW_BUCKETS_PER_ADDRESS)
      && Lookup(s, i.service.ip) == id
      && 0 <= i.nRandomPos < |s.vRandom| && s.vRandom[i.nRandomPos] == id
      && 0 <= i.nLastTry && 0 <= i.nLastSuccess
  }

  /** An entry is in its tried slot, or in as many new slots as it has references. */
  ghost predicate Housed(s: State, id: int) {
    id in s.mapInfo ==>
      var i := s.mapInfo[id];
      && id != -1
      && if i.fInTried then TriedOccupant(s.nKey, s.vvTried, i.service) == id
         else i.nRefCount == |NewBuckets(s.nKey, s.vvNew, i.service, id)|
  }

  ghost predicate Checked(s: State) {
    && |s.vRandom| == s.nTried + s.nNew
    && s.nTried == |Ids(s.mapInfo, true)| && s.nNew == |Ids(s.mapInfo, false)|
    && Celled(s)
    && (forall id :: EntryChecked(s, id)) && (forall id :: Housed(s, id))
  }

  /** The random order holds every id once. */
  lemma RandomSize(s: State)
    requires Consistent(s)
    ensures |s.vRandom| == |s.mapInfo.Keys| == |Ids(s.mapInfo, true)| + |Ids(s.mapInfo, false)|
  {
    var ids := set k | 0 <= k < |s.vRandom| :: s.vRandom[k];
    forall id ensures id in ids <==> id in s.mapInfo.Keys {
      assert EntryOk(s, id, {});
      if id in ids {
        var k :| 0 <= k < |s.vRandom| && s.vRandom[k] == id;
        assert RandomOk(s, k);
      }
    }
    assert ids == s.mapInfo.Keys;
    forall j, k | 0 <= j < k < |s.vRandom| ensures s.vRandom[j] != s.vRandom[k] {
      assert RandomOk(s, j) && RandomOk(s, k);
    }
    DistinctSize(s.vRandom);
    assert Ids(s.mapInfo, true) + Ids(s.mapInfo, false) == s.mapInfo.Keys;
    assert Ids(s.mapInfo, true) !! Ids(s.mapInfo, false);
  }

  lemma {:induction false} DistinctSize(v: seq<int>)
    requires forall j, k | 0 <= j < k < |v| :: v[j] != v[k]
    ensures |set k | 0 <= k < |v| :: v[k]| == |v|
  {
    var all := set k | 0 <= k < |v| :: v[k];
    if v == [] {
      assert all == {};
    } else {
      var n := |v| - 1;
      DistinctSize(v[..n]);
      var rest := set k | 0 <= k < |v[..n]| :: v[..n][k];
      assert all == rest + {v[n]} by {
        forall x ensures x in all <==> x in rest || x == v[n] {
          if x in all {
            var k :| 0 <= k < |v| && v[k] == x;
            assert k < n ==> v[..n][k] == x;
          }
          if x in rest {
            var k :| 0 <= k < |v[..n]| && v[..n][k] == x;
            assert v[k] == x;
          }
        }
      }
      assert v[n] !in rest;
    }
  }

  /** What every operation of the manager keeps is accepted by the program's own check. */
  lemma ConsistentIsChecked(s: State)
    requires Consistent(s)
    ensures Checked(s)
  {
    RandomSize(s);
    forall id ensures EntryChecked(s, id) && Housed(s, id) { assert EntryOk(s, id, {}); }
  }

  // ----- The loops of `Check_` -----

  /** Cells come bucket by bucket. */
  ghost predicate Before(b: int, p: int, n: int, i: int) { b < n || (b == n && p < i) }

  /** The references of the new entries. */
  function RefCounts(m: map<int, Info>): map<int, int> { map id | id in m && !m[id].fInTried :: m[id].nRefCount }

  /** The first loop: the entries by themselves. */
  method CheckEntries(s: State) returns (code: int, setTried: set<int>, mapNew: map<int, int>)
    ensures code <= 0 && (code == 0 <==> forall id :: EntryChecked(s, id))
    ensures code == 0 ==> setTried == Ids(s.mapInfo, true) && mapNew == RefCounts(s.mapInfo)
  {
    setTried, mapNew := {}, map[];
    var left := s.mapInfo.Keys;
    while left != {}
      invariant left <= s.mapInfo.Keys
      invariant forall id | id !in left :: EntryChecked(s, id)
      invariant setTried == Ids(s.mapInfo - left, true) && mapNew == RefCounts(s.mapInfo - left)
      decreases left
    {
      assert (forall i :: i !in left) ==> left == {};
      var n :| n in left;
      code := CheckEntry(s, n);
      if code != 0 { return; }
      var info := s.mapInfo[n];
      assert s.mapInfo - (left - {n}) == (s.mapInfo - left)[n := info];
      if info.fInTried {
        setTried := setTried + {n};
      } else {
        mapNew := mapNew[n := info.nRefCount];
      }
      left := left - {n};
    }
    assert s.mapInfo - left == s.mapInfo;
    code := 0;
  }

  method CheckEntry(s: State, n: int) returns (code: int)
    requires n in s.mapInfo
    ensures code <= 0 && (code == 0 <==> EntryChecked(s, n))
  {
    var info := s.mapInfo[n];
    if info.fInTried {
      if info.nLastSuccess == 0 { return -1; }
      if info.nRefCount != 0 { return -2; }
    } else {
      if info.nRefCount < 0 || info.nRefCount > ADDRMAN_NEW_BUCKETS_PER_ADDRESS { return -3; }
      if info.nRefCount == 0 { return -4; }
    }
    if Lookup(s, info.service.ip) != n { return -5; }
    if info.nRandomPos < 0 || info.nRandomPos >= |s.vRandom| || s.vRandom[info.nRandomPos] != n { return -14; }
    if info.nLastTry < 0 { return -6; }
    if info.nLastSuccess < 0 { return -8; }
    return 0;
  }

  /** A tried entry that the second loop has come past, in its slot. */
  ghost predicate Passed(s: State, id: int, n: int, i: int) {
    && id in s.mapInfo && id != -1 && TriedOccupant(s.nKey, s.vvTried, s.mapInfo[id].service) == id
    && Before(GetTriedBucket(s.nKey, s.mapInfo[id].service), TriedPos(s.nKey, s.mapInfo[id].service), n, i)
  }

  /** The tried entries that are still to be found. */
  ghost function Missing(s: State, n: int, i: int): set<int> {
    set id | id in Ids(s.mapInfo, true) && !Passed(s, id, n, i)
  }

  lemma MissingStep(s: State, n: nat, i: nat)
    requires TriedCellOk(s, n, i)
    ensures var id := Cell(s.vvTried, n, i);
            if id == -1 then Missing(s, n, i + 1) == Missing(s, n, i)
            else id in Missing(s, n, i) && Missing(s, n, i + 1) == Missing(s, n, i) - {id}
  {
    var cell := Cell(s.vvTried, n, i);
    forall id | id in Ids(s.mapInfo, true)
      ensures Passed(s, id, n, i + 1) <==> Passed(s, id, n, i) || (id != -1 && id == cell)
    {
      var a := s.mapInfo[id].service;
      assert GetTriedBucket(s.nKey, a) == n && TriedPos(s.nKey, a) == i ==> TriedOccupant(s.nKey, s.vvTried, a) == cell;
    }
  }

  /** One bucket of the second loop. */
  method CheckTriedBucket(s: State, n: nat, setTried: set<int>) returns (code: int, rest: set<int>)
    requires Shapes(s) && n < ADDRMAN_TRIED_BUCKET_COUNT && setTried == Missing(s, n, 0)
    ensures code <= 0 && (code == 0 <==> forall i | 0 <= i < ADDRMAN_BUCKET_SIZE :: TriedCellOk(s, n, i))
    ensures code == 0 ==> rest == Missing(s, n, ADDRMAN_BUCKET_SIZE)
  {
    rest := setTried;
    for i := 0 to ADDRMAN_BUCKET_SIZE
      invariant forall k | 0 <= k < i :: TriedCellOk(s, n, k)
      invariant rest == Missing(s, n, i)
    {
      if TriedCellOk(s, n, i) { MissingStep(s, n, i); }
      if s.vvTried[n][i] != -1 {
        var id := s.vvTried[n][i];
        if id !in rest { return -11, rest; }
        if GetTriedBucket(s.nKey, s.mapInfo[id].service) != n { return -17, rest; }
        if GetBucketPosition(s.nKey, false, n, s.mapInfo[id].service) != i { return -18, rest; }
        rest := rest - {id};
      }
    }
    code := 0;
  }

  /** The second loop: the tried table. */
  method CheckTriedTable(s: State, setTried: set<int>) returns (code: int, rest: set<int>)
    requires Shapes(s) && setTried == Ids(s.mapInfo, true)
    ensures code <= 0 && (code == 0 <==> forall b, p :: TriedCellOk(s, b, p))
    ensures code == 0 ==> (rest == {} <==> forall id | id in Ids(s.mapInfo, true) :: Housed(s, id))
  {
    rest := setTried;
    assert Missing(s, 0, 0) == setTried;
    for n := 0 to ADDRMAN_TRIED_BUCKET_COUNT
      invariant forall b, p | 0 <= b < n && 0 <= p < ADDRMAN_BUCKET_SIZE :: TriedCellOk(s, b, p)
      invariant rest == Missing(s, n, 0)
    {
      code, rest := CheckTriedBucket(s, n, rest);
      if code != 0 { return; }
      assert Missing(s, n, ADDRMAN_BUCKET_SIZE) == Missing(s, n + 1, 0);
    }
    code := 0;
    forall b, p ensures TriedCellOk(s, b, p) {
      if 0 <= b < ADDRMAN_TRIED_BUCKET_COUNT && 0 <= p < ADDRMAN_BUCKET_SIZE {
      } else {
        assert Cell(s.vvTried, b, p) == -1;
      }
    }
    NoneMissing(s);
  }

  lemma NoneMissing(s: State)
    ensures Missing(s, ADDRMAN_TRIED_BUCKET_COUNT, 0) == {} <==> forall id | id in Ids(s.mapInfo, true) :: Housed(s, id)
  {
    forall id | id in Ids(s.mapInfo, true) ensures Housed(s, id) <==> id !in Missing(s, ADDRMAN_TRIED_BUCKET_COUNT, 0) {
    }
    var missing := Missing(s, ADDRMAN_TRIED_BUCKET_COUNT, 0);
    assert (forall id :: id !in missing) ==> missing == {};
  }

  /** The new buckets of an entry that the third loop has come past. */
  ghost function Seen(s: State, id: int, n: int, i: int): set<nat>
    requires id in s.mapInfo
  {
    set b | id != -1 && b in NewBuckets(s.nKey, s.vvNew, s.mapInfo[id].service, id)
      && Before(b, NewPos(s.nKey, b, s.mapInfo[id].service), n, i)
  }

  /** The references of an entry that are still to be found. */
  ghost function Left(s: State, id: int, n: int, i: int): int
    requires id in s.mapInfo
  {
    s.mapInfo[id].nRefCount - |Seen(s, id, n, i)|
  }

  /** What `mapNew` holds after the cells before bucket `n`, position `i`. */
  ghost predicate Tallied(s: State, mapNew: map<int, int>, n: int, i: int) {
    && mapNew.Keys <= Ids(s.mapInfo, false)
    && (forall id | id in Ids(s.mapInfo, false) :: Left(s, id, n, i) == if id in mapNew then mapNew[id] else 0)
    && (forall id | id in mapNew :: mapNew[id] > 0)
  }

  lemma SeenStep(s: State, id: int, n: nat, i: nat)
    requires n < ADDRMAN_NEW_BUCKET_COUNT && id in s.mapInfo && NewCellOk(s, n, i)
    ensures id != Cell(s.vvNew, n, i) || id == -1 ==> Left(s, id, n, i + 1) == Left(s, id, n, i)
    ensures id == Cell(s.vvNew, n, i) != -1 ==> Left(s, id, n, i + 1) == Left(s, id, n, i) - 1
  {
    var was, now := Seen(s, id, n, i), Seen(s, id, n, i + 1);
    if id == Cell(s.vvNew, n, i) && id != -1 {
      assert now == was + {n};
      assert n !in was;
    } else {
      assert now == was;
    }
  }

  /** An entry in a slot further on has more slots than were seen. */
  lemma SeenLess(s: State, id: int, n: nat, i: nat)
    requires n < ADDRMAN_NEW_BUCKET_COUNT && NewCellOk(s, n, i) && id == Cell(s.vvNew, n, i) != -1
    ensures |Seen(s, id, n, i)| < |NewBuckets(s.nKey, s.vvNew, s.mapInfo[id].service, id)|
  {
    var was, all := Seen(s, id, n, i), NewBuckets(s.nKey, s.vvNew, s.mapInfo[id].service, id);
    assert n in all && n !in was;
    SubsetSize(was, all - {n});
  }

  /** `if (--mapNew[id] == 0) mapNew.erase(id)`. */
  function TakeOne(mapNew: map<int, int>, id: int): map<int, int>
    requires id in mapNew
  {
    if mapNew[id] - 1 == 0 then mapNew - {id} else mapNew[id := mapNew[id] - 1]
  }

  lemma TalliedStep(s: State, mapNew: map<int, int>, n: nat, i: nat)
    requires n < ADDRMAN_NEW_BUCKET_COUNT && NewCellOk(s, n, i) && Tallied(s, mapNew, n, i)
    ensures var id := Cell(s.vvNew, n, i);
            if id == -1 then Tallied(s, mapNew, n, i + 1)
            else if id in mapNew then Tallied(s, TakeOne(mapNew, id), n, i + 1)
            else !Housed(s, id)
  {
    var cell := Cell(s.vvNew, n, i);
    forall id | id in Ids(s.mapInfo, false)
      ensures Left(s, id, n, i + 1) == Left(s, id, n, i) - if id == cell && id != -1 then 1 else 0
    {
      SeenStep(s, id, n, i);
    }
    if cell != -1 && cell !in mapNew {
      SeenLess(s, cell, n, i);
      assert Left(s, cell, n, i) == 0;
    }
  }

  /** One bucket of the third loop. */
  method CheckNewBucket(s: State, n: nat, mapNew: map<int, int>) returns (code: int, rest: map<int, int>)
    requires Shapes(s) && n < ADDRMAN_NEW_BUCKET_COUNT && Tallied(s, mapNew, n, 0)
    ensures code <= 0
    ensures code == 0 ==>
            (forall i | 0 <= i < ADDRMAN_BUCKET_SIZE :: NewCellOk(s, n, i)) && Tallied(s, rest, n, ADDRMAN_BUCKET_SIZE)
    ensures code != 0 ==> (exists i :: !NewCellOk(s, n, i)) || (exists id :: !Housed(s, id))
  {
    rest := mapNew;
    for i := 0 to ADDRMAN_BUCKET_SIZE
      invariant forall k | 0 <= k < i :: NewCellOk(s, n, k)
      invariant Tallied(s, rest, n, i)
    {
      if NewCellOk(s, n, i) { TalliedStep(s, rest, n, i); }
      if s.vvNew[n][i] != -1 {
        var id := s.vvNew[n][i];
        if id !in rest { return -12, rest; }
        if GetBucketPosition(s.nKey, true, n, s.mapInfo[id].service) != i { return -19, rest; }
        rest := TakeOne(rest, id);
      }
    }
    code := 0;
  }

  lemma TalliedNextRow(s: State, mapNew: map<int, int>, n: nat)
    requires Tallied(s, mapNew, n, ADDRMAN_BUCKET_SIZE)
    ensures Tallied(s, mapNew, n + 1, 0)
  {
    forall id | id in Ids(s.mapInfo, false) ensures Left(s, id, n + 1, 0) == Left(s, id, n, ADDRMAN_BUCKET_SIZE) {
      assert Seen(s, id, n + 1, 0) == Seen(s, id, n, ADDRMAN_BUCKET_SIZE);
    }
  }

  /** At the end nothing is left of `mapNew` just when every new entry has all its references. */
  lemma TalliedAll(s: State, mapNew: map<int, int>)
    requires Tallied(s, mapNew, ADDRMAN_NEW_BUCKET_COUNT, 0)
    requires forall id | id in Ids(s.mapInfo, false) :: s.mapInfo[id].nRefCount > 0
    ensures mapNew == map[] <==> forall id | id in Ids(s.mapInfo, false) :: Housed(s, id)
  {
    forall id | id in Ids(s.mapInfo, false) ensures Housed(s, id) <==> id !in mapNew {
      if id == -1 {
        assert Seen(s, id, ADDRMAN_NEW_BUCKET_COUNT, 0) == {};
      } else {
        assert Seen(s, id, ADDRMAN_NEW_BUCKET_COUNT, 0) == NewBuckets(s.nKey, s.vvNew, s.mapInfo[id].service, id);
      }
    }
    assert (forall id :: id !in mapNew) ==> mapNew == map[];
  }

  /** The third loop: the new table. */
  method CheckNewTable(s: State, mapNew: map<int, int>) returns (code: int, rest: map<int, int>)
    requires Shapes(s) && mapNew == RefCounts(s.mapInfo)
    requires forall id | id in Ids(s.mapInfo, false) :: s.mapInfo[id].nRefCount > 0
    ensures code <= 0
    ensures code == 0 ==> forall b, p :: NewCellOk(s, b, p)
    ensures code == 0 ==> (rest == map[] <==> forall id | id in Ids(s.mapInfo, false) :: Housed(s, id))
    ensures code != 0 ==> !Celled(s) || exists id :: !Housed(s, id)
  {
    rest := mapNew;
    forall id | id in Ids(s.mapInfo, false) ensures Left(s, id, 0, 0) == s.mapInfo[id].nRefCount {
      assert Seen(s, id, 0, 0) == {};
    }
    for n := 0 to ADDRMAN_NEW_BUCKET_COUNT
      invariant forall b, p | 0 <= b < n && 0 <= p < ADDRMAN_BUCKET_SIZE :: NewCellOk(s, b, p)
      invariant Tallied(s, rest, n, 0)
    {
      code, rest := CheckNewBucket(s, n, rest);
      if code != 0 { return; }
      TalliedNextRow(s, rest, n);
    }
    code := 0;
    forall b, p ensures NewCellOk(s, b, p) {
      if 0 <= b < ADDRMAN_NEW_BUCKET_COUNT && 0 <= p < ADDRMAN_BUCKET_SIZE {
      } else {
        assert Cell(s.vvNew, b, p) == -1;
      }
    }
    TalliedAll(s, rest);
  }

  /** `Check_` returns 0 exactly for the states that satisfy `Checked`. */
  method Check(s: State) returns (code: int)
    requires Shapes(s)
    ensures code <= 0 && (code == 0 <==> Checked(s))
    ensures Consistent(s) ==> code == 0
  {
    if Consistent(s) { ConsistentIsChecked(s); }
    if |s.vRandom| != s.nTried + s.nNew { return -7; }
    var setTried, mapNew;
    code, setTried, mapNew := CheckEntries(s);
    if code != 0 { return; }
    if |setTried| != s.nTried { return -9; }
    assert mapNew.Keys == Ids(s.mapInfo, false);
    if |mapNew.Keys| != s.nNew { return -10; }
    code, setTried := CheckTriedTable(s, setTried);
    if code != 0 { return; }
    forall id | id in Ids(s.mapInfo, false) ensures s.mapInfo[id].nRefCount > 0 { assert EntryChecked(s, id); }
    code, mapNew := CheckNewTable(s, mapNew);
    if code != 0 { return; }
    if |setTried| != 0 { return -13; }
    if |mapNew| != 0 { return -15; }
    forall id
      ensures Housed(s, id)
    {
      assert id in s.mapInfo ==> id in Ids(s.mapInfo, true) || id in Ids(s.mapInfo, false);
    }
  }
}
