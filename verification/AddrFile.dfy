/**
 Writing the address manager to a file and reading it back (`Serialize` and `Unserialize` in `src/addrman.h`),
 at the level of the values in the file.  Reading back what was written, under the same asmap, restores the
 same new and tried addresses; every new entry comes back with one reference, in a bucket that held it before.
 */
module AddrFile {
  import opened Basics
  import opened AddrTables

  const V1_DETERMINISTIC := 1
  const V2_ASMAP := 2
  const V3_BIP155 := 3
  const FILE_FORMAT := V3_BIP155

  /** What is written of an entry. */
  datatype Stored = Stored(service: Service, nTime: int, nServices: set<nat>, source: NetAddr, nLastSuccess: int,
                           nAttempts: int)

  function Data(i: Info): Stored { Stored(i.service, i.nTime, i.nServices, i.source, i.nLastSuccess, i.nAttempts) }

  /**
   The values of a file, in order: the format, the lowest compatible format, the key, the new and the tried
   entries, for each new bucket the indexes of its entries, and the version of the asmap.
   */
  datatype File = File(
    format: nat,
    lowestCompatible: nat,
    nKey: Key,
    newEntries: seq<Stored>,
    triedEntries: seq<Stored>,
    buckets: seq<seq<int>>,
    asmapVersion: nat)

  /** Each of a set of ids once, in some order. */
  ghost predicate Enumerates(ids: seq<int>, s: set<int>) {
    && (forall j, k | 0 <= j < k < |ids| :: ids[j] != ids[k])
    && (forall id :: id in ids <==> id in s)
    && |ids| == |s|
  }

  ghost predicate EntriesOf(s: State, ids: seq<int>, entries: seq<Stored>) {
    |entries| == |ids| && forall j | 0 <= j < |ids| :: ids[j] in s.mapInfo && entries[j] == Data(s.mapInfo[ids[j]])
  }

  /** The indexes of the entries of a new bucket. */
  ghost predicate BucketOf(s: State, ids: seq<int>, b: nat, indexes: seq<int>) {
    forall j :: j in indexes <==>
      0 <= j < |ids| && ids[j] in s.mapInfo && b in NewBuckets(s.nKey, s.vvNew, s.mapInfo[ids[j]].service, ids[j])
  }

  /** A file that holds a state. */
  ghost predicate Written(s: State, newIds: seq<int>, triedIds: seq<int>, file: File) {
    && Enumerates(newIds, Ids(s.mapInfo, false)) && Enumerates(triedIds, Ids(s.mapInfo, true))
    && file.format == FILE_FORMAT && file.lowestCompatible == V3_BIP155 && file.nKey == s.nKey
    && EntriesOf(s, newIds, file.newEntries) && EntriesOf(s, triedIds, file.triedEntries)
    && |file.buckets| == ADDRMAN_NEW_BUCKET_COUNT
    && (forall b | 0 <= b < |file.buckets| :: BucketOf(s, newIds, b, file.buckets[b]))
  }

  lemma EnumeratesMore(ids: seq<int>, s: set<int>, id: int)
    requires Enumerates(ids, s) && id !in s
    ensures Enumerates(ids + [id], s + {id})
  {
    assert id !in ids;
  }

  // ----- Writing -----

  /** The positions at which the new entries are written. */
  ghost predicate Numbered(mapUnkIds: map<int, int>, newIds: seq<int>) {
    forall j | 0 <= j < |newIds| :: newIds[j] in mapUnkIds && mapUnkIds[newIds[j]] == j
  }

  /** The entries with references, in some order, and their numbers. */
  method WriteNew(s: State) returns (entries: seq<Stored>, mapUnkIds: map<int, int>, ghost newIds: seq<int>)
    requires Consistent(s)
    ensures Enumerates(newIds, Ids(s.mapInfo, false)) && EntriesOf(s, newIds, entries) && Numbered(mapUnkIds, newIds)
  {
    entries, mapUnkIds, newIds := [], map[], [];
    var left := s.mapInfo.Keys;
    while left != {}
      invariant left <= s.mapInfo.Keys && mapUnkIds.Keys == s.mapInfo.Keys - left
      invariant Enumerates(newIds, Ids(s.mapInfo - left, false)) && EntriesOf(s, newIds, entries)
                && Numbered(mapUnkIds, newIds)
      decreases left
    {
      assert (forall i :: i !in left) ==> left == {};
      var n :| n in left;
      mapUnkIds := mapUnkIds[n := |entries|];
      var info := s.mapInfo[n];
      ghost var done := s.mapInfo - left;
      assert EntryOk(s, n, {});
      assert s.mapInfo - (left - {n}) == done[n := info];
      if info.nRefCount != 0 {
        assert Ids(done[n := info], false) == Ids(done, false) + {n};
        EnumeratesMore(newIds, Ids(done, false), n);
        IdsUpdate(done, n, info, false);
        IdsOfPart(s.mapInfo, done[n := info], false);
        assert |entries| != s.nNew;
        entries, newIds := entries + [Data(info)], newIds + [n];
      } else {
        assert Ids(done[n := info], false) == Ids(done, false);
      }
      left := left - {n};
    }
    assert s.mapInfo - left == s.mapInfo;
  }

  lemma IdsOfPart(m: map<int, Info>, part: map<int, Info>, tried: bool)
    requires part.Keys <= m.Keys && forall id | id in part :: part[id] == m[id]
    ensures |Ids(part, tried)| <= |Ids(m, tried)|
  {
    forall id | id in Ids(part, tried) ensures id in Ids(m, tried) { assert part[id] == m[id]; }
    SubsetSize(Ids(part, tried), Ids(m, tried));
  }

  /** The entries of the tried table, in some order. */
  method WriteTried(s: State) returns (entries: seq<Stored>, ghost triedIds: seq<int>)
    requires Consistent(s)
    ensures Enumerates(triedIds, Ids(s.mapInfo, true)) && EntriesOf(s, triedIds, entries)
  {
    entries, triedIds := [], [];
    var left := s.mapInfo.Keys;
    while left != {}
      invariant left <= s.mapInfo.Keys
      invariant Enumerates(triedIds, Ids(s.mapInfo - left, true)) && EntriesOf(s, triedIds, entries)
      decreases left
    {
      assert (forall i :: i !in left) ==> left == {};
      var n :| n in left;
      var info := s.mapInfo[n];
      ghost var done := s.mapInfo - left;
      assert s.mapInfo - (left - {n}) == done[n := info];
      if info.fInTried {
        assert Ids(done[n := info], true) == Ids(done, true) + {n};
        EnumeratesMore(triedIds, Ids(done, true), n);
        IdsUpdate(done, n, info, true);
        IdsOfPart(s.mapInfo, done[n := info], true);
        assert |entries| != s.nTried;
        entries, triedIds := entries + [Data(info)], triedIds + [n];
      } else {
        assert Ids(done[n := info], true) == Ids(done, true);
      }
      left := left - {n};
    }
    assert s.mapInfo - left == s.mapInfo;
  }

  /** The indexes of the entries of one bucket. */
  method WriteBucket(s: State, b: nat, mapUnkIds: map<int, int>, ghost newIds: seq<int>) returns (indexes: seq<int>)
    requires Consistent(s) && b < ADDRMAN_NEW_BUCKET_COUNT
    requires Enumerates(newIds, Ids(s.mapInfo, false)) && Numbered(mapUnkIds, newIds)
    ensures BucketOf(s, newIds, b, indexes)
  {
    indexes := [];
    for i := 0 to ADDRMAN_BUCKET_SIZE
      invariant forall j :: j in indexes <==> 0 <= j < |newIds| && HeldBefore(s, newIds[j], b, i)
    {
      assert NewCellOk(s, b, i) && EntryOk(s, -1, {});
      if s.vvNew[b][i] != -1 {
        var id := s.vvNew[b][i];
        assert id in newIds;
        indexes := indexes + [mapUnkIds[id]];
      }
    }
  }

  /** An entry has a slot in a bucket, before a position. */
  ghost predicate HeldBefore(s: State, id: int, b: nat, i: int) {
    && id in s.mapInfo && b in NewBuckets(s.nKey, s.vvNew, s.mapInfo[id].service, id)
    && NewPos(s.nKey, b, s.mapInfo[id].service) < i
  }

  /** `Serialize`. */
  method Serialize(s: State, asmapVersion: nat) returns (file: File, ghost newIds: seq<int>, ghost triedIds: seq<int>)
    requires Consistent(s)
    ensures Written(s, newIds, triedIds, file) && file.asmapVersion == asmapVersion
  {
    var newEntries, mapUnkIds, triedEntries;
    newEntries, mapUnkIds, newIds := WriteNew(s);
    triedEntries, triedIds := WriteTried(s);
    var buckets: seq<seq<int>> := [];
    for bucket := 0 to ADDRMAN_NEW_BUCKET_COUNT
      invariant |buckets| == bucket
      invariant forall b | 0 <= b < bucket :: BucketOf(s, newIds, b, buckets[b])
    {
      var indexes := WriteBucket(s, bucket, mapUnkIds, newIds);
      buckets := buckets + [indexes];
    }
    file := File(FILE_FORMAT, V3_BIP155, s.nKey, newEntries, triedEntries, buckets, asmapVersion);
  }

  // ----- Reading -----

  /** The entries that have neither a reference nor a tried slot yet. */
  ghost function Unplaced(m: map<int, Info>): set<int> { set id | id in m && !m[id].fInTried && m[id].nRefCount == 0 }

  /** Ids and random positions are 0, 1, 2, ... */
  ghost predicate Consecutive(s: State, k: nat) {
    && Shapes(s) && s.nIdCount == k == |s.vRandom|
    && (forall id :: id in s.mapInfo <==> 0 <= id < k)
    && (forall id | 0 <= id < k :: s.vRandom[id] == id && s.mapInfo[id].nRandomPos == id)
  }

  /** The first `k` entries have been read; those from `n` on are tried ones. */
  ghost predicate Read(s: State, entries: seq<Stored>, n: nat, k: nat) {
    && Consecutive(s, k) && k <= |entries|
    && forall id | 0 <= id < k ::
         Data(s.mapInfo[id]) == entries[id] && s.mapInfo[id].fInTried == (id >= n) && s.mapInfo[id].nRefCount == 0
  }

  predicate SameSlot(k: Key, a: Service, b: Service) {
    GetTriedBucket(k, a) == GetTriedBucket(k, b) && TriedPos(k, a) == TriedPos(k, b)
  }

  /** Entries, of which those from `n` on are tried: no address is there twice, and the tried ones have succeeded. */
  ghost predicate Sound(entries: seq<Stored>, n: nat) {
    && (forall i, j | 0 <= i < j < |entries| :: entries[i].service.ip != entries[j].service.ip)
    && (forall i | 0 <= i < |entries| :: entries[i].nLastSuccess >= if i < n then 0 else 1)
  }

  /** And no two of the tried ones want the same slot. */
  ghost predicate Storable(k: Key, entries: seq<Stored>, n: nat) {
    Sound(entries, n) && forall i, j | n <= i < j < |entries| :: !SameSlot(k, entries[i].service, entries[j].service)
  }

  /** `mapInfo[n]`, `mapAddr`, `vRandom` after reading one more entry. */
  function Append(s: State, e: Stored): State {
    var r := Create(s, e.service, e.source, e.nTime, e.nServices);
    SetInfo(r, s.nIdCount, r.mapInfo[s.nIdCount].(nLastSuccess := e.nLastSuccess, nAttempts := e.nAttempts))
  }

  lemma NotYetKnown(s: State, entries: seq<Stored>, n: nat, k: nat)
    requires Indexed(s) && Read(s, entries, n, k) && k < |entries| && Sound(entries, n)
    ensures entries[k].service.ip !in s.mapAddr
  {
    forall ip | ip in s.mapAddr ensures ip != entries[k].service.ip {
      assert AddrOk(s, ip);
      assert Data(s.mapInfo[s.mapAddr[ip]]) == entries[s.mapAddr[ip]];
    }
  }

  lemma AppendKeeps(s: State, entries: seq<Stored>, n: nat, k: nat, uncounted: nat)
    requires Read(s, entries, n, k) && k < |entries| && Sound(entries, n)
    requires Partial(s, Unplaced(s.mapInfo), uncounted)
    ensures Partial(Append(s, entries[k]), Unplaced(Append(s, entries[k]).mapInfo), uncounted + 1)
    ensures Unplaced(Append(s, entries[k]).mapInfo) == Unplaced(s.mapInfo) + {k}
  {
    var e, idle := entries[k], Unplaced(s.mapInfo);
    NotYetKnown(s, entries, n, k);
    CreateKeeps(s, e.service, e.source, e.nTime, e.nServices, idle, uncounted);
    var r := Create(s, e.service, e.source, e.nTime, e.nServices);
    SetInfoKeeps(r, k, r.mapInfo[k].(nLastSuccess := e.nLastSuccess, nAttempts := e.nAttempts), idle + {k},
                 uncounted + 1);
    assert Unplaced(Append(s, e).mapInfo) == idle + {k};
  }

  function EmptyState(k: Key): State {
    State(k, 0, map[], map[], [], 0, EmptyTable(ADDRMAN_TRIED_BUCKET_COUNT), 0, EmptyTable(ADDRMAN_NEW_BUCKET_COUNT))
  }

  lemma EmptyStateConsistent(k: Key)
    ensures Consistent(EmptyState(k))
  {
    assert Ids(EmptyState(k).mapInfo, true) == {} && Ids(EmptyState(k).mapInfo, false) == {};
  }

  /** The entries of the new table, without references yet. */
  method ReadNew(k: Key, newEntries: seq<Stored>, ghost entries: seq<Stored>) returns (s: State)
    requires newEntries <= entries
    ensures Consecutive(s, |newEntries|) && s.nKey == k && s.vvNew == EmptyTable(ADDRMAN_NEW_BUCKET_COUNT)
            && s.nNew == 0
    ensures Sound(entries, |newEntries|) ==>
              Read(s, entries, |newEntries|, |newEntries|) && Partial(s, Unplaced(s.mapInfo), |newEntries|)
  {
    s := EmptyState(k);
    EmptyStateConsistent(k);
    ghost var N := |newEntries|;
    assert Unplaced(s.mapInfo) == {};
    for n := 0 to |newEntries|
      invariant Consecutive(s, n) && s.nKey == k && s.vvNew == EmptyTable(ADDRMAN_NEW_BUCKET_COUNT) && s.nNew == 0
      invariant Sound(entries, N) ==> Read(s, entries, N, n) && Partial(s, Unplaced(s.mapInfo), n)
    {
      if Sound(entries, N) {
        AppendKeeps(s, entries, N, n, n);
      }
      s := Append(s, newEntries[n]);
    }
  }

  lemma SlotFree(s: State, entries: seq<Stored>, n: nat, k: nat, idle: set<int>)
    requires Structure(s, idle) && Read(s, entries, n, k) && n <= k < |entries| && Storable(s.nKey, entries, n)
    ensures TriedOccupant(s.nKey, s.vvTried, entries[k].service) == -1
  {
    var a := entries[k].service;
    var id := TriedOccupant(s.nKey, s.vvTried, a);
    assert TriedCellOk(s, GetTriedBucket(s.nKey, a), TriedPos(s.nKey, a));
    if id != -1 {
      assert Data(s.mapInfo[id]) == entries[id];
      assert SameSlot(s.nKey, entries[id].service, entries[k].service);
    }
  }

  /** One more tried entry in its slot. */
  function AppendTried(s: State, e: Stored): State
    requires Shapes(s)
  {
    EnterTried(Append(s, e), s.nIdCount)
  }

  lemma AppendTriedRead(s: State, entries: seq<Stored>, n: nat, k: nat)
    requires Read(s, entries, n, k) && n <= k < |entries|
    ensures Read(AppendTried(s, entries[k]), entries, n, k + 1)
    ensures Unplaced(AppendTried(s, entries[k]).mapInfo) == Unplaced(s.mapInfo)
  {
  }

  lemma AppendTriedKeeps(s: State, entries: seq<Stored>, n: nat, k: nat, uncounted: nat)
    requires Read(s, entries, n, k) && n <= k < |entries| && Sound(entries, n)
    requires TriedOccupant(s.nKey, s.vvTried, entries[k].service) == -1
    requires Partial(s, Unplaced(s.mapInfo), uncounted)
    ensures Partial(AppendTried(s, entries[k]), Unplaced(s.mapInfo), uncounted)
  {
    var idle := Unplaced(s.mapInfo);
    AppendKeeps(s, entries, n, k, uncounted);
    EnterTriedKeeps(Append(s, entries[k]), k, idle + {k}, uncounted + 1);
    assert idle + {k} - {k} == idle;
  }

  ghost predicate ReadSoFar(s: State, entries: seq<Stored>, n: nat, k: nat) {
    Sound(entries, n) && Read(s, entries, n, k) && Partial(s, Unplaced(s.mapInfo), n)
  }

  /** One entry of the tried table; if its slot is taken it is lost. */
  method ReadOneTried(s: State, info: Stored, ghost n: nat, ghost k: nat, ghost entries: seq<Stored>)
    returns (r: State, lost: bool)
    requires Consecutive(s, k)
    ensures Consecutive(r, if lost then k else k + 1) && r.nKey == s.nKey && r.vvNew == s.vvNew && r.nNew == s.nNew
    ensures lost ==> r == s
    ensures n <= k < |entries| && info == entries[k] && ReadSoFar(s, entries, n, k) ==>
              && (lost || ReadSoFar(r, entries, n, k + 1))
              && (Storable(s.nKey, entries, n) ==> !lost)
  {
    var nKBucket := GetTriedBucket(s.nKey, info.service);
    var nKBucketPos := GetBucketPosition(s.nKey, false, nKBucket, info.service);
    lost := s.vvTried[nKBucket][nKBucketPos] != -1;
    if n <= k < |entries| && info == entries[k] && ReadSoFar(s, entries, n, k) {
      if lost {
        if Storable(s.nKey, entries, n) { SlotFree(s, entries, n, k, Unplaced(s.mapInfo)); }
      } else {
        AppendTriedRead(s, entries, n, k);
        AppendTriedKeeps(s, entries, n, k, n);
      }
    }
    r := if lost then s else AppendTried(s, info);
  }

  /** Some of the tried entries are left out. */
  ghost predicate Thinned(entries: seq<Stored>, kept: seq<Stored>, n: nat) {
    n <= |kept| <= |entries| && kept[..n] == entries[..n] && forall i | n <= i < |kept| :: kept[i] in entries[n..]
  }

  lemma WithoutOne(entries: seq<Stored>, n: nat, k: nat) returns (kept: seq<Stored>)
    requires n <= k < |entries|
    ensures kept == entries[..k] + entries[k + 1..] && kept[k..] == entries[k + 1..]
    ensures Thinned(entries, kept, n) && (Sound(entries, n) ==> Sound(kept, n))
  {
    kept := entries[..k] + entries[k + 1..];
    forall i | 0 <= i < |kept| ensures kept[i] == entries[if i < k then i else i + 1] {
    }
    forall i | n <= i < |kept| ensures kept[i] in entries[n..] {
      var j := if i < k then i else i + 1;
      assert entries[n..][j - n] == entries[j];
    }
  }

  lemma ThinnedAgain(entries: seq<Stored>, kept: seq<Stored>, fewer: seq<Stored>, n: nat)
    requires Thinned(entries, kept, n) && Thinned(kept, fewer, n)
    ensures Thinned(entries, fewer, n)
  {
    forall i | n <= i < |fewer| ensures fewer[i] in entries[n..] {
      var j :| 0 <= j < |kept[n..]| && kept[n..][j] == fewer[i];
      assert kept[n + j] == fewer[i];
    }
  }

  /** A lost entry changes nothing that has been read. */
  lemma ReadWithoutOne(s: State, entries: seq<Stored>, kept: seq<Stored>, n: nat, k: nat)
    requires n <= k < |entries| && kept == entries[..k] + entries[k + 1..] && (Sound(entries, n) ==> Sound(kept, n))
    ensures ReadSoFar(s, entries, n, k) ==> ReadSoFar(s, kept, n, k)
  {
    assert forall i | 0 <= i < k :: kept[i] == entries[i];
  }

  /** Of the entries, `kept` are those that are not lost so far, and the first `k` of these have been read. */
  ghost predicate TriedRead(s0: State, s: State, entries: seq<Stored>, kept: seq<Stored>, n: nat, k: nat) {
    && k <= |kept| && Thinned(entries, kept, n)
    && Consecutive(s, k) && s.nKey == s0.nKey && s.vvNew == s0.vvNew && s.nNew == s0.nNew
    && (ReadSoFar(s0, entries, n, n) ==> ReadSoFar(s, kept, n, k))
    && (ReadSoFar(s0, entries, n, n) && Storable(s0.nKey, entries, n) ==> kept == entries)
  }

  /** What is left of a list from position `k` on. */
  ghost predicate Ahead(kept: seq<Stored>, k: nat, rest: seq<Stored>) {
    k + |rest| == |kept| && kept[k..] == rest
  }

  /** One turn of the loop over the tried entries. */
  method ReadNextTried(ghost s0: State, s: State, info: Stored, ghost entries: seq<Stored>, ghost kept: seq<Stored>,
                       ghost n: nat, ghost k: nat, ghost rest: seq<Stored>)
    returns (r: State, lost: bool, ghost fewer: seq<Stored>)
    requires TriedRead(s0, s, entries, kept, n, k) && n <= k && Ahead(kept, k, [info] + rest)
    ensures TriedRead(s0, r, entries, fewer, n, if lost then k else k + 1)
    ensures Ahead(fewer, if lost then k else k + 1, rest)
  {
    assert kept[k] == ([info] + rest)[0];
    r, lost := ReadOneTried(s, info, n, k, kept);
    fewer := kept;
    if lost {
      fewer := WithoutOne(kept, n, k);
      ReadWithoutOne(s, kept, fewer, n, k);
      ThinnedAgain(entries, kept, fewer, n);
    }
  }

  /** The entries of the tried table, without those that are lost. */
  method ReadTried(s0: State, n: nat, triedEntries: seq<Stored>, ghost entries: seq<Stored>)
    returns (s: State, nLost: nat, ghost kept: seq<Stored>)
    requires Consecutive(s0, n) && n + |triedEntries| == |entries| && entries[n..] == triedEntries
    ensures nLost <= |triedEntries| && |kept| == |entries| - nLost && TriedRead(s0, s, entries, kept, n, |kept|)
  {
    s, nLost, kept := s0, 0, entries;
    ghost var k := n;
    for t := 0 to |triedEntries|
      invariant n <= k && k + nLost == n + t && Ahead(kept, k, triedEntries[t..])
      invariant TriedRead(s0, s, entries, kept, n, k)
    {
      ghost var rest := triedEntries[t + 1..];
      assert triedEntries[t..] == [triedEntries[t]] + rest;
      var lost;
      s, lost, kept := ReadNextTried(s0, s, triedEntries[t], entries, kept, n, k, rest);
      if lost { nLost := nLost + 1; } else { k := k + 1; }
    }
  }

  /** For each index that some bucket names, the last such bucket. */
  ghost predicate BucketsOf(entryToBucket: map<int, int>, buckets: seq<seq<int>>, n: nat) {
    && (forall j | j in entryToBucket ::
          0 <= j < n && 0 <= entryToBucket[j] < |buckets| && j in buckets[entryToBucket[j]])
    && (forall b, j | 0 <= b < |buckets| && j in buckets[b] && 0 <= j < n ::
          j in entryToBucket && b <= entryToBucket[j])
  }

  /** The buckets of the entries; for an entry in several of them, the last. */
  method ReadBuckets(buckets: seq<seq<int>>, n: nat) returns (entryToBucket: map<int, int>)
    ensures BucketsOf(entryToBucket, buckets, n)
  {
    entryToBucket := map[];
    for bucket := 0 to |buckets|
      invariant forall j | j in entryToBucket ::
                0 <= j < n && 0 <= entryToBucket[j] < bucket && j in buckets[entryToBucket[j]]
      invariant forall b, j | 0 <= b < bucket && j in buckets[b] && 0 <= j < n ::
                  j in entryToBucket && b <= entryToBucket[j]
    {
      entryToBucket := ReadBucket(buckets, bucket, n, entryToBucket);
    }
  }

  method ReadBucket(buckets: seq<seq<int>>, bucket: nat, n: nat, entryToBucket: map<int, int>)
    returns (r: map<int, int>)
    requires bucket < |buckets|
    ensures forall j :: j in r <==> j in entryToBucket || (j in buckets[bucket] && 0 <= j < n)
    ensures forall j | j in r :: r[j] == if j in buckets[bucket] && 0 <= j < n then bucket else entryToBucket[j]
  {
    r := entryToBucket;
    var indexes := buckets[bucket];
    for i := 0 to |indexes|
      invariant forall j :: j in r <==> j in entryToBucket || (j in indexes[..i] && 0 <= j < n)
      invariant forall j | j in r :: r[j] == if j in indexes[..i] && 0 <= j < n then bucket else entryToBucket[j]
    {
      var nIndex := indexes[i];
      assert indexes[..i + 1] == indexes[..i] + [nIndex];
      if 0 <= nIndex < n {
        r := r[nIndex := bucket];
      }
    }
    assert indexes[..|indexes|] == indexes;
  }

  /** No two entries want the same slot of the new table. */
  ghost predicate Compatible(k: Key, entries: seq<Stored>, n: nat, entryToBucket: map<int, int>)
    requires n <= |entries|
  {
    && (forall j | 0 <= j < n :: j in entryToBucket && 0 <= entryToBucket[j] < ADDRMAN_NEW_BUCKET_COUNT)
    && (forall i, j | 0 <= i < j < n && entryToBucket[i] == entryToBucket[j] ::
          NewPos(k, entryToBucket[i], entries[i].service) != NewPos(k, entryToBucket[j], entries[j].service))
  }

  /** All entries are read, and the first `k` new ones have their reference. */
  ghost predicate Placed(s: State, entries: seq<Stored>, n: nat, k: nat, entryToBucket: map<int, int>) {
    && Consecutive(s, |entries|) && k <= n <= |entries|
    && (forall id | 0 <= id < |entries| :: Data(s.mapInfo[id]) == entries[id] && s.mapInfo[id].fInTried == (id >= n))
    && (forall id | 0 <= id < n :: s.mapInfo[id].nRefCount == if id < k then 1 else 0)
    && (forall b, p :: InItsBucket(s, k, entryToBucket, b, p))
  }

  ghost predicate InItsBucket(s: State, k: nat, entryToBucket: map<int, int>, b: int, p: int) {
    var id := Cell(s.vvNew, b, p);
    id != -1 ==> 0 <= id < k && id in entryToBucket && entryToBucket[id] == b
  }

  /** The slot that an entry wants is free. */
  lemma WantedSlotFree(s: State, entries: seq<Stored>, n: nat, k: nat, entryToBucket: map<int, int>)
    requires Celled(s) && Placed(s, entries, n, k, entryToBucket) && k < n
             && Compatible(s.nKey, entries, n, entryToBucket)
    ensures Cell(s.vvNew, entryToBucket[k], NewPos(s.nKey, entryToBucket[k], entries[k].service)) == -1
  {
    var b := entryToBucket[k];
    var p := NewPos(s.nKey, b, entries[k].service);
    assert NewCellOk(s, b, p) && InItsBucket(s, k, entryToBucket, b, p);
    var id := Cell(s.vvNew, b, p);
    assert id != -1 ==> 0 <= id < k && Data(s.mapInfo[id]).service == entries[id].service;
  }

  lemma PlacedNext(s: State, entries: seq<Stored>, n: nat, k: nat, entryToBucket: map<int, int>)
    requires Placed(s, entries, n, k, entryToBucket) && k < n && k in entryToBucket
             && 0 <= entryToBucket[k] < ADDRMAN_NEW_BUCKET_COUNT
    ensures Data(s.mapInfo[k]) == entries[k]
    ensures Placed(PutNew(s, entryToBucket[k], NewPos(s.nKey, entryToBucket[k], entries[k].service), k), entries, n,
                   k + 1, entryToBucket)
  {
    var b := entryToBucket[k];
    var pos := NewPos(s.nKey, b, entries[k].service);
    var r, next := PutNew(s, b, pos, k), k + 1;
    forall c, q ensures InItsBucket(r, next, entryToBucket, c, q) {
      assert InItsBucket(s, k, entryToBucket, c, q);
      CellAfter(s.vvNew, b, pos, k, c, q);
    }
  }

  lemma PlaceKeeps(s: State, b: nat, id: int, uncounted: nat)
    requires Partial(s, Unplaced(s.mapInfo), uncounted) && id in Unplaced(s.mapInfo) && b < ADDRMAN_NEW_BUCKET_COUNT
    requires Cell(s.vvNew, b, NewPos(s.nKey, b, s.mapInfo[id].service)) == -1
    ensures var r := PutNew(s, b, NewPos(s.nKey, b, s.mapInfo[id].service), id);
            Partial(r, Unplaced(r.mapInfo), uncounted)
  {
    PutNewKeeps(s, b, id, Unplaced(s.mapInfo), uncounted);
    var r := PutNew(s, b, NewPos(s.nKey, b, s.mapInfo[id].service), id);
    assert Unplaced(r.mapInfo) == Unplaced(s.mapInfo) - {id};
  }

  ghost predicate PlacedSoFar(s: State, entries: seq<Stored>, n: nat, k: nat, entryToBucket: map<int, int>) {
    && Placed(s, entries, n, k, entryToBucket) && Compatible(s.nKey, entries, n, entryToBucket)
    && Partial(s, Unplaced(s.mapInfo), n)
  }

  /** All entries are read, and those of the new ones from `k` on have no reference yet. */
  ghost predicate Assigned(s: State, entries: seq<Stored>, n: nat, k: nat) {
    && Consecutive(s, |entries|) && k <= n <= |entries|
    && (forall id | 0 <= id < |entries| :: Data(s.mapInfo[id]) == entries[id] && s.mapInfo[id].fInTried == (id >= n))
    && (forall id | k <= id < n :: s.mapInfo[id].nRefCount == 0)
    && Partial(s, Unplaced(s.mapInfo), n)
  }

  lemma AssignedNext(s: State, entries: seq<Stored>, n: nat, k: nat, b: nat)
    requires Assigned(s, entries, n, k) && k < n && b < ADDRMAN_NEW_BUCKET_COUNT
    ensures Assigned(s, entries, n, k + 1)
    ensures Cell(s.vvNew, b, NewPos(s.nKey, b, s.mapInfo[k].service)) == -1 ==>
              Assigned(PutNew(s, b, NewPos(s.nKey, b, s.mapInfo[k].service), k), entries, n, k + 1)
  {
    if Cell(s.vvNew, b, NewPos(s.nKey, b, s.mapInfo[k].service)) == -1 { PlaceKeeps(s, b, k, n); }
  }

  /**
   A reference for one new entry: where it was, if that can be used, or else where its source puts it, if that
   is free.
   */
  method PlaceOne(s: State, id: nat, entryToBucket: map<int, int>, usable: bool, ghost size: nat,
                  ghost entries: seq<Stored>, ghost kept: seq<Stored>, ghost n: nat)
    returns (r: State)
    requires Consecutive(s, size) && id < size
    requires forall j | j in entryToBucket ::
             0 <= entryToBucket[j] && (usable ==> entryToBucket[j] < ADDRMAN_NEW_BUCKET_COUNT)
    ensures Consecutive(r, size) && r.nKey == s.nKey && r.nNew == s.nNew && r.vvTried == s.vvTried
            && r.nTried == s.nTried
    ensures usable && id < n && PlacedSoFar(s, entries, n, id, entryToBucket) ==>
            PlacedSoFar(r, entries, n, id + 1, entryToBucket)
    ensures id < n && Assigned(s, kept, n, id) ==> Assigned(r, kept, n, id + 1)
  {
    if usable && id < n && PlacedSoFar(s, entries, n, id, entryToBucket) {
      WantedSlotFree(s, entries, n, id, entryToBucket);
      PlacedNext(s, entries, n, id, entryToBucket);
      PlaceKeeps(s, entryToBucket[id], id, n);
    }
    var info := s.mapInfo[id];
    var bucket: nat := if id in entryToBucket then entryToBucket[id] else 0;
    var nUBucketPos := GetBucketPosition(s.nKey, true, bucket, info.service);
    if usable && id < n && Assigned(s, kept, n, id) { AssignedNext(s, kept, n, id, bucket); }
    if usable && s.vvNew[bucket][nUBucketPos] == -1 && info.nRefCount < ADDRMAN_NEW_BUCKETS_PER_ADDRESS {
      return PutNew(s, bucket, nUBucketPos, id);
    }
    bucket := GetNewBucket(s.nKey, info.service, info.source);
    nUBucketPos := GetBucketPosition(s.nKey, true, bucket, info.service);
    if id < n && Assigned(s, kept, n, id) { AssignedNext(s, kept, n, id, bucket); }
    r := if s.vvNew[bucket][nUBucketPos] == -1 then PutNew(s, bucket, nUBucketPos, id) else s;
  }

  method Place(s0: State, n: nat, entryToBucket: map<int, int>, usable: bool, ghost size: nat,
               ghost entries: seq<Stored>, ghost kept: seq<Stored>)
    returns (s: State)
    requires Consecutive(s0, size) && n <= size
    requires forall j | j in entryToBucket ::
             0 <= entryToBucket[j] && (usable ==> entryToBucket[j] < ADDRMAN_NEW_BUCKET_COUNT)
    ensures Consecutive(s, size) && s.nKey == s0.nKey && s.nNew == s0.nNew && s.vvTried == s0.vvTried
            && s.nTried == s0.nTried
    ensures usable && PlacedSoFar(s0, entries, n, 0, entryToBucket) ==> PlacedSoFar(s, entries, n, n, entryToBucket)
    ensures Assigned(s0, kept, n, 0) ==> Assigned(s, kept, n, n)
  {
    s := s0;
    for id := 0 to n
      invariant Consecutive(s, size) && s.nKey == s0.nKey && s.nNew == s0.nNew && s.vvTried == s0.vvTried
                && s.nTried == s0.nTried
      invariant usable && PlacedSoFar(s0, entries, n, 0, entryToBucket) ==>
                PlacedSoFar(s, entries, n, id, entryToBucket)
      invariant Assigned(s0, kept, n, 0) ==> Assigned(s, kept, n, id)
    {
      s := PlaceOne(s, id, entryToBucket, usable, size, entries, kept, n);
    }
  }

  // ----- Pruning -----

  ghost predicate RandomIndex(s: State) {
    && (forall k :: RandomOk(s, k))
    && (forall id | id in s.mapInfo ::
       0 <= s.mapInfo[id].nRandomPos < |s.vRandom| && s.vRandom[s.mapInfo[id].nRandomPos] == id)
  }

  lemma DeleteRandomIndex(s: State, id: int)
    requires RandomIndex(s) && id in s.mapInfo
    ensures |s.vRandom| > 0 && s.vRandom[|s.vRandom| - 1] in s.mapInfo
    ensures RandomIndex(Delete(s, id)) && OnlyGone(s, Delete(s, id), {id})
  {
    assert RandomOk(s, |s.vRandom| - 1);
    var r := Delete(s, id);
    forall k ensures RandomOk(r, k) { assert RandomOk(s, k); }
    DeleteEffect(s, id);
  }

  ghost predicate AllReferenced(s: State) {
    forall id | id in s.mapInfo :: s.mapInfo[id].fInTried || s.mapInfo[id].nRefCount != 0
  }

  /** After deleting `gone`, of which `all` are to be deleted. */
  ghost predicate Pruned(s: State, r: State, gone: set<int>, all: set<int>) {
    && RandomIndex(r) && gone <= all && OnlyGone(s, r, gone)
    && r.nKey == s.nKey && r.nTried == s.nTried && r.nNew == s.nNew - |gone|
    && (gone == {} ==> r == s)
    && (Partial(s, all, 0) ==> Partial(r, all - gone, 0))
  }

  lemma PrunedNext(s: State, r: State, gone: set<int>, all: set<int>, id: int)
    requires Pruned(s, r, gone, all) && id in r.mapInfo && id in all && !r.mapInfo[id].fInTried
             && r.mapInfo[id].nRefCount == 0
    ensures 0 <= r.mapInfo[id].nRandomPos < |r.vRandom| && r.vRandom[r.mapInfo[id].nRandomPos] in r.mapInfo
    ensures r.vRandom[|r.vRandom| - 1] in r.mapInfo
    ensures Pruned(s, Delete(r, id), gone + {id}, all)
  {
    DeleteRandomIndex(r, id);
    if Partial(s, all, 0) { DeleteKeeps(r, id, all - gone, 0); }
    assert all - gone - {id} == all - (gone + {id});
  }

  lemma NothingPruned(s: State, all: set<int>)
    requires RandomIndex(s)
    ensures Pruned(s, s, {}, all)
  {
    assert all - {} == all;
  }

  lemma AllPruned(s: State, r: State, all: set<int>)
    requires all == Unplaced(s.mapInfo) && Pruned(s, r, all, all)
    ensures Partial(s, all, 0) ==> Consistent(r)
    ensures AllReferenced(s) ==> r == s && all == {}
  {
    assert all - all == {};
    assert AllReferenced(s) ==> forall i :: i !in all;
    assert (forall i :: i !in all) ==> all == {};
  }

  /** One turn of the loop over the entries. */
  method PruneOne(ghost s: State, r0: State, ghost left: set<int>, ghost all: set<int>, it: int)
    returns (r: State, deleted: bool)
    requires all == Unplaced(s.mapInfo) && it in left && left <= s.mapInfo.Keys && Pruned(s, r0, all - left, all)
    ensures Pruned(s, r, all - (left - {it}), all)
    ensures |all - (left - {it})| == |all - left| + if deleted then 1 else 0
  {
    ghost var gone := all - left;
    assert Unmoved(s.mapInfo[it], r0.mapInfo[it]);
    r, deleted := r0, !r0.mapInfo[it].fInTried && r0.mapInfo[it].nRefCount == 0;
    assert all - (left - {it}) == if deleted then gone + {it} else gone;
    if deleted {
      PrunedNext(s, r0, gone, all, it);
      r := Delete(r0, it);
    }
  }

  /** New entries without a reference are deleted, and nothing else is. */
  method Prune(s: State) returns (r: State, nLostUnk: nat)
    requires RandomIndex(s)
    ensures OnlyGone(s, r, Unplaced(s.mapInfo)) && nLostUnk == |Unplaced(s.mapInfo)|
    ensures r.nKey == s.nKey && r.nTried == s.nTried && r.nNew == s.nNew - nLostUnk
    ensures AllReferenced(s) ==> r == s && nLostUnk == 0
    ensures Partial(s, Unplaced(s.mapInfo), 0) ==> Consistent(r)
  {
    r, nLostUnk := s, 0;
    var left := s.mapInfo.Keys;
    ghost var all := Unplaced(s.mapInfo);
    NothingPruned(s, all);
    assert all - left == {};
    while left != {}
      invariant left <= s.mapInfo.Keys && nLostUnk == |all - left| && Pruned(s, r, all - left, all)
      decreases left
    {
      assert (forall i :: i !in left) ==> left == {};
      var it :| it in left;
      var deleted;
      r, deleted := PruneOne(s, r, left, all, it);
      left := left - {it};
      if deleted { nLostUnk := nLostUnk + 1; }
    }
    assert all - left == all;
    AllPruned(s, r, all);
  }

  // ----- The whole file -----

  datatype Load = Loaded(s: State, nLost: nat, nLostUnk: nat) | UnsupportedFormat | CorruptNew | CorruptTried

  /** Some bucket names an index. */
  ghost predicate Named(f: File, j: int) { exists b :: 0 <= b < |f.buckets| && j in f.buckets[b] }

  /** Two entries of one bucket have different slots there. */
  ghost predicate Apart(f: File, b: nat, i: int, j: int) {
    0 <= i < j < |f.newEntries| && b < |f.buckets| && i in f.buckets[b] && j in f.buckets[b] ==>
      NewPos(f.nKey, b, f.newEntries[i].service) != NewPos(f.nKey, b, f.newEntries[j].service)
  }

  /** A file that can be read without loss. */
  ghost predicate WellFormed(f: File) {
    && f.format >= V2_ASMAP && f.lowestCompatible <= FILE_FORMAT && |f.buckets| == ADDRMAN_NEW_BUCKET_COUNT
    && |f.newEntries| <= ADDRMAN_NEW_BUCKET_COUNT * ADDRMAN_BUCKET_SIZE
       && |f.triedEntries| <= ADDRMAN_TRIED_BUCKET_COUNT * ADDRMAN_BUCKET_SIZE
    && Storable(f.nKey, f.newEntries + f.triedEntries, |f.newEntries|)
    && (forall j | 0 <= j < |f.newEntries| :: Named(f, j))
    && (forall b, i, j :: Apart(f, b, i, j))
  }

  /** The state that a file describes: one reference for each new entry, in a bucket that the file names for it. */
  ghost predicate Restored(f: File, r: State) {
    && Consistent(r) && r.nKey == f.nKey && r.nNew == |f.newEntries| && r.nTried == |f.triedEntries|
    && (forall id :: id in r.mapInfo <==> 0 <= id < |f.newEntries| + |f.triedEntries|)
    && (forall j | 0 <= j < |f.newEntries| :: RestoredNew(f, r, j))
    && (forall t | 0 <= t < |f.triedEntries| :: RestoredTried(f, r, t))
  }

  ghost predicate RestoredNew(f: File, r: State, j: nat) {
    && j in r.mapInfo && j < |f.newEntries| && Data(r.mapInfo[j]) == f.newEntries[j] && !r.mapInfo[j].fInTried
       && r.mapInfo[j].nRefCount == 1
    && forall b | b in NewBuckets(r.nKey, r.vvNew, r.mapInfo[j].service, j) :: b < |f.buckets| && j in f.buckets[b]
  }

  ghost predicate RestoredTried(f: File, r: State, t: nat) {
    var id := |f.newEntries| + t;
    id in r.mapInfo && t < |f.triedEntries| && Data(r.mapInfo[id]) == f.triedEntries[t] && r.mapInfo[id].fInTried
  }

  lemma NamedIsCompatible(f: File, entryToBucket: map<int, int>)
    requires WellFormed(f) && BucketsOf(entryToBucket, f.buckets, |f.newEntries|)
    ensures Compatible(f.nKey, f.newEntries + f.triedEntries, |f.newEntries|, entryToBucket)
  {
    var n := |f.newEntries|;
    forall j | 0 <= j < n ensures j in entryToBucket { assert Named(f, j); }
    forall i, j | 0 <= i < j < n && entryToBucket[i] == entryToBucket[j]
      ensures NewPos(f.nKey, entryToBucket[i], f.newEntries[i].service) != NewPos(f.nKey, entryToBucket[j],
              f.newEntries[j].service)
    {
      assert Apart(f, entryToBucket[i], i, j);
    }
  }

  /** When every new entry has its reference, the state is the one the file describes. */
  lemma PlacedIsRestored(f: File, s: State, entryToBucket: map<int, int>)
    requires |f.buckets| == ADDRMAN_NEW_BUCKET_COUNT && BucketsOf(entryToBucket, f.buckets, |f.newEntries|)
             && s.nKey == f.nKey && s.nNew == 0
    requires PlacedSoFar(s, f.newEntries + f.triedEntries, |f.newEntries|, |f.newEntries|, entryToBucket)
    ensures AllReferenced(s) && Restored(f, s.(nNew := |f.newEntries|))
  {
    var n, r := |f.newEntries|, s.(nNew := |f.newEntries|);
    var unplaced := Unplaced(s.mapInfo);
    assert forall id | id in s.mapInfo :: id !in unplaced;
    assert (forall id :: id !in unplaced) ==> unplaced == {};
    Recount(s, n, {}, n, 0);
    RestoredCounts(f, r);
    forall j | 0 <= j < n ensures RestoredNew(f, r, j) {
      forall b | b in NewBuckets(r.nKey, r.vvNew, r.mapInfo[j].service, j)
        ensures b < |f.buckets| && j in f.buckets[b]
      {
        assert InItsBucket(s, n, entryToBucket, b, NewPos(s.nKey, b, s.mapInfo[j].service));
      }
    }
    forall t | 0 <= t < |f.triedEntries| ensures RestoredTried(f, r, t) {
      assert (f.newEntries + f.triedEntries)[n + t] == f.triedEntries[t];
    }
  }

  /** The counters of a consistent state follow from its entries. */
  lemma RestoredCounts(f: File, r: State)
    requires Consistent(r) && r.nNew == |f.newEntries|
    requires forall id :: id in r.mapInfo <==> 0 <= id < |f.newEntries| + |f.triedEntries|
    requires forall id | id in r.mapInfo :: r.mapInfo[id].fInTried == (id >= |f.newEntries|)
    ensures r.nTried == |f.triedEntries|
  {
    IdsAbove(r.mapInfo, |f.newEntries|, |f.triedEntries|);
  }

  lemma {:induction false} IdsAbove(m: map<int, Info>, n: nat, k: nat)
    requires forall id :: id in m <==> 0 <= id < n + k
    requires forall id | id in m :: m[id].fInTried == (id >= n)
    ensures |Ids(m, true)| == k
    decreases k
  {
    if k == 0 {
      var ids := Ids(m, true);
      assert (forall id :: id !in ids) ==> ids == {};
    } else {
      var last := n + k - 1;
      IdsAbove(m - {last}, n, k - 1);
      IdsRemove(m, last, true);
    }
  }

  lemma ConsecutiveRandom(s: State, k: nat)
    requires Consecutive(s, k)
    ensures RandomIndex(s)
  {
  }

  /** The entries of a file, without those tried ones that are lost. */
  method ReadEntries(f: File) returns (s: State, nLost: nat, ghost kept: seq<Stored>)
    ensures Consecutive(s, |kept|) && s.nKey == f.nKey && s.vvNew == EmptyTable(ADDRMAN_NEW_BUCKET_COUNT) && s.nNew == 0
    ensures nLost <= |f.triedEntries| && |kept| == |f.newEntries| + |f.triedEntries| - nLost
    ensures Thinned(f.newEntries + f.triedEntries, kept, |f.newEntries|)
    ensures Sound(f.newEntries + f.triedEntries, |f.newEntries|) ==> ReadSoFar(s, kept, |f.newEntries|, |kept|)
    ensures Storable(f.nKey, f.newEntries + f.triedEntries, |f.newEntries|) ==>
              nLost == 0 && kept == f.newEntries + f.triedEntries
  {
    ghost var entries := f.newEntries + f.triedEntries;
    s := ReadNew(f.nKey, f.newEntries, entries);
    s, nLost, kept := ReadTried(s, |f.newEntries|, f.triedEntries, entries);
  }

  lemma ReadIsAssigned(s: State, kept: seq<Stored>, n: nat)
    requires n <= |kept| && ReadSoFar(s, kept, n, |kept|)
    ensures Assigned(s, kept, n, 0)
  {
  }

  lemma ReadIsPlaced(s: State, entries: seq<Stored>, n: nat, entryToBucket: map<int, int>)
    requires n <= |entries| && ReadSoFar(s, entries, n, |entries|) && s.vvNew == EmptyTable(ADDRMAN_NEW_BUCKET_COUNT)
    requires Compatible(s.nKey, entries, n, entryToBucket)
    ensures PlacedSoFar(s, entries, n, 0, entryToBucket)
  {
  }

  /** All entries are there, and those without a reference are still to be deleted. */
  ghost predicate Landed(s: State, kept: seq<Stored>, n: nat) {
    && n <= |kept| && s.nNew == n && (forall id :: id in s.mapInfo <==> 0 <= id < |kept|)
    && (forall id | 0 <= id < |kept| :: Data(s.mapInfo[id]) == kept[id] && s.mapInfo[id].fInTried == (id >= n))
    && Partial(s, Unplaced(s.mapInfo), 0)
  }

  lemma AssignedLands(s: State, kept: seq<Stored>, n: nat)
    requires Assigned(s, kept, n, n) && s.nNew == 0
    ensures Landed(s.(nNew := n), kept, n)
  {
    Recount(s, n, Unplaced(s.mapInfo), n, 0);
  }

  /** The references of the new entries. */
  method ReadReferences(f: File, s0: State, usable: bool, ghost kept: seq<Stored>) returns (s: State)
    requires Consecutive(s0, |kept|) && |f.newEntries| <= |kept| && s0.nKey == f.nKey
             && s0.vvNew == EmptyTable(ADDRMAN_NEW_BUCKET_COUNT) && s0.nNew == 0
    requires usable ==> |f.buckets| == ADDRMAN_NEW_BUCKET_COUNT
    ensures RandomIndex(s) && s.nKey == f.nKey
    ensures ReadSoFar(s0, kept, |f.newEntries|, |kept|) ==> Landed(s, kept, |f.newEntries|)
    ensures usable && WellFormed(f) && kept == f.newEntries + f.triedEntries
            && ReadSoFar(s0, kept, |f.newEntries|, |kept|) ==>
              AllReferenced(s) && Restored(f, s)
  {
    ghost var n := |f.newEntries|;
    ghost var read := ReadSoFar(s0, kept, n, |kept|);
    ghost var good := usable && WellFormed(f) && kept == f.newEntries + f.triedEntries && read;
    var entryToBucket := ReadBuckets(f.buckets, |f.newEntries|);
    if good {
      NamedIsCompatible(f, entryToBucket);
      ReadIsPlaced(s0, kept, n, entryToBucket);
    }
    if read { ReadIsAssigned(s0, kept, n); }
    s := Place(s0, |f.newEntries|, entryToBucket, usable, |kept|, kept, kept);
    if good { PlacedIsRestored(f, s, entryToBucket); }
    if read { AssignedLands(s, kept, n); }
    s := s.(nNew := |f.newEntries|);
    ConsecutiveRandom(s, |kept|);
  }

  /**
   What comes of a file that may have been written under another asmap, or damaged: a consistent state of entries of
   the file, in the tables where they were, and as many less as were lost.
   */
  ghost predicate Salvaged(f: File, r: State, nLost: nat, nLostUnk: nat) {
    && Consistent(r) && r.nKey == f.nKey
    && r.nNew == |f.newEntries| - nLostUnk && r.nTried == |f.triedEntries| - nLost
    && forall id | id in r.mapInfo ::
         Data(r.mapInfo[id]) in (if r.mapInfo[id].fInTried then f.triedEntries else f.newEntries)
  }

  lemma LandedIsSalvaged(f: File, kept: seq<Stored>, s: State, r: State, nLost: nat, nLostUnk: nat)
    requires Thinned(f.newEntries + f.triedEntries, kept, |f.newEntries|)
    requires nLost <= |f.triedEntries| && |kept| == |f.newEntries| + |f.triedEntries| - nLost
    requires Landed(s, kept, |f.newEntries|) && s.nKey == f.nKey && OnlyGone(s, r, Unplaced(s.mapInfo)) && Consistent(r)
    requires r.nKey == s.nKey && r.nTried == s.nTried && r.nNew == s.nNew - nLostUnk
    ensures Salvaged(f, r, nLost, nLostUnk)
  {
    var n := |f.newEntries|;
    var entries := f.newEntries + f.triedEntries;
    IdsAbove(s.mapInfo, n, |kept| - n);
    assert entries[..n] == f.newEntries && entries[n..] == f.triedEntries;
    forall id | id in r.mapInfo
      ensures Data(r.mapInfo[id]) in (if r.mapInfo[id].fInTried then f.triedEntries else f.newEntries)
    {
      assert Unmoved(s.mapInfo[id], r.mapInfo[id]);
      if id < n { assert kept[..n][id] == f.newEntries[id]; }
    }
  }

  /** `Unserialize`, into an empty manager. */
  method Unserialize(f: File, asmapVersion: nat) returns (r: Load)
    ensures r == UnsupportedFormat <==> f.lowestCompatible > FILE_FORMAT
    ensures r == CorruptNew <==> f.lowestCompatible <= FILE_FORMAT
                                 && |f.newEntries| > ADDRMAN_NEW_BUCKET_COUNT * ADDRMAN_BUCKET_SIZE
    ensures r.Loaded? <==> && f.lowestCompatible <= FILE_FORMAT
                           && |f.newEntries| <= ADDRMAN_NEW_BUCKET_COUNT * ADDRMAN_BUCKET_SIZE
                           && |f.triedEntries| <= ADDRMAN_TRIED_BUCKET_COUNT * ADDRMAN_BUCKET_SIZE
    ensures r.Loaded? && Sound(f.newEntries + f.triedEntries, |f.newEntries|) ==> Salvaged(f, r.s, r.nLost, r.nLostUnk)
    ensures WellFormed(f) && f.asmapVersion == asmapVersion ==>
            r.Loaded? && r.nLost == 0 && r.nLostUnk == 0 && Restored(f, r.s)
  {
    if f.lowestCompatible > FILE_FORMAT { return UnsupportedFormat; }
    if |f.newEntries| > ADDRMAN_NEW_BUCKET_COUNT * ADDRMAN_BUCKET_SIZE { return CorruptNew; }
    if |f.triedEntries| > ADDRMAN_TRIED_BUCKET_COUNT * ADDRMAN_BUCKET_SIZE { return CorruptTried; }
    ghost var kept;
    var s, nLost, nLostUnk, t;
    s, nLost, kept := ReadEntries(f);
    s := ReadReferences(f, s, f.format >= V2_ASMAP && |f.buckets| == ADDRMAN_NEW_BUCKET_COUNT
                        && f.asmapVersion == asmapVersion, kept);
    t, nLostUnk := Prune(s);
    if Sound(f.newEntries + f.triedEntries, |f.newEntries|) {
      LandedIsSalvaged(f, kept, s, t, nLost, nLostUnk);
    }
    r := Loaded(t, nLost, nLostUnk);
  }

  // ----- What is written can be read -----

  ghost function RowIds(row: seq<int>): set<int> { set p | 0 <= p < |row| :: row[p] }

  lemma {:induction false} RowSize(row: seq<int>)
    ensures |RowIds(row)| <= |row|
  {
    if row == [] {
      assert RowIds(row) == {};
    } else {
      var n := |row| - 1;
      RowSize(row[..n]);
      assert RowIds(row) == RowIds(row[..n]) + {row[n]} by {
        forall id ensures id in RowIds(row) <==> id in RowIds(row[..n]) + {row[n]} {
          if id in RowIds(row) {
            var p :| 0 <= p < |row| && row[p] == id;
            assert p < n ==> row[..n][p] == id;
          }
          if id in RowIds(row[..n]) {
            var p :| 0 <= p < |row[..n]| && row[..n][p] == id;
            assert row[p] == id;
          }
        }
      }
    }
  }

  /** The ids in the first `n` buckets of a table. */
  ghost function TableIds(t: Table, n: nat): set<int>
    requires n <= |t|
  {
    if n == 0 then {} else TableIds(t, n - 1) + RowIds(t[n - 1])
  }

  lemma {:induction false} TableSize(t: Table, n: nat)
    requires n <= |t| && forall b | 0 <= b < n :: |t[b]| == ADDRMAN_BUCKET_SIZE
    ensures |TableIds(t, n)| <= ADDRMAN_BUCKET_SIZE * n
  {
    if n > 0 {
      TableSize(t, n - 1);
      RowSize(t[n - 1]);
    }
  }

  lemma {:induction false} InTable(t: Table, n: nat, b: nat, p: nat)
    requires b < n <= |t| && p < |t[b]|
    ensures Cell(t, b, p) in TableIds(t, n)
  {
    if b < n - 1 { InTable(t, n - 1, b, p); }
  }

  /** There are no more entries than cells. */
  lemma EntriesFit(s: State)
    requires Consistent(s)
    ensures |Ids(s.mapInfo, false)| <= ADDRMAN_NEW_BUCKET_COUNT * ADDRMAN_BUCKET_SIZE
    ensures |Ids(s.mapInfo, true)| <= ADDRMAN_TRIED_BUCKET_COUNT * ADDRMAN_BUCKET_SIZE
  {
    TableSize(s.vvNew, ADDRMAN_NEW_BUCKET_COUNT);
    TableSize(s.vvTried, ADDRMAN_TRIED_BUCKET_COUNT);
    forall id | id in Ids(s.mapInfo, false) ensures id in TableIds(s.vvNew, ADDRMAN_NEW_BUCKET_COUNT) {
      assert EntryOk(s, id, {});
      var a := s.mapInfo[id].service;
      var b :| b in NewBuckets(s.nKey, s.vvNew, a, id);
      InTable(s.vvNew, ADDRMAN_NEW_BUCKET_COUNT, b, NewPos(s.nKey, b, a));
    }
    forall id | id in Ids(s.mapInfo, true) ensures id in TableIds(s.vvTried, ADDRMAN_TRIED_BUCKET_COUNT) {
      assert EntryOk(s, id, {});
      var a := s.mapInfo[id].service;
      InTable(s.vvTried, ADDRMAN_TRIED_BUCKET_COUNT, GetTriedBucket(s.nKey, a), TriedPos(s.nKey, a));
    }
    SubsetSize(Ids(s.mapInfo, false), TableIds(s.vvNew, ADDRMAN_NEW_BUCKET_COUNT));
    SubsetSize(Ids(s.mapInfo, true), TableIds(s.vvTried, ADDRMAN_TRIED_BUCKET_COUNT));
  }

  lemma WrittenStorable(s: State, newIds: seq<int>, triedIds: seq<int>, f: File)
    requires Consistent(s) && Written(s, newIds, triedIds, f)
    ensures Storable(s.nKey, f.newEntries + f.triedEntries, |f.newEntries|)
  {
    var ids, entries, n := newIds + triedIds, f.newEntries + f.triedEntries, |newIds|;
    forall i | 0 <= i < |ids|
      ensures ids[i] in s.mapInfo && s.mapInfo[ids[i]].fInTried == (i >= n) && entries[i] == Data(s.mapInfo[ids[i]])
    {
      if i < n {
        assert newIds[i] in newIds && ids[i] == newIds[i];
        assert ids[i] in Ids(s.mapInfo, false);
      } else {
        assert triedIds[i - n] in triedIds && ids[i] == triedIds[i - n];
        assert ids[i] in Ids(s.mapInfo, true);
      }
    }
    forall i, j | 0 <= i < j < |ids| ensures ids[i] != ids[j] && entries[i].service.ip != entries[j].service.ip {
      assert EntryOk(s, ids[i], {}) && EntryOk(s, ids[j], {});
    }
    forall i, j | n <= i < j < |ids| ensures !SameSlot(s.nKey, entries[i].service, entries[j].service) {
      assert EntryOk(s, ids[i], {}) && EntryOk(s, ids[j], {});
    }
    forall i | 0 <= i < |ids|
      ensures entries[i].nLastSuccess >= if i < n then 0 else 1
    {
      assert EntryOk(s, ids[i], {});
    }
  }

  lemma WrittenApart(s: State, newIds: seq<int>, triedIds: seq<int>, f: File, b: nat, i: int, j: int)
    requires Consistent(s) && Written(s, newIds, triedIds, f)
    ensures Apart(f, b, i, j)
  {
    if 0 <= i < j < |f.newEntries| && b < |f.buckets| && i in f.buckets[b] && j in f.buckets[b] {
      assert BucketOf(s, newIds, b, f.buckets[b]);
      assert Cell(s.vvNew, b, NewPos(s.nKey, b, f.newEntries[i].service)) == newIds[i];
      assert Cell(s.vvNew, b, NewPos(s.nKey, b, f.newEntries[j].service)) == newIds[j];
    }
  }

  /** What `Serialize` writes can be read without loss. */
  lemma WrittenIsWellFormed(s: State, newIds: seq<int>, triedIds: seq<int>, f: File)
    requires Consistent(s) && Written(s, newIds, triedIds, f)
    ensures WellFormed(f)
  {
    EntriesFit(s);
    WrittenStorable(s, newIds, triedIds, f);
    forall j | 0 <= j < |f.newEntries| ensures Named(f, j) {
      assert newIds[j] in newIds && EntryOk(s, newIds[j], {});
      var b :| b in NewBuckets(s.nKey, s.vvNew, s.mapInfo[newIds[j]].service, newIds[j]);
      assert BucketOf(s, newIds, b, f.buckets[b]);
    }
    forall b, i, j ensures Apart(f, b, i, j) { WrittenApart(s, newIds, triedIds, f, b, i, j); }
  }

  /** What is stored about the entries of a table. */
  ghost function Entries(m: map<int, Info>, tried: bool): set<Stored> { set id | id in Ids(m, tried) :: Data(m[id]) }

  /** An entry holds a bucket in which there was an entry with the same data. */
  ghost predicate HeldThere(s: State, d: Stored, b: nat) {
    exists id | id in Ids(s.mapInfo, false) ::
      Data(s.mapInfo[id]) == d && b in NewBuckets(s.nKey, s.vvNew, s.mapInfo[id].service, id)
  }

  lemma SameEntries(s: State, newIds: seq<int>, triedIds: seq<int>, f: File, r: State)
    requires Consistent(s) && Written(s, newIds, triedIds, f) && Restored(f, r)
    ensures Entries(r.mapInfo, false) == Entries(s.mapInfo, false)
    ensures Entries(r.mapInfo, true) == Entries(s.mapInfo, true)
  {
    forall d ensures d in Entries(r.mapInfo, false) <==> d in Entries(s.mapInfo, false) {
      assert d in Entries(r.mapInfo, false) <==> d in f.newEntries by { RestoredNewEntries(f, r, d); }
      assert d in Entries(s.mapInfo, false) <==> d in f.newEntries
        by { WrittenEntries(s, newIds, f.newEntries, false, d); }
    }
    forall d ensures d in Entries(r.mapInfo, true) <==> d in Entries(s.mapInfo, true) {
      assert d in Entries(r.mapInfo, true) <==> d in f.triedEntries by { RestoredTriedEntries(f, r, d); }
      assert d in Entries(s.mapInfo, true) <==> d in f.triedEntries
        by { WrittenEntries(s, triedIds, f.triedEntries, true, d); }
    }
  }

  lemma WrittenEntries(s: State, ids: seq<int>, entries: seq<Stored>, tried: bool, d: Stored)
    requires Enumerates(ids, Ids(s.mapInfo, tried)) && EntriesOf(s, ids, entries)
    ensures d in Entries(s.mapInfo, tried) <==> d in entries
  {
    if d in Entries(s.mapInfo, tried) {
      var id :| id in Ids(s.mapInfo, tried) && Data(s.mapInfo[id]) == d;
      assert id in ids;
    }
    if d in entries {
      var j :| 0 <= j < |entries| && entries[j] == d;
      assert ids[j] in ids;
    }
  }

  lemma RestoredNewEntries(f: File, r: State, d: Stored)
    requires Restored(f, r)
    ensures d in Entries(r.mapInfo, false) <==> d in f.newEntries
  {
    if d in Entries(r.mapInfo, false) {
      var id :| id in Ids(r.mapInfo, false) && Data(r.mapInfo[id]) == d;
      assert id >= |f.newEntries| ==> RestoredTried(f, r, id - |f.newEntries|);
      assert RestoredNew(f, r, id);
    }
    if d in f.newEntries {
      var j :| 0 <= j < |f.newEntries| && f.newEntries[j] == d;
      assert RestoredNew(f, r, j);
      assert j in Ids(r.mapInfo, false);
    }
  }

  lemma RestoredTriedEntries(f: File, r: State, d: Stored)
    requires Restored(f, r)
    ensures d in Entries(r.mapInfo, true) <==> d in f.triedEntries
  {
    var n := |f.newEntries|;
    if d in Entries(r.mapInfo, true) {
      var id :| id in Ids(r.mapInfo, true) && Data(r.mapInfo[id]) == d;
      assert id < n ==> RestoredNew(f, r, id);
      assert RestoredTried(f, r, id - n);
    }
    if d in f.triedEntries {
      var t :| 0 <= t < |f.triedEntries| && f.triedEntries[t] == d;
      assert RestoredTried(f, r, t);
      assert n + t in Ids(r.mapInfo, true);
    }
  }

  /** Every new entry has come back to one bucket, which it held before. */
  lemma SameBuckets(s: State, newIds: seq<int>, triedIds: seq<int>, f: File, r: State, id: int)
    requires Consistent(s) && Written(s, newIds, triedIds, f) && Restored(f, r) && id in Ids(r.mapInfo, false)
    ensures r.mapInfo[id].nRefCount == |NewBuckets(r.nKey, r.vvNew, r.mapInfo[id].service, id)| == 1
    ensures forall b | b in NewBuckets(r.nKey, r.vvNew, r.mapInfo[id].service, id) ::
            HeldThere(s, Data(r.mapInfo[id]), b)
  {
    assert EntryOk(r, id, {});
    assert id >= |f.newEntries| ==> RestoredTried(f, r, id - |f.newEntries|);
    assert RestoredNew(f, r, id);
    forall b | b in NewBuckets(r.nKey, r.vvNew, r.mapInfo[id].service, id)
      ensures HeldThere(s, Data(r.mapInfo[id]), b)
    {
      assert BucketOf(s, newIds, b, f.buckets[b]);
      assert newIds[id] in newIds;
    }
  }

  /** What reading back a saved state has to give. */
  ghost predicate SameAddresses(s: State, r: State) {
    && Consistent(r) && r.nKey == s.nKey && r.nNew == s.nNew && r.nTried == s.nTried
    && Entries(r.mapInfo, false) == Entries(s.mapInfo, false) && Entries(r.mapInfo, true) == Entries(s.mapInfo, true)
    && forall id | id in Ids(r.mapInfo, false) :: OneOldBucket(s, r, id)
  }

  ghost predicate OneOldBucket(s: State, r: State, id: int)
    requires id in r.mapInfo
  {
    && r.mapInfo[id].nRefCount == |NewBuckets(r.nKey, r.vvNew, r.mapInfo[id].service, id)| == 1
    && forall b | b in NewBuckets(r.nKey, r.vvNew, r.mapInfo[id].service, id) :: HeldThere(s, Data(r.mapInfo[id]), b)
  }

  /** Saving a state and reading it back, under the same asmap, loses nothing. */
  method SaveAndLoad(s: State, asmapVersion: nat) returns (r: Load)
    requires Consistent(s)
    ensures r.Loaded? && r.nLost == 0 && r.nLostUnk == 0 && SameAddresses(s, r.s)
  {
    ghost var newIds, triedIds;
    var f;
    f, newIds, triedIds := Serialize(s, asmapVersion);
    WrittenIsWellFormed(s, newIds, triedIds, f);
    r := Unserialize(f, asmapVersion);
    SameEntries(s, newIds, triedIds, f, r.s);
    forall id | id in Ids(r.s.mapInfo, false) ensures OneOldBucket(s, r.s, id) {
      SameBuckets(s, newIds, triedIds, f, r.s, id);
    }
  }

  /**
   Saving a state and reading it back under another asmap, whose bucket hashes `k` need have nothing to do with the old
   ones: what is not lost to collisions is a consistent state of old entries, each in the table where it was.
   */
  method SaveAndRebucket(s: State, asmapVersion: nat, k: Key, newVersion: nat) returns (r: Load)
    requires Consistent(s)
    ensures r.Loaded? && Consistent(r.s) && r.s.nKey == k
    ensures r.s.nNew == s.nNew - r.nLostUnk && r.s.nTried == s.nTried - r.nLost
    ensures forall tried :: Entries(r.s.mapInfo, tried) <= Entries(s.mapInfo, tried)
  {
    ghost var newIds, triedIds;
    var f;
    f, newIds, triedIds := Serialize(s, asmapVersion);
    WrittenIsWellFormed(s, newIds, triedIds, f);
    r := Unserialize(f.(nKey := k), newVersion);
    forall tried ensures Entries(r.s.mapInfo, tried) <= Entries(s.mapInfo, tried) {
      SalvagedEntries(s, newIds, triedIds, f, k, r.s, r.nLost, r.nLostUnk, tried);
    }
  }

  lemma SalvagedEntries(s: State, newIds: seq<int>, triedIds: seq<int>, f: File, k: Key, r: State, nLost: nat,
                        nLostUnk: nat, tried: bool)
    requires Consistent(s) && Written(s, newIds, triedIds, f) && Salvaged(f.(nKey := k), r, nLost, nLostUnk)
    ensures Entries(r.mapInfo, tried) <= Entries(s.mapInfo, tried)
  {
    forall d | d in Entries(r.mapInfo, tried) ensures d in Entries(s.mapInfo, tried) {
      var id :| id in Ids(r.mapInfo, tried) && Data(r.mapInfo[id]) == d;
      if tried {
        WrittenEntries(s, triedIds, f.triedEntries, true, d);
      } else {
        WrittenEntries(s, newIds, f.newEntries, false, d);
      }
    }
  }
}
