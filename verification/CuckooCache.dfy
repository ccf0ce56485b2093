/**
 The cuckoo cache of `src/cuckoocache.h`: a table with eight candidate slots for each element, garbage
 collection flags packed into bytes, and epochs.
 */
module CuckooCache {
  import opened Basics
  import opened Bits

  type Element = nat
  /** What the slots of a new table hold. */
  const DEFAULT: Element := 0

  // ----- Hash locations -----


  /** The eight hash functions, as a table of 32-bit values. */
  type Hash = map<(nat, Element), nat>

  function HashOf(h: Hash, k: nat, e: Element): nat { (if (k, e) in h then h[(k, e)] else 0) % TWO32 }

  /** A 32-bit hash as a fixed-point number in [0, 1), times the size. */
  function Location(h: Hash, k: nat, e: Element, size: nat): nat { FastRange(HashOf(h, k, e), size) }

  lemma LocationInRange(h: Hash, k: nat, e: Element, size: nat)
    requires size > 0
    ensures Location(h, k, e, size) < size
  {
    FastRangeFits(HashOf(h, k, e), size);
  }

  function LocationsFrom(h: Hash, e: Element, size: nat, k: nat): (locs: seq<nat>)
    requires size > 0 && k <= 8
    ensures |locs| == 8 - k && forall i | 0 <= i < 8 - k :: locs[i] < size
    decreases 8 - k
  {
    if k == 8 then []
    else
      LocationInRange(h, k, e, size);
      [Location(h, k, e, size)] + LocationsFrom(h, e, size, k + 1)
  }

  /** `compute_hashes`. */
  function ComputeHashes(h: Hash, e: Element, size: nat): (locs: seq<nat>)
    requires size > 0
    ensures |locs| == 8 && forall i | 0 <= i < 8 :: locs[i] < size
  {
    LocationsFrom(h, e, size, 0)
  }

  // ----- Bit-packed flags -----

  predicate BitIsSet(mem: seq<bv8>, s: nat)
    requires s < 8 * |mem|
  {
    Bit(mem[s / 8], s % 8)
  }

  function BitSet(mem: seq<bv8>, s: nat): seq<bv8>
    requires s < 8 * |mem|
  {
    mem[s / 8 := mem[s / 8] | (1 as bv8 << (s % 8))]
  }

  function BitUnset(mem: seq<bv8>, s: nat): seq<bv8>
    requires s < 8 * |mem|
  {
    mem[s / 8 := mem[s / 8] & !(1 as bv8 << (s % 8))]
  }

  lemma BitSetOnly(mem: seq<bv8>, s: nat, j: nat)
    requires s < 8 * |mem| && j < 8 * |mem|
    ensures BitIsSet(BitSet(mem, s), j) <==> (j == s || BitIsSet(mem, j))
  {
    SetBit(mem[s / 8], s % 8, j % 8);
  }

  lemma BitUnsetOnly(mem: seq<bv8>, s: nat, j: nat)
    requires s < 8 * |mem| && j < 8 * |mem|
    ensures BitIsSet(BitUnset(mem, s), j) <==> (j != s && BitIsSet(mem, j))
  {
    ClearBit(mem[s / 8], s % 8, j % 8);
  }

  /** The packed flags of `size` slots, as booleans that say which slots are live. */
  ghost function Live(mem: seq<bv8>, size: nat): (live: seq<bool>)
    requires size <= 8 * |mem|
    ensures |live| == size
  {
    if size == 0 then [] else Live(mem, size - 1) + [!BitIsSet(mem, size - 1)]
  }

  lemma {:induction false} LiveAt(mem: seq<bv8>, size: nat, i: nat)
    requires i < size <= 8 * |mem|
    ensures Live(mem, size)[i] == !BitIsSet(mem, i)
  {
    if i < size - 1 { LiveAt(mem, size - 1, i); }
  }

  lemma LiveUnset(mem: seq<bv8>, size: nat, s: nat)
    requires s < size <= 8 * |mem|
    ensures Live(BitUnset(mem, s), size) == Live(mem, size)[s := true]
  {
    forall i | 0 <= i < size ensures Live(BitUnset(mem, s), size)[i] == Live(mem, size)[s := true][i] {
      BitUnsetOnly(mem, s, i);
      LiveAt(mem, size, i);
      LiveAt(BitUnset(mem, s), size, i);
    }
  }

  lemma LiveSet(mem: seq<bv8>, size: nat, s: nat)
    requires s < size <= 8 * |mem|
    ensures Live(BitSet(mem, s), size) == Live(mem, size)[s := false]
  {
    forall i | 0 <= i < size ensures Live(BitSet(mem, s), size)[i] == Live(mem, size)[s := false][i] {
      BitSetOnly(mem, s, i);
      LiveAt(mem, size, i);
      LiveAt(BitSet(mem, s), size, i);
    }
  }

  lemma AllOnes(k: nat)
    requires k < 8
    ensures Bit(0xFF, k)
  {
    Shifts();
  }

  // ----- The elements in the cache -----

  ghost function One(live: bool, e: Element): multiset<Element> { if live then multiset{e} else multiset{} }

  /** The elements of the live slots. */
  ghost function Elements(table: seq<Element>, live: seq<bool>): multiset<Element>
    requires |table| == |live|
  {
    if table == [] then multiset{}
    else
      var n := |table| - 1;
      Elements(table[..n], live[..n]) + One(live[n], table[n])
  }

  lemma Exchange(a: multiset<Element>, x: multiset<Element>, b: multiset<Element>, y: multiset<Element>,
                 c: multiset<Element>)
    requires a + x == b + y
    ensures a + c + x == b + c + y
  {
    assert a + c + x == a + x + c;
    assert b + c + y == b + y + c;
  }

  /** Writing one slot exchanges what it held for what it holds. */
  lemma {:induction false} ElementsUpdate(table: seq<Element>, live: seq<bool>, i: nat, e: Element, l: bool)
    requires |table| == |live| && i < |table|
    ensures Elements(table[i := e], live[i := l]) + One(live[i], table[i]) == Elements(table, live) + One(l, e)
  {
    var n := |table| - 1;
    if i == n {
      assert table[i := e][..n] == table[..n] && live[i := l][..n] == live[..n];
    } else {
      assert table[i := e][..n] == table[..n][i := e] && live[i := l][..n] == live[..n][i := l];
      ElementsUpdate(table[..n], live[..n], i, e, l);
      var was, now, last :=
        Elements(table[..n], live[..n]), Elements(table[..n][i := e], live[..n][i := l]), One(live[n], table[n]);
      Exchange(now, One(live[i], table[i]), was, One(l, e), last);
    }
  }

  lemma {:induction false} NoneLive(table: seq<Element>, live: seq<bool>)
    requires |table| == |live| && forall i | 0 <= i < |live| :: !live[i]
    ensures Elements(table, live) == multiset{}
  {
    if table != [] {
      var n := |table| - 1;
      NoneLive(table[..n], live[..n]);
    }
  }

  lemma {:induction false} ElementsShrink(table: seq<Element>, live: seq<bool>, fewer: seq<bool>)
    requires |table| == |live| == |fewer| && forall i | 0 <= i < |live| :: fewer[i] ==> live[i]
    ensures Elements(table, fewer) <= Elements(table, live)
  {
    if table != [] {
      var n := |table| - 1;
      ElementsShrink(table[..n], live[..n], fewer[..n]);
    }
  }

  // ----- What holds of every cache -----

  /** A live slot, and any slot that was ever written, is one of the eight of its element. */
  ghost predicate InItsSlot(h: Hash, table: seq<Element>, live: seq<bool>, i: nat)
    requires |table| == |live|
  {
    i < |table| && (live[i] || table[i] != DEFAULT) ==> i in ComputeHashes(h, table[i], |table|)
  }

  ghost predicate Hashed(h: Hash, table: seq<Element>, live: seq<bool>)
    requires |table| == |live|
  {
    forall i :: InItsSlot(h, table, live, i)
  }

  ghost predicate Unique(table: seq<Element>) {
    forall i, j | 0 <= i < j < |table| && table[i] == table[j] :: table[i] == DEFAULT
  }

  /** Writing an element into one of its slots, when it is nowhere else. */
  lemma WriteSlot(h: Hash, table: seq<Element>, live: seq<bool>, i: nat, e: Element)
    requires |table| == |live| && i < |table| && Hashed(h, table, live) && Unique(table)
    requires i in ComputeHashes(h, e, |table|) && (e != DEFAULT ==> e !in table)
    ensures Hashed(h, table[i := e], live[i := true]) && Unique(table[i := e])
    ensures live[i] && table[i] != DEFAULT ==> table[i] !in table[i := e]
  {
    var t, l := table[i := e], live[i := true];
    forall k ensures InItsSlot(h, t, l, k) { assert InItsSlot(h, table, live, k); }
    forall j, k | 0 <= j < k < |t| && t[j] == t[k] ensures t[j] == DEFAULT {
      assert j != i ==> t[j] in table;
      assert k != i ==> t[k] in table;
    }
  }

  /** How many live slots belong to the current epoch. */
  ghost function Recent(epoch: seq<bool>, live: seq<bool>): nat
    requires |epoch| == |live|
  {
    if epoch == [] then 0
    else
      var n := |epoch| - 1;
      Recent(epoch[..n], live[..n]) + if epoch[n] && live[n] then 1 else 0
  }

  lemma {:induction false} InElements(table: seq<Element>, live: seq<bool>, i: nat)
    requires |table| == |live| && i < |table| && live[i]
    ensures table[i] in Elements(table, live)
  {
    var n := |table| - 1;
    if i < n { InElements(table[..n], live[..n], i); }
  }

  lemma {:induction false} NotInElements(table: seq<Element>, live: seq<bool>, e: Element)
    requires |table| == |live| && forall i | 0 <= i < |table| :: live[i] ==> table[i] != e
    ensures e !in Elements(table, live)
  {
    if table != [] {
      var n := |table| - 1;
      NotInElements(table[..n], live[..n], e);
    }
  }

  /** Writing an element into a slot, which is live from then on. */
  lemma Replaced(table: seq<Element>, live: seq<bool>, i: nat, e: Element)
    requires |table| == |live| && i < |table|
    ensures e in Elements(table[i := e], live[i := true])
    ensures Elements(table[i := e], live[i := true]) + One(live[i], table[i]) == Elements(table, live) + multiset{e}
  {
    ElementsUpdate(table, live, i, e, true);
    InElements(table[i := e], live[i := true], i);
  }

  /** All that writing an element into one of its slots does to a cache. */
  lemma PutSlot(h: Hash, table: seq<Element>, live: seq<bool>, i: nat, e: Element)
    requires i < |table| == |live| && Hashed(h, table, live) && Unique(table)
    requires i in ComputeHashes(h, e, |table|) && (e != DEFAULT ==> e !in table)
    ensures var t, now := table[i := e], live[i := true];
            && Hashed(h, t, now) && Unique(t) && e in Elements(t, now)
            && Elements(t, now) + One(live[i], table[i]) == Elements(table, live) + multiset{e}
            && (live[i] ==> i in ComputeHashes(h, table[i], |table|) && (table[i] != DEFAULT ==> table[i] !in t))
  {
    WriteSlot(h, table, live, i, e);
    Replaced(table, live, i, e);
    assert InItsSlot(h, table, live, i);
  }

  /** Making a slot live adds its element, if it was not live. */
  lemma Revived(table: seq<Element>, live: seq<bool>, i: nat)
    requires |table| == |live| && i < |table|
    ensures table[i] in Elements(table, live[i := true])
    ensures Elements(table, live[i := true]) == Elements(table, live) + One(!live[i], table[i])
  {
    ElementsUpdate(table, live, i, table[i], true);
    assert table[i := table[i]] == table;
    InElements(table, live[i := true], i);
    if live[i] { assert live[i := true] == live; }
  }

  lemma RevivedHashed(h: Hash, table: seq<Element>, live: seq<bool>, i: nat)
    requires |table| == |live| && i < |table| && Hashed(h, table, live) && i in ComputeHashes(h, table[i], |table|)
    ensures Hashed(h, table, live[i := true])
  {
    var now := live[i := true];
    forall j ensures InItsSlot(h, table, now, j) { assert InItsSlot(h, table, live, j); }
  }

  /** Erasing the one slot of an element erases it. */
  lemma Erased(table: seq<Element>, live: seq<bool>, i: nat)
    requires |table| == |live| && i < |table|
    ensures Elements(table, live[i := false]) + One(live[i], table[i]) == Elements(table, live)
    ensures Unique(table) && table[i] != DEFAULT ==> table[i] !in Elements(table, live[i := false])
  {
    ElementsUpdate(table, live, i, table[i], false);
    assert table[i := table[i]] == table;
    if Unique(table) && table[i] != DEFAULT { NotInElements(table, live[i := false], table[i]); }
  }

  /** An element that is in none of its eight slots is nowhere in the table. */
  lemma NowhereElse(h: Hash, table: seq<Element>, live: seq<bool>, e: Element)
    requires |table| == |live| > 0 && Hashed(h, table, live)
    requires forall l | l in ComputeHashes(h, e, |table|) :: table[l] != e
    ensures e != DEFAULT ==> e !in table
  {
    forall i | 0 <= i < |table| && table[i] == e ensures e == DEFAULT { assert InItsSlot(h, table, live, i); }
  }

  /** `std::find`: the first position, or the end. */
  function IndexOf(locs: seq<nat>, x: nat): (i: nat)
    ensures i <= |locs| && (i < |locs| ==> locs[i] == x) && (i < |locs| <==> x in locs)
  {
    if locs == [] then 0 else if locs[0] == x then 0 else 1 + IndexOf(locs[1..], x)
  }

  function Max(a: nat, b: nat): nat { if a < b then b else a }

  class Cache {
    const hash: Hash
    var table: seq<Element>
    var size: nat
    var collection_flags: seq<bv8>
    var epoch_flags: seq<bool>
    var epoch_heuristic_counter: nat
    var epoch_size: nat
    var depth_limit: nat

    ghost predicate Sized()
      reads this
    {
      2 <= size == |table| == |epoch_flags| && size <= 8 * |collection_flags| && depth_limit > 0 && epoch_size > 0
    }

    ghost function LiveSlots(): seq<bool>
      requires Sized()
      reads this
    {
      Live(collection_flags, size)
    }

    /** The elements that the cache promises to keep for now. */
    ghost function Contents(): multiset<Element>
      requires Sized()
      reads this
    {
      Elements(table, LiveSlots())
    }

    ghost predicate Valid()
      reads this
    {
      Sized() && Hashed(hash, table, LiveSlots()) && Unique(table)
    }

    /** The default constructor and `setup`. */
    constructor (h: Hash, new_size: nat, depthLimit: nat)
      requires new_size < TWO32 && depthLimit > 0
      ensures Valid() && Contents() == multiset{} && size == Max(2, new_size)
    {
      hash := h;
      depth_limit := depthLimit;
      size := Max(2, new_size);
      table := seq(Max(2, new_size), _ => DEFAULT);
      collection_flags := seq((Max(2, new_size) + 7) / 8, _ => 0xFF);
      epoch_flags := seq(Max(2, new_size), _ => false);
      epoch_size := Max(1, 45 * Max(2, new_size) % TWO32 / 100);
      epoch_heuristic_counter := Max(1, 45 * Max(2, new_size) % TWO32 / 100);
      new;
      forall i | 0 <= i < size ensures !LiveSlots()[i] {
        AllOnes(i % 8);
        LiveAt(collection_flags, size, i);
      }
      NoneLive(table, LiveSlots());
    }

    /** `please_keep`: the slot is live. */
    method please_keep(n: nat)
      requires Sized() && n < size
      modifies `collection_flags
      ensures Sized() && LiveSlots() == old(LiveSlots())[n := true]
    {
      LiveUnset(collection_flags, size, n);
      collection_flags := BitUnset(collection_flags, n);
    }

    /** `allow_erase`: the slot may be overwritten. */
    method allow_erase(n: nat)
      requires Sized() && n < size
      modifies `collection_flags
      ensures Sized() && LiveSlots() == old(LiveSlots())[n := false]
    {
      LiveSet(collection_flags, size, n);
      collection_flags := BitSet(collection_flags, n);
    }

    /** The scan of `epoch_check`. */
    method CountRecent() returns (n: nat)
      requires Sized()
      ensures n == Recent(epoch_flags, LiveSlots())
    {
      n := 0;
      for i := 0 to size
        invariant n == Recent(epoch_flags[..i], LiveSlots()[..i])
      {
        assert epoch_flags[..i + 1][..i] == epoch_flags[..i] && LiveSlots()[..i + 1][..i] == LiveSlots()[..i];
        LiveAt(collection_flags, size, i);
        if epoch_flags[i] && !BitIsSet(collection_flags, i) { n := n + 1; }
      }
      assert epoch_flags[..size] == epoch_flags && LiveSlots()[..size] == LiveSlots();
    }

    /** The ageing of `epoch_check`: the old epoch may be erased, the current one becomes the old one. */
    method Age()
      requires Sized()
      modifies `epoch_flags, `collection_flags
      ensures Sized()
      ensures forall i | 0 <= i < size ::
              LiveSlots()[i] == (old(LiveSlots())[i] && old(epoch_flags)[i]) && !epoch_flags[i]
    {
      for i := 0 to size
        invariant Sized()
        invariant forall k | 0 <= k < i ::
                  LiveSlots()[k] == (old(LiveSlots())[k] && old(epoch_flags)[k]) && !epoch_flags[k]
        invariant forall k | i <= k < size ::
                  LiveSlots()[k] == old(LiveSlots())[k] && epoch_flags[k] == old(epoch_flags)[k]
      {
        if epoch_flags[i] {
          epoch_flags := epoch_flags[i := false];
        } else {
          allow_erase(i);
        }
      }
    }

    /** `epoch_check`: nothing is moved, and only the old epoch can be given up, once the current one is full. */
    method epoch_check()
      requires Valid()
      modifies `epoch_flags, `collection_flags, `epoch_heuristic_counter
      ensures Valid() && Contents() <= old(Contents())
      ensures old(epoch_heuristic_counter != 0 || Recent(epoch_flags, LiveSlots()) < epoch_size) ==>
                epoch_flags == old(epoch_flags) && collection_flags == old(collection_flags)
      ensures old(epoch_heuristic_counter == 0 && Recent(epoch_flags, LiveSlots()) >= epoch_size) ==>
                forall i | 0 <= i < size ::
                  LiveSlots()[i] == (old(LiveSlots())[i] && old(epoch_flags)[i]) && !epoch_flags[i]
    {
      hide Recent;
      if epoch_heuristic_counter != 0 {
        epoch_heuristic_counter := epoch_heuristic_counter - 1;
        return;
      }
      var epoch_unused_count := CountRecent();
      if epoch_unused_count >= epoch_size {
        Age();
        epoch_heuristic_counter := epoch_size;
        ElementsShrink(table, old(LiveSlots()), LiveSlots());
        forall i ensures InItsSlot(hash, table, LiveSlots(), i) { assert InItsSlot(hash, table, old(LiveSlots()), i); }
      } else {
        epoch_heuristic_counter := Max(1, Max(epoch_size / 16, epoch_size - epoch_unused_count));
      }
    }

    /** The slot among eight that holds an element, if any. */
    method Holding(locs: seq<nat>, e: Element) returns (found: bool, loc: nat)
      requires Sized() && forall i | 0 <= i < |locs| :: locs[i] < size
      ensures found ==> loc in locs && loc < size && table[loc] == e
      ensures !found ==> forall l | l in locs :: table[l] != e
    {
      for i := 0 to |locs|
        invariant forall k | 0 <= k < i :: table[locs[k]] != e
      {
        if table[locs[i]] == e { return true, locs[i]; }
      }
      return false, 0;
    }

    /** The first slot among eight that may be overwritten, if any. */
    method Collectable(locs: seq<nat>) returns (found: bool, loc: nat)
      requires Sized() && forall i | 0 <= i < |locs| :: locs[i] < size
      ensures found ==> loc in locs && loc < size && !LiveSlots()[loc]
      ensures !found ==> forall l | l in locs :: LiveSlots()[l]
    {
      for i := 0 to |locs|
        invariant forall k | 0 <= k < i :: LiveSlots()[locs[k]]
      {
        LiveAt(collection_flags, size, locs[i]);
        if BitIsSet(collection_flags, locs[i]) { return true, locs[i]; }
      }
      return false, 0;
    }

    /** The element is already in one of its slots: that slot is live from now on. */
    method Refresh(loc: nat, e: Element)
      requires Valid() && loc < size && table[loc] == e && loc in ComputeHashes(hash, e, size)
      modifies `collection_flags, `epoch_flags
      ensures Valid() && e in Contents()
      ensures Contents() == old(Contents()) + One(!old(LiveSlots())[loc], e)
    {
      ghost var live := LiveSlots();
      Revived(table, live, loc);
      please_keep(loc);
      epoch_flags := epoch_flags[loc := true];
      RevivedHashed(hash, table, live, loc);
    }

    /** An element that is nowhere in the table goes into one of its slots; what was there is in hand now. */
    method Put(loc: nat, e: Element, epoch: bool) returns (x: Element, xEpoch: bool)
      requires Valid() && loc < size && loc in ComputeHashes(hash, e, size) && (e != DEFAULT ==> e !in table)
      modifies `table, `collection_flags, `epoch_flags
      ensures Valid() && x == old(table)[loc] && e in Contents()
      ensures Contents() + One(old(LiveSlots())[loc], x) == old(Contents()) + multiset{e}
      ensures old(LiveSlots())[loc] ==> loc in ComputeHashes(hash, x, size) && (x != DEFAULT ==> x !in table)
    {
      x, xEpoch := table[loc], epoch_flags[loc];
      PutSlot(hash, table, LiveSlots(), loc, e);
      please_keep(loc);
      table := table[loc := e];
      epoch_flags := epoch_flags[loc := epoch];
    }

    /** One swap of the chain: the element goes to the location after the last one, what was there is in hand. */
    method Evict(locs: seq<nat>, last_loc: nat, e: Element, epoch: bool) returns (loc: nat, x: Element, xEpoch: bool)
      requires Valid() && locs == ComputeHashes(hash, e, size) && (e != DEFAULT ==> e !in table)
      requires forall l | l in locs :: LiveSlots()[l]
      modifies `table, `collection_flags, `epoch_flags
      ensures Valid() && loc == locs[(1 + IndexOf(locs, last_loc)) % 8]
      ensures loc in ComputeHashes(hash, x, size) && (x != DEFAULT ==> x !in table)
      ensures Contents() + multiset{x} == old(Contents()) + multiset{e}
    {
      loc := locs[(1 + IndexOf(locs, last_loc)) % 8];
      x, xEpoch := Put(loc, e, epoch);
    }

    /** One turn of the loop of `insert`: into a free location, or in exchange for what is at the next one. */
    method InsertTurn(locs: seq<nat>, last_loc: nat, e: Element, epoch: bool)
      returns (done: bool, loc: nat, x: Element, xEpoch: bool)
      requires Valid() && locs == ComputeHashes(hash, e, size) && (e != DEFAULT ==> e !in table)
      modifies `table, `collection_flags, `epoch_flags
      ensures Valid() && (done <==> exists l :: l in locs && !old(LiveSlots())[l])
      ensures done ==> Contents() == old(Contents()) + multiset{e}
      ensures !done ==> loc in ComputeHashes(hash, x, size) && (x != DEFAULT ==> x !in table)
      ensures !done ==> Contents() + multiset{x} == old(Contents()) + multiset{e}
    {
      done, loc := Collectable(locs);
      if done {
        x, xEpoch := Put(loc, e, epoch);
      } else {
        loc, x, xEpoch := Evict(locs, last_loc, e, epoch);
      }
    }

    /** `insert`, once the element is known not to be there. */
    method InsertAbsent(e0: Element) returns (ghost dropped: multiset<Element>)
      requires Valid() && (e0 != DEFAULT ==> e0 !in table)
      modifies `table, `collection_flags, `epoch_flags
      ensures Valid() && |dropped| <= 1
      ensures Contents() + dropped == old(Contents()) + multiset{e0}
      ensures dropped != multiset{} ==> forall l | l in ComputeHashes(hash, e0, size) :: old(LiveSlots())[l]
    {
      var e, epoch, done := e0, true, false;
      var last_loc: nat := TWO32 - 1;
      ghost var before := Contents() + multiset{e0};
      ghost var crowded := forall l | l in ComputeHashes(hash, e0, size) :: LiveSlots()[l];
      for depth := 0 to depth_limit
        invariant Valid() && (e != DEFAULT ==> e !in table)
        invariant Contents() + multiset{e} == before
        invariant if depth == 0 then e == e0 && LiveSlots() == old(LiveSlots()) else crowded
      {
        done, last_loc, e, epoch := InsertTurn(ComputeHashes(hash, e, size), last_loc, e, epoch);
        if done {
          return multiset{};
        }
      }
      dropped := multiset{e};
    }

    /**
     `insert`: after the epoch check, the cache holds what it held and the new element, up to one element
     that is dropped.
     */
    method insert(e: Element) returns (ghost kept: multiset<Element>, ghost dropped: multiset<Element>)
      requires Valid()
      modifies this
      ensures Valid() && kept <= old(Contents()) && |dropped| <= 1
      ensures Contents() + dropped == kept + multiset{e}
    {
      epoch_check();
      kept := Contents();
      var locs := ComputeHashes(hash, e, size);
      var found, loc := Holding(locs, e);
      if found {
        dropped := One(LiveSlots()[loc], e);
        Refresh(loc, e);
        return;
      }
      NowhereElse(hash, table, LiveSlots(), e);
      dropped := InsertAbsent(e);
    }

    /** `contains`: exact for any element but the default one. */
    method contains(e: Element, erase: bool) returns (found: bool)
      requires Valid()
      modifies `collection_flags
      ensures Valid()
      ensures found ==> e in table
      ensures e != DEFAULT ==> (found <==> e in table)
      ensures !erase || !found ==> collection_flags == old(collection_flags)
      ensures erase && found && e != DEFAULT ==> e !in Contents()
      ensures Contents() == old(Contents()) || Contents() + multiset{e} == old(Contents())
    {
      var locs := ComputeHashes(hash, e, size);
      var loc;
      found, loc := Holding(locs, e);
      if !found {
        NowhereElse(hash, table, LiveSlots(), e);
      } else if erase {
        ghost var live := LiveSlots();
        allow_erase(loc);
        Erased(table, live, loc);
        forall i ensures InItsSlot(hash, table, LiveSlots(), i) { assert InItsSlot(hash, table, live, i); }
      }
    }
  }
}
