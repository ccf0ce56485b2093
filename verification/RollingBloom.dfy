/**
 The rolling Bloom filter of `src/bloom.cpp`: two planes of 64-bit words hold for every cell which of three
 generations wrote it last.  Every one of the last `nElements` keys inserted is reported as contained.
 */
module RollingBloom {
  import opened Basics

  // ----- 64-bit words, which the filter only uses bit by bit -----

  /** Bit `k` of the word is element `k`. */
  type Word = w: seq<bool> | |w| == 64 witness seq(64, _ => false)

  function And(u: Word, v: Word): (w: Word)
    ensures forall k | 0 <= k < 64 :: w[k] == (u[k] && v[k])
  {
    seq(64, k requires 0 <= k < 64 => u[k] && v[k])
  }

  function Or(u: Word, v: Word): (w: Word)
    ensures forall k | 0 <= k < 64 :: w[k] == (u[k] || v[k])
  {
    seq(64, k requires 0 <= k < 64 => u[k] || v[k])
  }

  function Xor(u: Word, v: Word): (w: Word)
    ensures forall k | 0 <= k < 64 :: w[k] == (u[k] != v[k])
  {
    seq(64, k requires 0 <= k < 64 => u[k] != v[k])
  }

  function Not(u: Word): (w: Word)
    ensures forall k | 0 <= k < 64 :: w[k] == !u[k]
  {
    seq(64, k requires 0 <= k < 64 => !u[k])
  }

  /** `b << k`. */
  function Shifted(b: bool, k: nat): (w: Word)
    requires k < 64
    ensures forall j | 0 <= j < 64 :: w[j] == (b && j == k)
  {
    seq(64, j => b && j == k)
  }

  /** `0 - b`: all bits equal to `b`. */
  function Negated(b: bool): (w: Word)
    ensures forall j | 0 <= j < 64 :: w[j] == b
  {
    seq(64, _ => b)
  }

  // ----- Generations -----

  function Bit0(g: nat): bool { g % 2 == 1 }
  function Bit1(g: nat): bool { g / 2 == 1 }

  /** The generation number in two bits; 0 if unset. */
  function Number(b0: bool, b1: bool): nat { (if b0 then 1 else 0) + (if b1 then 2 else 0) }

  /** The generation before another, in the order 1, 2, 3, 1, ... */
  function Prev(g: nat): nat { if g <= 1 then 3 else g - 1 }

  /** The generation that was current `age` generations ago. */
  function Generation(g: nat, age: nat): nat { if age == 0 then g else if age == 1 then Prev(g) else Prev(Prev(g)) }

  /** One word of each plane after wiping what a generation wrote. */
  function Wipe(p1: Word, p2: Word, g: nat): (Word, Word) {
    var mask := Or(Xor(p1, Negated(Bit0(g))), Xor(p2, Negated(Bit1(g))));
    (And(p1, mask), And(p2, mask))
  }

  /** Wiping clears exactly the cells of the generation. */
  lemma WipeClears(p1: Word, p2: Word, g: nat, k: nat)
    requires 1 <= g <= 3 && k < 64
    ensures var w := Wipe(p1, p2, g);
            Number(w.0[k], w.1[k]) == if Number(p1[k], p2[k]) == g then 0 else Number(p1[k], p2[k])
  {
  }

  // ----- Cells -----

  /** A bit of a pair of words. */
  datatype Cell = Cell(word: nat, bit: nat)

  type Planes = seq<Word>

  /** The generation that wrote a cell last, 0 if none. */
  function Stored(data: Planes, c: Cell): nat {
    if 2 * c.word + 1 < |data| && c.bit < 64 then Number(data[2 * c.word][c.bit], data[2 * c.word + 1][c.bit]) else 0
  }

  /** What the cells hold, when each is known by the age of the generation that wrote it last. */
  ghost predicate Holds(data: Planes, g: nat, ages: map<Cell, nat>) {
    forall c :: CellOk(data, g, ages, c)
  }

  ghost predicate CellOk(data: Planes, g: nat, ages: map<Cell, nat>, c: Cell) {
    if c in ages then ages[c] <= 2 && Stored(data, c) == Generation(g, ages[c]) else Stored(data, c) == 0
  }

  /** One more generation: what was two generations old is given up. */
  function Older(ages: map<Cell, nat>): map<Cell, nat> { map c | c in ages && ages[c] < 2 :: ages[c] + 1 }

  function Next(g: nat): nat { if g + 1 == 4 then 1 else g + 1 }

  lemma AgesMatch(g: nat, age: nat)
    requires 1 <= g <= 3 && age <= 2
    ensures 1 <= Generation(g, age) <= 3
    ensures age < 2 ==> Generation(Next(g), age + 1) == Generation(g, age) != Next(g)
    ensures age == 2 ==> Generation(g, age) == Next(g)
  {
  }

  /** A cell of planes that were wiped for a new generation. */
  lemma RotatedCell(before: Planes, after: Planes, g: nat, ages: map<Cell, nat>, c: Cell)
    requires 1 <= g <= 3 && Holds(before, g, ages) && |after| == |before|
    requires forall w | 0 <= 2 * w < |after| - 1 ::
             (after[2 * w], after[2 * w + 1]) == Wipe(before[2 * w], before[2 * w + 1], Next(g))
    ensures CellOk(after, Next(g), Older(ages), c)
  {
    assert CellOk(before, g, ages, c);
    if 2 * c.word + 1 < |after|
      && c.bit < 64 { WipeClears(before[2 * c.word], before[2 * c.word + 1], Next(g), c.bit); }
    if c in ages { AgesMatch(g, ages[c]); }
  }

  // ----- Hashes -----

  type Key = nat

  /** The hash functions of the filter, as a table of 32-bit values. */
  type Hash = map<(nat, Key), nat>

  function HashOf(h: Hash, n: nat, key: Key): nat { (if (n, key) in h then h[(n, key)] else 0) % TWO32 }

  /** `FastMod`. */
  function FastMod(x: nat, n: nat): nat { FastRange(x, n) }

  lemma FastModInRange(x: nat, n: nat)
    requires x < TWO32 && n > 0
    ensures FastMod(x, n) < n
  {
    FastRangeFits(x, n);
  }

  function CellOf(h: Hash, n: nat, key: Key, size: nat): Cell {
    Cell(FastMod(HashOf(h, n, key), size) / 2, HashOf(h, n, key) % 64)
  }

  lemma CellInRange(h: Hash, n: nat, key: Key, size: nat)
    requires size > 0 && size % 2 == 0
    ensures 2 * CellOf(h, n, key, size).word + 1 < size && CellOf(h, n, key, size).bit < 64
  {
    FastModInRange(HashOf(h, n, key), size);
  }

  /** All the cells of a key were written at most `age` generations ago. */
  ghost predicate Marked(h: Hash, nHashFuncs: nat, size: nat, ages: map<Cell, nat>, key: Key, age: nat) {
    forall n | 0 <= n < nHashFuncs :: CellOf(h, n, key, size) in ages && ages[CellOf(h, n, key, size)] <= age
  }

  ghost predicate AllMarked(h: Hash, nHashFuncs: nat, size: nat, ages: map<Cell, nat>, keys: seq<Key>, age: nat) {
    forall i | 0 <= i < |keys| :: Marked(h, nHashFuncs, size, ages, keys[i], age)
  }

  /** Ageing keeps the keys of the two youngest generations. */
  lemma MarkedOlder(h: Hash, nHashFuncs: nat, size: nat, ages: map<Cell, nat>, keys: seq<Key>, age: nat)
    requires AllMarked(h, nHashFuncs, size, ages, keys, age) && age < 2
    ensures AllMarked(h, nHashFuncs, size, Older(ages), keys, age + 1)
  {
  }

  /** Writing a cell anew only makes it younger. */
  lemma MarkedYounger(h: Hash, nHashFuncs: nat, size: nat, ages: map<Cell, nat>, c: Cell, keys: seq<Key>, age: nat)
    requires AllMarked(h, nHashFuncs, size, ages, keys, age)
    ensures AllMarked(h, nHashFuncs, size, ages[c := 0], keys, age)
  {
  }

  // ----- The filter -----

  class RollingBloomFilter {
    const hash: Hash
    const nHashFuncs: nat
    const nElements: nat
    const nEntriesPerGeneration: nat
    var nEntriesThisGeneration: nat
    var nGeneration: nat
    var data: Planes
    /** For every cell in use, how many generations ago it was written. */
    ghost var ages: map<Cell, nat>
    /** The keys inserted: before the last three generations, and in each of these. */
    ghost var past: seq<Key>
    ghost var older: seq<Key>
    ghost var previous: seq<Key>
    ghost var current: seq<Key>

    ghost function History(): seq<Key>
      reads this
    {
      past + older + previous + current
    }

    ghost predicate Planed()
      reads this
    {
      |data| % 2 == 0 && 1 <= nGeneration <= 3 && Holds(data, nGeneration, ages)
    }

    ghost predicate Remembered()
      reads this
    {
      && AllMarked(hash, nHashFuncs, |data|, ages, older, 2)
      && AllMarked(hash, nHashFuncs, |data|, ages, previous, 1)
      && AllMarked(hash, nHashFuncs, |data|, ages, current, 0)
    }

    ghost predicate Valid()
      reads this
    {
      && Planed() && Remembered() && nEntriesPerGeneration == (nElements + 1) / 2
      && |current| == nEntriesThisGeneration
         && (nEntriesPerGeneration > 0 ==> nEntriesThisGeneration <= nEntriesPerGeneration)
      && (previous != [] || older != [] || past != [] ==> |previous| == nEntriesPerGeneration)
      && (older != [] || past != [] ==> |older| == nEntriesPerGeneration)
    }

    /** The filter for `nElements` keys, empty. */
    constructor (hash: Hash, nElements: nat, nHashFuncs: nat, nFilterBits: nat)
      ensures Valid() && History() == [] && this.nElements == nElements
      ensures this.nHashFuncs == nHashFuncs && (data == [] <==> nFilterBits == 0)
    {
      this.hash, this.nHashFuncs, this.nElements := hash, nHashFuncs, nElements;
      nEntriesPerGeneration := (nElements + 1) / 2;
      data := seq((nFilterBits + 63) / 64 * 2, _ => Negated(false));
      nEntriesThisGeneration, nGeneration := 0, 1;
      ages, past, older, previous, current := map[], [], [], [], [];
    }

    /** Start a generation and wipe what its number stood for. */
    method Rotate()
      requires Planed()
      modifies `nGeneration, `data, `ages
      ensures Planed() && |data| == old(|data|) && ages == Older(old(ages)) && nGeneration == Next(old(nGeneration))
    {
      nGeneration := nGeneration + 1;
      if nGeneration == 4 { nGeneration := 1; }
      ghost var before := data;
      var p := 0;
      while p < |data|
        invariant 0 <= p <= |data| == |before| && p % 2 == 0 && nGeneration == Next(old(nGeneration))
                  && ages == old(ages)
        invariant forall w | 0 <= 2 * w < p ::
                  (data[2 * w], data[2 * w + 1]) == Wipe(before[2 * w], before[2 * w + 1], nGeneration)
        invariant forall i | p <= i < |data| :: data[i] == before[i]
      {
        var w := Wipe(data[p], data[p + 1], nGeneration);
        assert p == 2 * (p / 2);
        data := data[p := w.0][p + 1 := w.1];
        p := p + 2;
      }
      ages := Older(ages);
      forall c ensures CellOk(data, nGeneration, ages, c) {
        RotatedCell(before, data, old(nGeneration), old(ages), c);
      }
    }

    /** Write the current generation into one cell. */
    method WriteCell(c: Cell)
      requires Planed() && 2 * c.word + 1 < |data| && c.bit < 64
      modifies `data, `ages
      ensures Planed() && |data| == old(|data|) && ages == old(ages)[c := 0]
    {
      var clear := Not(Shifted(true, c.bit));
      var p, q := 2 * c.word, 2 * c.word + 1;
      data := data[p := Or(And(data[p], clear), Shifted(Bit0(nGeneration), c.bit))];
      data := data[q := Or(And(data[q], clear), Shifted(Bit1(nGeneration), c.bit))];
      ages := ages[c := 0];
      forall d ensures CellOk(data, nGeneration, ages, d) {
        assert CellOk(old(data), nGeneration, old(ages), d);
      }
    }

    /** `insert`; a filter of no bits has no cell to write. */
    method insert(key: Key)
      requires Valid() && (nHashFuncs > 0 ==> data != [])
      modifies this
      ensures Valid() && History() == old(History()) + [key] && |data| == old(|data|)
    {
      if nEntriesThisGeneration == nEntriesPerGeneration {
        StartGeneration();
      }
      nEntriesThisGeneration := nEntriesThisGeneration + 1;
      for n := 0 to nHashFuncs
        modifies `data, `ages
        invariant Planed() && Remembered() && |data| == old(|data|)
        invariant forall m | 0 <= m < n ::
                  CellOf(hash, m, key, |data|) in ages && ages[CellOf(hash, m, key, |data|)] == 0
      {
        var c := CellOf(hash, n, key, |data|);
        CellInRange(hash, n, key, |data|);
        MarkedYounger(hash, nHashFuncs, |data|, ages, c, older, 2);
        MarkedYounger(hash, nHashFuncs, |data|, ages, c, previous, 1);
        MarkedYounger(hash, nHashFuncs, |data|, ages, c, current, 0);
        WriteCell(c);
      }
      current := current + [key];
    }

    method StartGeneration()
      requires Valid() && |current| == nEntriesPerGeneration
      modifies this
      ensures Planed() && Remembered() && History() == old(History()) && |data| == old(|data|)
      ensures current == [] && nEntriesThisGeneration == 0 && |previous| == nEntriesPerGeneration
      ensures older != [] || past != [] ==> |older| == nEntriesPerGeneration
    {
      nEntriesThisGeneration := 0;
      MarkedOlder(hash, nHashFuncs, |data|, ages, previous, 1);
      MarkedOlder(hash, nHashFuncs, |data|, ages, current, 0);
      Rotate();
      past, older, previous, current := past + older, previous, current, [];
    }

    /** What was inserted at most two full generations ago is still marked. */
    lemma LastAreMarked(i: nat)
      requires Valid() && i < |History()| && |History()| - i <= 2 * nEntriesPerGeneration + |current|
      ensures Marked(hash, nHashFuncs, |data|, ages, History()[i], 2)
    {
      var j := i - |past|;
      if j < |older| {
        assert History()[i] == older[j];
      } else if j < |older| + |previous| {
        assert History()[i] == previous[j - |older|];
      } else {
        assert History()[i] == current[j - |older| - |previous|];
      }
    }

    /** `contains`: whether all the cells of a key are set; true for each of the last `nElements` keys inserted. */
    method contains(key: Key) returns (r: bool)
      requires Valid() && (nHashFuncs > 0 ==> data != [])
      ensures r <==> forall n | 0 <= n < nHashFuncs :: CellOf(hash, n, key, |data|) in ages
      ensures forall i | 0 <= i < |History()| && |History()| - nElements <= i && History()[i] == key :: r
    {
      forall i | 0 <= i < |History()| && |History()| - nElements <= i && History()[i] == key
        ensures forall n | 0 <= n < nHashFuncs :: CellOf(hash, n, key, |data|) in ages
      {
        LastAreMarked(i);
      }
      for n := 0 to nHashFuncs
        invariant forall m | 0 <= m < n :: CellOf(hash, m, key, |data|) in ages
      {
        var c := CellOf(hash, n, key, |data|);
        CellInRange(hash, n, key, |data|);
        assert CellOk(data, nGeneration, ages, c);
        if !Or(data[2 * c.word], data[2 * c.word + 1])[c.bit] { return false; }
      }
      return true;
    }
  }
}
