/**
 The field of 1024 elements in which the checksum of `src/bech32.cpp` is designed: its laws, and that the powers of y
 run through all its elements other than 0.
 */
module Field1024 {
  // ----- GF(1024) -----

  /** A polynomial in y of degree below 10, where y^10 = y^9 + y^5 + y^2 + 1. */
  type Element = bv10

  function Plus(v: Element, w: Element): Element { v ^ w }

  function Part(b: bool, w: Element): Element { if b then w else 0 }

  function Doubled(w: Element): Element { (w & 0x1ff) << 1 }

  /** Times y. */
  function Shifted(w: Element): Element { Plus(Doubled(w), Part(w & 0x200 != 0, 0x225)) }

  function Horner(b: bool, w: Element, r: Element): Element { Plus(Part(b, w), Shifted(r)) }

  /** The polynomial with coefficients `k` times `w`. */
  function MulBits(k: seq<bool>, w: Element): Element { if k == [] then 0 else Horner(k[0], w, MulBits(k[1..], w)) }

  function Coefficients(k: Element): (b: seq<bool>)
    ensures |b| == 10
  {
    [k & 1 != 0, k & 2 != 0, k & 4 != 0, k & 8 != 0, k & 16 != 0, k & 32 != 0, k & 64 != 0, k & 128 != 0, k & 256 != 0,
     k & 512 != 0]
  }

  /** The product. */
  function Mul(k: Element, w: Element): Element { MulBits(Coefficients(k), w) }

  lemma TwoSums(a: Element, b: Element, p: Element, q: Element)
    ensures Plus(Plus(a, p), Plus(b, q)) == Plus(Plus(a, b), Plus(p, q))
  {
    assert (a ^ p) ^ (b ^ q) == (a ^ b) ^ (p ^ q);
  }

  lemma NothingAdded(x: Element, w: Element)
    ensures Plus(x, x) == 0 && Plus(0, w) == w && Plus(w, 0) == w
  {
    assert x ^ x == 0 && 0 ^ w == w && w ^ 0 == w;
  }

  lemma DoubledSum(v: Element, w: Element)
    ensures Doubled(Plus(v, w)) == Plus(Doubled(v), Doubled(w))
  {
    assert ((v ^ w) & 0x1ff) << 1 == ((v & 0x1ff) << 1) ^ ((w & 0x1ff) << 1);
  }

  lemma TopOfSum(v: Element, w: Element)
    ensures (Plus(v, w) & 0x200 != 0) == ((v & 0x200 != 0) != (w & 0x200 != 0))
  {
    assert ((v ^ w) & 0x200 != 0) == ((v & 0x200 != 0) != (w & 0x200 != 0));
  }

  lemma PartDiffers(a: bool, b: bool, w: Element)
    ensures Part(a != b, w) == Plus(Part(a, w), Part(b, w))
  {
    hide Plus;
    NothingAdded(w, w);
    NothingAdded(0, 0);
  }

  lemma ShiftedSum(v: Element, w: Element)
    ensures Shifted(Plus(v, w)) == Plus(Shifted(v), Shifted(w))
  {
    hide Plus, Doubled, Part;
    DoubledSum(v, w);
    TopOfSum(v, w);
    PartDiffers(v & 0x200 != 0, w & 0x200 != 0, 0x225);
    TwoSums(Doubled(v), Doubled(w), Part(v & 0x200 != 0, 0x225), Part(w & 0x200 != 0, 0x225));
  }

  lemma PartSum(b: bool, v: Element, w: Element)
    ensures Part(b, Plus(v, w)) == Plus(Part(b, v), Part(b, w)) && Shifted(Part(b, w)) == Part(b, Shifted(w))
  {
  }

  lemma HornerSum(b: bool, v: Element, w: Element, p: Element, q: Element)
    ensures Horner(b, Plus(v, w), Plus(p, q)) == Plus(Horner(b, v, p), Horner(b, w, q))
  {
    hide Plus, Part, Shifted;
    PartSum(b, v, w);
    ShiftedSum(p, q);
    TwoSums(Part(b, v), Shifted(p), Part(b, w), Shifted(q));
  }

  lemma {:induction false} MulBitsSum(k: seq<bool>, v: Element, w: Element)
    ensures MulBits(k, Plus(v, w)) == Plus(MulBits(k, v), MulBits(k, w))
  {
    hide Plus, Horner;
    if k == [] {
      NothingAdded(0, 0);
    } else {
      var j := k[1..];
      MulBitsSum(j, v, w);
      HornerSum(k[0], v, w, MulBits(j, v), MulBits(j, w));
    }
  }

  lemma HornerShifted(b: bool, w: Element, p: Element)
    ensures Horner(b, Shifted(w), Shifted(p)) == Shifted(Horner(b, w, p))
  {
    hide Plus, Part, Shifted;
    PartSum(b, w, w);
    ShiftedSum(Part(b, w), Shifted(p));
  }

  lemma {:induction false} MulBitsShifted(k: seq<bool>, w: Element)
    ensures MulBits(k, Shifted(w)) == Shifted(MulBits(k, w))
  {
    hide Horner;
    if k != [] {
      MulBitsShifted(k[1..], w);
      HornerShifted(k[0], w, MulBits(k[1..], w));
    }
  }

  lemma {:induction false} MulBitsZero(k: seq<bool>)
    ensures MulBits(k, 0) == 0
  {
    if k != [] { MulBitsZero(k[1..]); }
  }

  lemma MulBitsHorner(k: seq<bool>, b: bool, w: Element, x: Element)
    ensures MulBits(k, Horner(b, w, x)) == Horner(b, MulBits(k, w), MulBits(k, x))
  {
    hide Plus, Shifted, MulBits;
    MulBitsSum(k, Part(b, w), Shifted(x));
    MulBitsZero(k);
    MulBitsShifted(k, x);
  }

  lemma {:induction false} MulBitsSwap(a: seq<bool>, b: seq<bool>, w: Element)
    ensures MulBits(a, MulBits(b, w)) == MulBits(b, MulBits(a, w))
  {
    hide Horner;
    if a == [] {
      MulBitsZero(b);
    } else {
      MulBitsSwap(a[1..], b, w);
      MulBitsHorner(b, a[0], w, MulBits(a[1..], w));
    }
  }

  /** The product, written out. */
  function Flat(k: Element, w: Element): Element {
    Horner(k & 1 != 0, w, Horner(k & 2 != 0, w, Horner(k & 4 != 0, w, Horner(k & 8 != 0, w, Horner(k & 16 != 0, w,
      Horner(k & 32 != 0, w, Horner(k & 64 != 0, w, Horner(k & 128 != 0, w, Horner(k & 256 != 0, w,
        Horner(k & 512 != 0, w, 0))))))))))
  }

  lemma MulBitsFrom(k: seq<bool>, i: nat, w: Element, r: Element)
    requires i < |k| && MulBits(k[i + 1..], w) == r
    ensures MulBits(k[i..], w) == Horner(k[i], w, r)
  {
    assert k[i..][1..] == k[i + 1..];
  }

  lemma MulBitsNone(k: seq<bool>, w: Element)
    requires k == []
    ensures MulBits(k, w) == 0
  {
  }

  lemma MulIsFlat(k: Element, w: Element)
    ensures Mul(k, w) == Flat(k, w)
  {
    hide Horner, MulBits;
    var b := Coefficients(k);
    var r: Element := 0;
    MulBitsNone(b[10..], w);
    MulBitsFrom(b, 9, w, r);
    r := Horner(b[9], w, r);
    MulBitsFrom(b, 8, w, r);
    r := Horner(b[8], w, r);
    MulBitsFrom(b, 7, w, r);
    r := Horner(b[7], w, r);
    MulBitsFrom(b, 6, w, r);
    r := Horner(b[6], w, r);
    MulBitsFrom(b, 5, w, r);
    r := Horner(b[5], w, r);
    MulBitsFrom(b, 4, w, r);
    r := Horner(b[4], w, r);
    MulBitsFrom(b, 3, w, r);
    r := Horner(b[3], w, r);
    MulBitsFrom(b, 2, w, r);
    r := Horner(b[2], w, r);
    MulBitsFrom(b, 1, w, r);
    r := Horner(b[1], w, r);
    MulBitsFrom(b, 0, w, r);
    r := Horner(b[0], w, r);
    assert b[0..] == b;
  }

  lemma OneFrom8(k: Element, r: Element)
    requires r == 0
    ensures Horner(k & 256 != 0, 1, Horner(k & 512 != 0, 1, r)) == k >> 8
  {
  }

  lemma OneFrom6(k: Element, r: Element)
    requires r == k >> 8
    ensures Horner(k & 64 != 0, 1, Horner(k & 128 != 0, 1, r)) == k >> 6
  {
  }

  lemma OneFrom4(k: Element, r: Element)
    requires r == k >> 6
    ensures Horner(k & 16 != 0, 1, Horner(k & 32 != 0, 1, r)) == k >> 4
  {
  }

  lemma OneFrom2(k: Element, r: Element)
    requires r == k >> 4
    ensures Horner(k & 4 != 0, 1, Horner(k & 8 != 0, 1, r)) == k >> 2
  {
  }

  lemma OneFrom0(k: Element, r: Element)
    requires r == k >> 2
    ensures Horner(k & 1 != 0, 1, Horner(k & 2 != 0, 1, r)) == k >> 0
  {
  }

  lemma MulOne(k: Element)
    ensures Mul(k, 1) == k
  {
    MulIsFlat(k, 1);
    OneFrom8(k, 0);
    OneFrom6(k, k >> 8);
    OneFrom4(k, k >> 6);
    OneFrom2(k, k >> 4);
    OneFrom0(k, k >> 2);
  }

  lemma MulSum(k: Element, v: Element, w: Element)
    ensures Mul(k, Plus(v, w)) == Plus(Mul(k, v), Mul(k, w))
  {
    hide Plus, MulBits;
    MulBitsSum(Coefficients(k), v, w);
  }

  lemma MulZero(k: Element)
    ensures Mul(k, 0) == 0
  {
    hide MulBits;
    MulBitsZero(Coefficients(k));
  }

  lemma MulSwap(a: Element, b: Element, w: Element)
    ensures Mul(a, Mul(b, w)) == Mul(b, Mul(a, w))
  {
    hide MulBits;
    MulBitsSwap(Coefficients(a), Coefficients(b), w);
  }

  lemma MulCommutes(a: Element, b: Element)
    ensures Mul(a, b) == Mul(b, a)
  {
    hide Mul;
    MulSwap(a, b, 1);
    MulOne(a);
    MulOne(b);
  }

  lemma MulAssociates(a: Element, b: Element, w: Element)
    ensures Mul(Mul(a, b), w) == Mul(a, Mul(b, w))
  {
    hide Mul;
    MulCommutes(Mul(a, b), w);
    MulSwap(w, a, b);
    MulCommutes(w, b);
  }

  lemma OneMul(k: Element)
    ensures Mul(1, k) == k
  {
    hide Mul;
    MulCommutes(1, k);
    MulOne(k);
  }

  // ----- Powers -----

  function Exp(r: Element, n: nat): Element { if n == 0 then 1 else Mul(r, Exp(r, n - 1)) }

  lemma {:induction false} ExpSum(r: Element, a: nat, b: nat)
    ensures Exp(r, a + b) == Mul(Exp(r, a), Exp(r, b))
    decreases a
  {
    hide Mul;
    if a == 0 {
      OneMul(Exp(r, b));
    } else {
      ExpSum(r, a - 1, b);
      MulAssociates(r, Exp(r, a - 1), Exp(r, b));
    }
  }

  lemma {:induction false} ExpOfProduct(r: Element, s: Element, n: nat)
    ensures Exp(Mul(r, s), n) == Mul(Exp(r, n), Exp(s, n))
  {
    hide Mul;
    if n == 0 {
      OneMul(1);
    } else {
      var x, y := Exp(r, n - 1), Exp(s, n - 1);
      ExpOfProduct(r, s, n - 1);
      MulAssociates(r, s, Mul(x, y));
      MulSwap(s, x, y);
      MulAssociates(r, x, Mul(s, y));
    }
  }

  lemma ExpIs(r: Element, a: nat, b: nat, x: Element, y: Element, z: Element)
    requires Exp(r, a) == x && Exp(r, b) == y && Flat(x, y) == z
    ensures Exp(r, a + b) == z
  {
    hide Mul, Flat, Exp;
    ExpSum(r, a, b);
    MulIsFlat(x, y);
  }

  /** A number of steps after which multiplying by y gives `w` back. */
  ghost predicate Period(y: Element, w: Element, n: nat) { Mul(Exp(y, n), w) == w }

  lemma PeriodSum(y: Element, w: Element, a: nat, b: nat)
    requires Period(y, w, b)
    ensures Period(y, w, a + b) <==> Period(y, w, a)
  {
    hide Mul, Exp;
    ExpSum(y, a, b);
    MulAssociates(Exp(y, a), Exp(y, b), w);
  }

  lemma {:induction false} PeriodTimes(y: Element, w: Element, m: nat, n: nat)
    requires Period(y, w, n)
    ensures Period(y, w, m * n)
    decreases m
  {
    hide Mul;
    if m == 0 {
      OneMul(w);
      assert m * n == 0;
    } else {
      PeriodTimes(y, w, m - 1, n);
      assert m * n == (m - 1) * n + n;
      PeriodSum(y, w, (m - 1) * n, n);
    }
  }

  // An addition chain up to 1023: exponents, powers of y, and the two earlier places that each one is the sum of.

  function Exponent(i: nat): nat {
    if i == 0 then 1 else if i == 1 then 2 else if i == 2 then 3 else if i == 3 then 6 else if i == 4 then 12
    else if i == 5 then 24 else if i == 6 then 30 else if i == 7 then 31 else if i == 8 then 33 else if i == 9 then 62
    else if i == 10 then 93 else if i == 11 then 124 else if i == 12 then 248 else if i == 13 then 310 else if i == 14
      then 341
    else if i == 15 then 682
    else 1023
  }

  function PowerAt(i: nat): Element {
    if i == 0 then 0x2 else if i == 1 then 0x4 else if i == 2 then 0x8 else if i == 3 then 0x40 else if i == 4
      then 0x2fb
    else if i == 5 then 0xbc else if i == 6 then 0x99 else if i == 7 then 0x132 else if i == 8 then 0x2ed else if i == 9
      then 0x308
    else if i == 10 then 0xd9 else if i == 11 then 0xcd else if i == 12 then 0x329 else if i == 13 then 0x95
      else if i == 14 then 0x96
    else if i == 15 then 0x97
    else 0x1
  }

  function First(i: nat): nat {
    if i == 0 then 0 else if i == 1 then 0 else if i == 2 then 1 else if i == 3 then 2 else if i == 4 then 3
    else if i == 5 then 4 else if i == 6 then 5 else if i == 7 then 6 else if i == 8 then 7 else if i == 9 then 7
    else if i == 10 then 9 else if i == 11 then 9 else if i == 12 then 11 else if i == 13 then 12 else if i == 14
      then 13
    else if i == 15 then 14
    else 15
  }

  function Second(i: nat): nat {
    if i == 0 then 0 else if i == 1 then 0 else if i == 2 then 0 else if i == 3 then 2 else if i == 4 then 3
    else if i == 5 then 4 else if i == 6 then 3 else if i == 7 then 0 else if i == 8 then 1 else if i == 9 then 7
    else if i == 10 then 7 else if i == 11 then 9 else if i == 12 then 11 else if i == 13 then 9 else if i == 14 then 7
    else if i == 15 then 14
    else 14
  }

  lemma Linked(i: nat)
    requires 0 < i < 17
    ensures First(i) < i && Second(i) < i && Exponent(i) == Exponent(First(i)) + Exponent(Second(i))
    ensures Flat(PowerAt(First(i)), PowerAt(Second(i))) == PowerAt(i)
  {
    if i == 1 {
    } else if i == 2 {
    } else if i == 3 {
    } else if i == 4 {
    } else if i == 5 {
    } else if i == 6 {
    } else if i == 7 {
    } else if i == 8 {
    } else if i == 9 {
    } else if i == 10 {
    } else if i == 11 {
    } else if i == 12 {
    } else if i == 13 {
    } else if i == 14 {
    } else if i == 15 {
    }
  }

  lemma {:induction false} ChainHolds(y: Element, i: nat)
    requires i < 17 && Exp(y, 1) == 2
    ensures Exp(y, Exponent(i)) == PowerAt(i)
    decreases i
  {
    hide Mul, Flat;
    if i > 0 {
      Linked(i);
      ChainHolds(y, First(i));
      ChainHolds(y, Second(i));
      ExpIs(y, Exponent(First(i)), Exponent(Second(i)), PowerAt(First(i)), PowerAt(Second(i)), PowerAt(i));
    }
  }

  /** A constant that leaves an element other than 0 as it is, is 1. */
  lemma OnlyOne(k: Element, l: Element, w: Element)
    requires Mul(k, w) == w && Flat(l, Plus(k, 1)) == 1
    ensures w == 0
  {
    hide Mul, Flat, Plus;
    var d := Plus(k, 1);
    MulIsFlat(l, d);
    MulAssociates(l, d, w);
    OneMul(w);
    DifferenceOfOne(k, w);
    NothingAdded(w, 0);
    MulZero(l);
  }

  lemma DifferenceOfOne(k: Element, w: Element)
    ensures Mul(Plus(k, 1), w) == Plus(Mul(k, w), w)
  {
    hide Mul, Plus;
    MulCommutes(Plus(k, 1), w);
    MulSum(w, k, 1);
    MulCommutes(w, k);
    MulOne(w);
  }

  /** The inverse of the power at a place, less 1. */
  function InverseAt(i: nat): Element { if i == 8 then 0x122 else if i == 10 then 0x27a else 0x96 }

  lemma InverseAtOk(i: nat)
    requires i == 8 || i == 10 || i == 14
    ensures Flat(InverseAt(i), Plus(PowerAt(i), 1)) == 1
  {
    if i == 8 {
    } else if i == 10 {
    }
  }

  lemma NoPeriodAt(y: Element, w: Element, i: nat)
    requires Exp(y, 1) == 2 && (i == 8 || i == 10 || i == 14) && Period(y, w, Exponent(i))
    ensures w == 0
  {
    hide Mul, Exp, Flat, Plus;
    InverseAtOk(i);
    ChainHolds(y, i);
    OnlyOne(PowerAt(i), InverseAt(i), w);
  }

  /** All elements have the period 1023. */
  lemma PeriodAll(y: Element, w: Element, last: nat)
    requires Exp(y, 1) == 2 && last == 16
    ensures Exponent(last) == 1023 && Period(y, w, 1023)
  {
    hide Mul, Exp;
    ChainHolds(y, last);
    OneMul(w);
  }

  // ----- No shorter period -----

  function Inverse3(r: nat): nat {
    if r == 1 then 1 else 2
  }

  lemma InverseOf3(r: nat)
    requires 0 < r < 3
    ensures r * Inverse3(r) % 3 == 1
  {
    var u := Inverse3(r);
    if r == 1 {
    }
  }

  lemma Inverts3(k: nat) returns (u: nat, m: nat)
    requires k % 3 != 0
    ensures u * k == 1 + 3 * m
  {
    u := Inverse3(k % 3);
    InverseOf3(k % 3);
    m := Carried(u, k % 3, k / 3, 3);
  }

  function Inverse11(r: nat): nat {
    if r == 1 then 1 else if r == 2 then 6 else if r == 3 then 4 else if r == 4 then 3 else if r == 5 then 9
    else if r == 6 then 2 else if r == 7 then 8 else if r == 8 then 7 else if r == 9 then 5 else 10
  }

  lemma InverseOf11(r: nat)
    requires 0 < r < 11
    ensures r * Inverse11(r) % 11 == 1
  {
    var u := Inverse11(r);
    if r == 1 {
    } else if r == 2 {
    } else if r == 3 {
    } else if r == 4 {
    } else if r == 5 {
    } else if r == 6 {
    } else if r == 7 {
    } else if r == 8 {
    } else if r == 9 {
    }
  }

  lemma Inverts11(k: nat) returns (u: nat, m: nat)
    requires k % 11 != 0
    ensures u * k == 1 + 11 * m
  {
    u := Inverse11(k % 11);
    InverseOf11(k % 11);
    m := Carried(u, k % 11, k / 11, 11);
  }

  function Inverse31(r: nat): nat {
    if r == 1 then 1 else if r == 2 then 16 else if r == 3 then 21 else if r == 4 then 8 else if r == 5 then 25
    else if r == 6 then 26 else if r == 7 then 9 else if r == 8 then 4 else if r == 9 then 7 else if r == 10 then 28
    else if r == 11 then 17 else if r == 12 then 13 else if r == 13 then 12 else if r == 14 then 20 else if r == 15
      then 29
    else if r == 16 then 2 else if r == 17 then 11 else if r == 18 then 19 else if r == 19 then 18 else if r == 20
      then 14
    else if r == 21 then 3 else if r == 22 then 24 else if r == 23 then 27 else if r == 24 then 22 else if r == 25
      then 5
    else if r == 26 then 6 else if r == 27 then 23 else if r == 28 then 10 else if r == 29 then 15 else 30
  }

  lemma InverseOf31(r: nat)
    requires 0 < r < 31
    ensures r * Inverse31(r) % 31 == 1
  {
    var u := Inverse31(r);
    if r == 1 {
    } else if r == 2 {
    } else if r == 3 {
    } else if r == 4 {
    } else if r == 5 {
    } else if r == 6 {
    } else if r == 7 {
    } else if r == 8 {
    } else if r == 9 {
    } else if r == 10 {
    } else if r == 11 {
    } else if r == 12 {
    } else if r == 13 {
    } else if r == 14 {
    } else if r == 15 {
    } else if r == 16 {
    } else if r == 17 {
    } else if r == 18 {
    } else if r == 19 {
    } else if r == 20 {
    } else if r == 21 {
    } else if r == 22 {
    } else if r == 23 {
    } else if r == 24 {
    } else if r == 25 {
    } else if r == 26 {
    } else if r == 27 {
    } else if r == 28 {
    } else if r == 29 {
    }
  }

  lemma Inverts31(k: nat) returns (u: nat, m: nat)
    requires k % 31 != 0
    ensures u * k == 1 + 31 * m
  {
    u := Inverse31(k % 31);
    InverseOf31(k % 31);
    m := Carried(u, k % 31, k / 31, 31);
  }

  lemma Carried(u: nat, r: nat, q: nat, p: nat) returns (m: nat)
    requires p > 1 && r * u % p == 1
    ensures u * (r + p * q) == 1 + p * m
  {
    var d := r * u / p;
    m := d + u * q;
    Spread(u, r, q, p);
    assert r * u == d * p + 1;
    assert p * (d + u * q) == d * p + p * (u * q);
  }

  lemma Spread(u: nat, r: nat, q: nat, p: nat)
    ensures u * (r + p * q) == r * u + p * (u * q)
  {
  }

  lemma Cofactor(c: nat, p: nat, u: nat, k: nat, m: nat)
    requires c * p == 1023 && u * k == 1 + p * m
    ensures (c * u) * k == c + m * 1023
  {
    assert (c * u) * k == c * (u * k);
    assert c * (1 + p * m) == c + (c * p) * m;
  }

  /** A period that a prime factor of 1023 does not divide leads to the period without this factor. */
  lemma PeriodWithout(y: Element, w: Element, c: nat, p: nat, u: nat, k: nat, m: nat)
    requires Period(y, w, 1023) && Period(y, w, k) && c * p == 1023 && u * k == 1 + p * m
    ensures Period(y, w, c)
  {
    hide Period;
    PeriodTimes(y, w, c * u, k);
    PeriodTimes(y, w, m, 1023);
    Cofactor(c, p, u, k, m);
    PeriodSum(y, w, c, m * 1023);
  }

  lemma NoPeriodWithout(y: Element, w: Element, k: nat, i: nat, p: nat, u: nat, m: nat)
    requires Exp(y, 1) == 2 && (i == 8 || i == 10 || i == 14) && Period(y, w, k) && Period(y, w, 1023)
    requires Exponent(i) * p == 1023 && u * k == 1 + p * m
    ensures w == 0
  {
    hide Period, Exp;
    PeriodWithout(y, w, Exponent(i), p, u, k, m);
    NoPeriodAt(y, w, i);
  }

  lemma Exponents()
    ensures Exponent(8) * 31 == 1023 && Exponent(10) * 11 == 1023 && Exponent(14) * 3 == 1023
  {
  }

  lemma AllFactors(k: nat)
    requires k < 1023 && k % 31 == 0 && k % 11 == 0 && k % 3 == 0
    ensures k == 0
  {
    var a, b, c := k / 31, k / 11, k / 3;
    assert 2 * a == 11 * (3 * a - b);
    var n := (3 * a - b) / 2;
    assert a == 11 * n;
    assert n == 3 * (114 * n - c);
  }

  lemma SomeFactor(k: nat)
    requires 0 < k < 1023
    ensures k % 31 != 0 || k % 11 != 0 || k % 3 != 0
  {
    if k % 31 == 0 && k % 11 == 0 && k % 3 == 0 { AllFactors(k); }
  }

  /** Multiplying by y goes round all the 1023 elements other than 0. */
  lemma NoShorterPeriod(y: Element, w: Element, k: nat, last: nat)
    requires Exp(y, 1) == 2 && last == 16 && 0 < k < 1023 && Period(y, w, k)
    ensures w == 0
  {
    hide Period, Exp, Exponent;
    PeriodAll(y, w, last);
    SomeFactor(k);
    Exponents();
    if k % 31 != 0 {
      var u, m := Inverts31(k);
      NoPeriodWithout(y, w, k, 8, 31, u, m);
    } else if k % 11 != 0 {
      var u, m := Inverts11(k);
      NoPeriodWithout(y, w, k, 10, 11, u, m);
    } else {
      var u, m := Inverts3(k);
      NoPeriodWithout(y, w, k, 14, 3, u, m);
    }
  }
}
