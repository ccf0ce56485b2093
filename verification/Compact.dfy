/**
 The compact form of a target (`arith_uint256::SetCompact`, `GetCompact`) and the work of a block
 (`GetBlockProof`): what the form keeps, when it overflows, and that the work is exact.
 */
module Compact {
  import opened Basics
  import opened Limbs
  import opened ArithUint256
  import opened ArithDivision

  const EXPONENT := 0x100_0000
  const SIGN := 0x80_0000

  // ----- What a compact number denotes -----

  function Size(c: nat): nat { c / EXPONENT }

  function Word(c: nat): nat { c % SIGN }

  predicate SignBit(c: nat) { (c / SIGN) % 2 == 1 }

  function Times(x: nat, p: nat): nat { x * p }

  function Over(x: nat, p: nat): nat
    requires p > 0
  {
    x / p
  }

  function Scale(w: nat, z: nat): nat
  {
    if z <= 3 then Over(w, Pow2(8 * (3 - z))) else Times(w, Pow2(8 * (z - 3)))
  }

  /** The magnitude, before it is cut to 256 bits. */
  function Expand(c: nat): nat { Scale(Word(c), Size(c)) }

  predicate Negative(c: nat) { SignBit(c) && Expand(c) != 0 }

  /** The three bytes of `x` that end at byte `z`. */
  function Top(x: nat, z: nat): nat
  {
    if z <= 3 then Times(x, Pow2(8 * (3 - z))) else Over(x, Pow2(8 * (z - 3)))
  }

  function ByteLength(x: nat): nat { (BitLength(x) + 7) / 8 }

  /** Mantissa and size: the top three bytes, one byte less where their first bit is set. */
  function Parts(x: nat): (nat, nat)
  {
    var n := ByteLength(x);
    var w := Top(x, n);
    if (w / SIGN) % 2 == 1 then (w / 256, n + 1) else (w, n)
  }

  function Pack(w: nat, z: nat, sign: bool): nat { w + z * EXPONENT + if sign && w != 0 then SIGN else 0 }

  function CompactOf(x: nat, negative: bool): nat { Pack(Parts(x).0, Parts(x).1, negative) }

  // ----- Powers of two, with the exponents as parameters so that the verifier does not unroll them -----

  lemma PowerIs(e: nat)
    requires e == 8 || e == 15 || e == 16 || e == 23 || e == 24
    ensures Pow2(e) == if e == 8 then 256 else if e == 15 then 0x8000 else if e == 16 then 0x1_0000 else if e == 23
            then SIGN else EXPONENT
  {
    assert Pow2(7) == 128 && Pow2(8) == 256;
    Pow2Sum(8, 7);
    Pow2Sum(8, 8);
    Pow2Sum(8, 15);
    Pow2Sum(8, 16);
  }

  lemma ScaledBelow(x: nat, a: nat, m: nat)
    requires m > 0
    ensures x < a <==> x * m < a * m
  {
    if x < a { Above(x, a, m); } else { Monotone(a, x, m); }
  }

  lemma QuotientBelow(x: nat, a: nat, m: nat)
    requires m > 0
    ensures x / m < a <==> x < a * m
  {
    DivMod(x, m);
    var q := x / m;
    if q < a {
      Monotone(q + 1, a, m);
      assert (q + 1) * m == q * m + m;
    } else {
      Monotone(a, q, m);
    }
  }

  /** Where `x` lies among the powers of two is where its top bytes lie. */
  lemma TopBounds(x: nat, z: nat, j: nat, e: nat)
    requires e + 8 * z == j + 24
    ensures x < Pow2(j) <==> Top(x, z) < Pow2(e)
  {
    if z <= 3 {
      var k := 8 * (3 - z);
      Pow2Sum(j, k);
      ScaledBelow(x, Pow2(j), Pow2(k));
    } else {
      var k := 8 * (z - 3);
      Pow2Sum(e, k);
      QuotientBelow(x, Pow2(e), Pow2(k));
    }
  }

  lemma BitLengthBelow(x: nat, j: nat)
    ensures x < Pow2(j) <==> BitLength(x) <= j
  {
    BitLengthBounds(x);
    if BitLength(x) <= j {
      Pow2Monotone(BitLength(x), j);
    } else {
      Pow2Monotone(j, BitLength(x) - 1);
    }
  }

  lemma TopRange(x: nat)
    requires x > 0
    ensures ByteLength(x) > 0 && 0x1_0000 <= Top(x, ByteLength(x)) < EXPONENT
  {
    var n, e, f := ByteLength(x), 24, 16;
    BitLengthBounds(x);
    BitLengthBelow(x, 8 * n);
    TopBounds(x, n, 8 * n, e);
    PowerIs(e);
    BitLengthBelow(x, 8 * n - 8);
    TopBounds(x, n, 8 * n - 8, f);
    PowerIs(f);
  }

  lemma TopNext(x: nat, z: nat)
    ensures Top(x, z + 1) == Top(x, z) / 256
  {
    var e := 8;
    PowerIs(e);
    if z < 3 {
      Pow2Sum(8 * (2 - z), e);
      Regroup(x, Pow2(8 * (2 - z)));
    } else if z > 3 {
      Pow2Sum(8 * (z - 3), e);
      QuotientTwice(x, Pow2(8 * (z - 3)), 256);
    }
  }

  lemma Regroup(x: nat, p: nat)
    ensures x * (p * 256) / 256 == x * p
  {
    assert x * (p * 256) == x * p * 256;
  }

  lemma QuotientTwice(x: nat, p: nat, q: nat)
    requires p > 0 && q > 0 && p * q > 0
    ensures x / (p * q) == x / p / q
  {
    var low, high := x % p, x / p;
    DivMod(x, p);
    assert x == low + p * high;
    TwoQuotients(low, high, p, q);
  }

  // ----- The mantissa -----

  /** A mantissa that says all it can: at least sixteen bits with the sign bit clear. */
  predicate Full(w: nat) { 0x8000 <= w < SIGN }

  lemma PartsFull(x: nat)
    requires x > 0
    ensures Full(Parts(x).0) && Parts(x).1 > 0 && Top(x, Parts(x).1) == Parts(x).0
  {
    TopRange(x);
    TopNext(x, ByteLength(x));
  }

  lemma TopOfZero(x: nat, z: nat)
    requires x == 0
    ensures Top(x, z) == 0
  {
    if z > 3 { RemainderIs(x, Pow2(8 * (z - 3)), 0, 0); }
  }

  lemma ByteLengthOfZero(x: nat)
    requires x == 0
    ensures ByteLength(x) == 0
  {
  }

  lemma PartsOfZero(x: nat)
    requires x == 0
    ensures Parts(x) == (0, 0)
  {
    hide ByteLength, Top;
    TopOfZero(x, ByteLength(x));
    ByteLengthOfZero(x);
  }

  lemma SizeAtMost(x: nat)
    ensures Parts(x).1 <= ByteLength(x) + 1
  {
  }

  /** Only one size gives a full mantissa. */
  lemma PartsUnique(x: nat, w: nat, z: nat)
    requires x > 0 && Full(w) && Top(x, z) == w
    ensures Parts(x) == (w, z)
  {
    SizeBounds(x, w, z);
    TopRange(x);
    TopNext(x, ByteLength(x));
  }

  lemma SizeBounds(x: nat, w: nat, z: nat)
    requires x > 0 && Full(w) && Top(x, z) == w
    ensures ByteLength(x) == z || ByteLength(x) + 1 == z
    ensures ByteLength(x) == z <==> w >= 0x1_0000
  {
    BitLengthBounds(x);
    if z == 0 {
      var e := 24;
      PowerIs(e);
      TopBounds(x, z, 0, e);
    } else {
      SizeAbove(x, z);
      SizeAtLeast(x, z);
    }
  }

  lemma SizeAbove(x: nat, z: nat)
    requires z > 0 && Top(x, z) < SIGN
    ensures BitLength(x) <= 8 * z - 1
  {
    var e := 23;
    PowerIs(e);
    TopBounds(x, z, 8 * z - 1, e);
    BitLengthBelow(x, 8 * z - 1);
  }

  lemma SizeAtLeast(x: nat, z: nat)
    requires z > 0 && Top(x, z) >= 0x8000
    ensures BitLength(x) >= 8 * z - 8
    ensures BitLength(x) >= 8 * z - 7 <==> Top(x, z) >= 0x1_0000
  {
    var e, f := 15, 16;
    PowerIs(e);
    PowerIs(f);
    if z > 1 {
      TopBounds(x, z, 8 * z - 9, e);
      BitLengthBelow(x, 8 * z - 9);
    }
    TopBounds(x, z, 8 * z - 8, f);
    BitLengthBelow(x, 8 * z - 8);
  }

  // ----- Packing and unpacking -----

  lemma Unpack(w: nat, z: nat, sign: bool)
    requires w < SIGN
    ensures var c := Pack(w, z, sign); Size(c) == z && Word(c) == w && (SignBit(c) <==> sign && w != 0)
  {
    var c, s := Pack(w, z, sign), if sign && w != 0 then 1 else 0;
    RemainderIs(c, EXPONENT, z, w + s * SIGN);
    RemainderIs(c, SIGN, 2 * z + s, w);
  }

  lemma Repack(c: nat)
    ensures c == Word(c) + Size(c) * EXPONENT + if SignBit(c) then SIGN else 0
  {
  }

  /** A number without the bytes below a mantissa of size `z`. */
  function Rounded(x: nat, z: nat): int { if z <= 3 then x else x - x % Pow2(8 * (z - 3)) }

  lemma ScaleTop(x: nat, z: nat)
    ensures Scale(Top(x, z), z) == Rounded(x, z)
    ensures Top(x, z) > 0 ==> Rounded(x, z) > 0
  {
    if z <= 3 {
      RemainderIs(Top(x, z), Pow2(8 * (3 - z)), x, 0);
    } else {
      DivMod(x, Pow2(8 * (z - 3)));
      Monotone(1, Top(x, z), Pow2(8 * (z - 3)));
    }
  }

  lemma CompactOfZero(x: nat, negative: bool)
    requires x == 0
    ensures CompactOf(x, negative) == 0 == Expand(x)
  {
    PartsOfZero(x);
    var k := 3;
    RemainderIs(x, Pow2(8 * k), 0, 0);
  }

  /** What the compact form keeps of a number: its sign, and all but the bytes below the mantissa. */
  lemma ExpandCompact(x: nat, negative: bool)
    ensures Expand(CompactOf(x, negative)) == Rounded(x, Parts(x).1)
    ensures Negative(CompactOf(x, negative)) <==> negative && x != 0
  {
    if x == 0 {
      CompactOfZero(x, negative);
      PartsOfZero(x);
    } else {
      PartsFull(x);
      Unpack(Parts(x).0, Parts(x).1, negative);
      ScaleTop(x, Parts(x).1);
    }
  }

  /** The loss is less than one part in 2^15. */
  lemma Precision(x: nat, negative: bool)
    requires x > 0
    ensures var d := Expand(CompactOf(x, negative)); 0 < d <= x && (x - d) * 0x8000 < d
  {
    var (w, z) := Parts(x);
    ExpandCompact(x, negative);
    PartsFull(x);
    if z > 3 {
      LossBelow(x, Pow2(8 * (z - 3)), w);
    }
  }

  lemma LossBelow(x: nat, p: nat, w: nat)
    requires p > 0 && x / p == w >= 0x8000
    ensures 0 < x - x % p && x % p * 0x8000 < x - x % p
  {
    DivMod(x, p);
    Monotone(0x8000, w, p);
  }

  /** A compact number as `GetCompact` writes it. */
  predicate Canonical(c: nat)
  {
    c == 0 || (Full(Word(c)) && (Size(c) < 3 ==> Word(c) % Pow2(8 * (3 - Size(c))) == 0))
  }

  lemma CompactIsCanonical(x: nat, negative: bool)
    ensures Canonical(CompactOf(x, negative))
  {
    if x == 0 {
      PartsOfZero(x);
    } else {
      var (w, z) := Parts(x);
      PartsFull(x);
      Unpack(w, z, negative);
      TopDivides(x, z);
    }
  }

  lemma TopDivides(x: nat, z: nat)
    ensures z <= 3 ==> Top(x, z) % Pow2(8 * (3 - z)) == 0
  {
    if z <= 3 { RemainderIs(Top(x, z), Pow2(8 * (3 - z)), x, 0); }
  }

  /** Without the cut to 256 bits, unpacking and packing again gives back exactly the canonical numbers. */
  lemma CanonicalReturns(c: nat)
    ensures CompactOf(Expand(c), Negative(c)) == c <==> Canonical(c)
  {
    CompactIsCanonical(Expand(c), Negative(c));
    if Canonical(c) {
      if c == 0 {
        CompactOfZero(c, Negative(c));
      } else {
        CanonicalTop(c);
        PartsUnique(Expand(c), Word(c), Size(c));
        Repack(c);
      }
    }
  }

  /**
   What `SetCompact` keeps of a compact number, its magnitude cut to the range, `GetCompact` writes back as the
   same number if and only if that is canonical and nothing was cut off.
   */
  lemma CompactExpand(c: nat, m: nat)
    requires m > 0
    ensures CompactOf(Expand(c) % m, Negative(c)) == c <==> Canonical(c) && Expand(c) < m
  {
    var x := Expand(c) % m;
    CanonicalReturns(c);
    TargetKept(Expand(c), m);
    CompactIsCanonical(x, Negative(c));
    ExpandCompact(x, Negative(c));
    RoundedBelow(x, Parts(x).1);
    DivMod(Expand(c), m);
  }

  lemma RoundedBelow(x: nat, z: nat)
    ensures Rounded(x, z) <= x
  {
    if z > 3 { DivMod(x, Pow2(8 * (z - 3))); }
  }

  /** A canonical number that overflows is not given back: all of it is shifted out. */
  lemma CanonicalButLost()
    ensures Canonical(0x23008000) && CompactOf(Expand(0x23008000) % Modulus(8), Negative(0x23008000)) == 0
  {
    var c, n, k := 0x23008000, 8, 32;
    assert Word(c) == 0x8000 && Size(c) == k + 3;
    ModulusIsPow2(n);
    assert Expand(c) == 0x8000 * Pow2(8 * k) == 0x8000 * Modulus(n);
    RemainderIs(Expand(c), Modulus(n), 0x8000, 0);
    CompactOfZero(Expand(c) % Modulus(n), Negative(c));
  }

  lemma CanonicalTop(c: nat)
    requires c != 0 && Canonical(c)
    ensures Expand(c) > 0 && Top(Expand(c), Size(c)) == Word(c)
  {
    var w, z := Word(c), Size(c);
    if z <= 3 {
      var p := Pow2(8 * (3 - z));
      DivMod(w, p);
      if z == 3 { RemainderIs(w, p, w, 0); }
    } else {
      var p := Pow2(8 * (z - 3));
      RemainderIs(w * p, p, w, 0);
      Monotone(1, w, p);
    }
  }

  // ----- SetCompact -----

  /** The test of the code: which sizes and words pass 256 bits. */
  predicate Overflow(word: nat, size: nat)
  {
    word != 0 && (size > 34 || (word > 0xff && size > 33) || (word > 0xffff && size > 32))
  }

  lemma OverflowAt(word: nat, size: nat, e: nat)
    requires word < SIGN && size > 3
    requires (size <= 32 ==> e == 24) && (size == 33 ==> e == 16) && (size == 34 ==> e == 8) && (size > 34 ==> e == 0)
    ensures Overflow(word, size) <==> word >= Pow2(e)
  {
    if e > 0 { PowerIs(e); }
  }

  /** The overflow flag is exact. */
  lemma OverflowExact(w: nat, z: nat, width: nat)
    requires w < SIGN && width == 256
    ensures Overflow(if z <= 3 then Scale(w, z) else w, z) <==> Scale(w, z) >= Pow2(width)
  {
    var e := if z <= 32 then 24 else if z == 33 then 16 else if z == 34 then 8 else 0;
    if z > 3 {
      OverflowAt(w, z, e);
      OverflowPower(w, z, e, width);
    } else {
      QuotientSmall(w, Pow2(8 * (3 - z)));
      var f := 24;
      PowerIs(f);
      Pow2Monotone(f, width);
    }
  }

  lemma QuotientSmall(w: nat, p: nat)
    requires p > 0
    ensures w / p <= w
  {
    DivMod(w, p);
    Monotone(1, p, w / p);
  }

  lemma OverflowPower(w: nat, z: nat, e: nat, width: nat)
    requires w < SIGN && z > 3 && width == 256
    requires (z <= 32 ==> e == 24) && (z == 33 ==> e == 16) && (z == 34 ==> e == 8) && (z > 34 ==> e == 0)
    ensures w >= Pow2(e) <==> Scale(w, z) >= Pow2(width)
  {
    var k := 8 * (z - 3);
    Pow2Sum(e, k);
    ScaledBelow(w, Pow2(e), Pow2(k));
    assert w >= Pow2(e) <==> Scale(w, z) >= Pow2(e + k);
    if z <= 32 {
      PowerIs(e);
      Pow2Monotone(e + k, width);
    } else if z > 34 {
      ShiftedOut(w, k, width);
    } else {
      assert e + k == width;
    }
  }

  lemma ShiftedOut(w: nat, k: nat, width: nat)
    requires k >= width
    ensures w >= 1 <==> w * Pow2(k) >= Pow2(width)
  {
    Pow2Monotone(width, k);
    if w >= 1 { Monotone(1, w, Pow2(k)); }
  }

  /** The number 64 bits wide, assigned: a word is the lowest limb. */
  method SetWord(pn: array<nat>, word: nat)
    requires pn.Length >= 2 && word < BASE
    modifies pn
    ensures Limbed(pn[..]) && Value(pn[..]) == word
  {
    Clear(pn);
    ClearIs(pn[..]);
    ValueUpdate(pn[..], 0, word);
    ghost var was := pn[..];
    pn[0] := word;
    assert pn[..] == was[0 := was[0] + word];
  }

  /** The word into the number, moved to its place; what is left of it for the flags. */
  method SetScaled(pn: array<nat>, w: nat, z: nat) returns (nWord: nat)
    requires pn.Length == 8 && w < SIGN
    modifies pn
    ensures Limbed(pn[..]) && Value(pn[..]) == Scale(w, z) % Modulus(pn.Length)
    ensures nWord == (if z <= 3 then Scale(w, z) else w) && (nWord != 0 <==> Scale(w, z) != 0)
  {
    if z <= 3 {
      QuotientSmall(w, Pow2(8 * (3 - z)));
      nWord := w / Pow2(8 * (3 - z));
      SetWord(pn, nWord);
      ValueInRange(pn[..]);
      RemainderIs(nWord, Modulus(pn.Length), 0, nWord);
    } else {
      nWord := w;
      SetWord(pn, nWord);
      ShiftLeftAssign(pn, 8 * (z - 3));
      Monotone(1, Pow2(8 * (z - 3)), w);
    }
  }

  method SetCompact(pn: array<nat>, nCompact: nat) returns (fNegative: bool, fOverflow: bool)
    requires pn.Length == 8 && nCompact < BASE
    modifies pn
    ensures Limbed(pn[..]) && Value(pn[..]) == Expand(nCompact) % Modulus(pn.Length)
    ensures fNegative == Negative(nCompact) && fOverflow == (Expand(nCompact) >= Modulus(pn.Length))
  {
    var nSize := nCompact / EXPONENT;
    var nWord := SetScaled(pn, nCompact % SIGN, nSize);
    fNegative := nWord != 0 && (nCompact / SIGN) % 2 == 1;
    fOverflow := Overflow(nWord, nSize);
    OverflowExact(Word(nCompact), nSize, 32 * pn.Length);
    ModulusIsPow2(pn.Length);
  }

  // ----- GetCompact -----

  lemma {:induction false} SetClearBit(x: nat, s: nat)
    requires (x / Pow2(s)) % 2 == 0
    ensures BitOr(x, Pow2(s)) == x + Pow2(s)
  {
    if s == 0 {
      BitOrZero(x / 2);
    } else {
      QuotientTwice(x, 2, Pow2(s - 1));
      SetClearBit(x / 2, s - 1);
    }
  }

  method GetLow64(a: seq<nat>) returns (low: nat)
    requires |a| >= 2 && Limbed(a)
    ensures Value(a) < BASE ==> low == Value(a)
  {
    low := BitOr(a[0], a[1] * BASE);
    var w := 32;
    Pow2Width(w);
    BitOrDisjoint(a[0], a[1], w);
    assert a[1..][0] == a[1];
  }

  method TopBytes(a: seq<nat>, nSize: nat) returns (w: nat)
    requires |a| == 8 && Limbed(a) && nSize == ByteLength(Value(a))
    ensures w == Top(Value(a), nSize)
  {
    ghost var x := Value(a);
    if x > 0 { TopRange(x); }
    if nSize <= 3 {
      w := GetLow64(a);
      Monotone(1, Pow2(8 * (3 - nSize)), x);
      w := w * Pow2(8 * (3 - nSize));
    } else {
      var bn := new nat[8](_ => 0);
      Assign(bn, a);
      ShiftRightAssign(bn, 8 * (nSize - 3));
      w := GetLow64(bn[..]);
    }
  }

  lemma JoinSize(word: nat, size: nat)
    requires word < SIGN
    ensures BitOr(word, size * EXPONENT) == word + size * EXPONENT
  {
    var e := 24;
    PowerIs(e);
    BitOrDisjoint(word, size, e);
  }

  lemma JoinSign(c: nat)
    requires !SignBit(c)
    ensures BitOr(c, SIGN) == c + SIGN
  {
    var e := 23;
    PowerIs(e);
    SetClearBit(c, e);
  }

  /** Size, mantissa and sign put together with bitwise or, as the code does. */
  method PackBits(word: nat, size: nat, fNegative: bool) returns (c: nat)
    requires word < SIGN
    ensures c == Pack(word, size, fNegative)
  {
    JoinSize(word, size);
    c := BitOr(word, size * EXPONENT);
    Unpack(word, size, false);
    if fNegative && c % SIGN != 0 {
      JoinSign(c);
      c := BitOr(c, SIGN);
    }
  }

  method GetCompact(a: seq<nat>, fNegative: bool) returns (nCompact: nat)
    requires |a| == 8 && Limbed(a)
    ensures nCompact == CompactOf(Value(a), fNegative) < BASE
  {
    var bits := Bits(a);
    var nSize := (bits + 7) / 8;
    nCompact := TopBytes(a, nSize);
    if (nCompact / SIGN) % 2 == 1 {
      nCompact := nCompact / 256;
      nSize := nSize + 1;
    }
    assert (nCompact, nSize) == Parts(Value(a));
    MantissaFits(Value(a));
    assert nCompact < SIGN && nSize < 256;
    nCompact := PackBits(nCompact, nSize, fNegative);
  }

  /** The two assertions of `GetCompact`. */
  lemma MantissaFits(x: nat)
    requires BitLength(x) <= 256
    ensures Parts(x).0 < SIGN && Parts(x).1 < 256
  {
    SizeAtMost(x);
    if x == 0 { PartsOfZero(x); } else { PartsFull(x); }
  }

  // ----- The work of a block -----

  /** The quotient that does not need 2^256 itself. */
  lemma ProofQuotient(m: nat, t: nat)
    requires t < m
    ensures (m - 1 - t) / (t + 1) + 1 == m / (t + 1)
  {
    var q := (m - 1 - t) / (t + 1);
    DivMod(m - 1 - t, t + 1);
    assert m == (q + 1) * (t + 1) + (m - 1 - t) % (t + 1);
    RemainderIs(m, t + 1, q + 1, (m - 1 - t) % (t + 1));
  }

  /** No target that a compact number can name is the largest number, so its successor is not zero. */
  lemma TargetNotLargest(c: nat, m: nat)
    requires m == Modulus(8) && Expand(c) < m
    ensures Expand(c) + 1 < m
  {
    var w, z := Word(c), Size(c);
    if z <= 3 {
      QuotientSmall(w, Pow2(8 * (3 - z)));
      assert Modulus(8) == BASE * Modulus(7) && Modulus(7) == BASE * Modulus(6);
    } else {
      var p := Pow2(8 * (z - 3) - 1);
      assert Expand(c) == w * (2 * p) == 2 * (w * p) by { UpdateHalf(w, p); }
      assert Modulus(8) == BASE * Modulus(7);
    }
  }

  method IsZero(a: seq<nat>) returns (zero: bool)
    requires Limbed(a)
    ensures zero <==> Value(a) == 0
  {
    ZerosBehind([], |a|);
    assert [] + Zeros(|a|) == Zeros(|a|);
    var sign := CompareTo(a, Zeros(|a|));
    return sign == 0;
  }

  method GetBlockProof(nBits: nat) returns (work: array<nat>)
    requires nBits < BASE
    ensures fresh(work) && work.Length == 8 && Limbed(work[..])
    ensures var t := Expand(nBits);
      Value(work[..]) == if Negative(nBits) || t >= Modulus(8) || t == 0 then 0 else Modulus(8) / (t + 1)
  {
    var n := 8;
    var target := new nat[n](_ => 0);
    var fNegative, fOverflow := SetCompact(target, nBits);
    var zero := IsZero(target[..]);
    ghost var t, m := Expand(nBits), Modulus(n);
    TargetKept(t, m);
    if fNegative || fOverflow || zero {
      work := new nat[n](_ => 0);
      ClearIs(work[..]);
      return;
    }
    TargetNotLargest(nBits, m);
    work := ProofOf(target, t, m);
  }

  lemma TargetKept(t: nat, m: nat)
    requires m > 0
    ensures t < m ==> t % m == t
  {
    if t < m { RemainderIs(t, m, 0, t); }
  }

  /** `++` where it does not wrap. */
  method Increment(pn: array<nat>, ghost x: nat, ghost m: nat)
    requires pn.Length == 8 && Limbed(pn[..]) && Value(pn[..]) == x && m == Modulus(8) && x + 1 < m
    modifies pn
    ensures Limbed(pn[..]) && Value(pn[..]) == x + 1
  {
    var k := 7;
    var one := [1] + Zeros(k);
    ZerosBehind([1], k);
    RemainderIs(x + 1, m, 0, x + 1);
    AddAssign(pn, one);
  }

  method ProofOf(target: array<nat>, ghost t: nat, ghost m: nat) returns (work: array<nat>)
    requires target.Length == 8 && Limbed(target[..]) && Value(target[..]) == t && m == Modulus(8) && 0 < t && t + 1 < m
    modifies target
    ensures fresh(work) && work.Length == 8 && Limbed(work[..]) && Value(work[..]) == m / (t + 1)
  {
    hide Value, Limbed, Modulus;
    work := Complemented(target[..]);
    Increment(target, t, m);
    ghost var q := (m - 1 - t) / (t + 1);
    var ok := DivideAssign(work, target[..]);
    assert ok;
    ProofQuotient(m, t);
    QuotientSmall(m - 1 - t, t + 1);
    Increment(work, q, m);
  }
}
