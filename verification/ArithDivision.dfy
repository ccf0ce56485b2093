/** Comparison, bit length and long division of `base_uint` (`src/arith_uint256.cpp`). */
module ArithDivision {
  import opened Basics
  import opened Limbs
  import opened ArithUint256

  // ----- CompareTo -----

  lemma Below(low: nat, x: nat, y: nat, m: nat)
    requires low < m && x < y
    ensures low + m * x < m * y
  {
    Monotone(x + 1, y, m);
    assert (x + 1) * m == m * x + m;
  }

  lemma DecidingLimb(a: seq<nat>, b: seq<nat>, i: nat)
    requires |a| == |b| && Limbed(a) && Limbed(b) && i < |a| && a[i + 1..] == b[i + 1..] && a[i] < b[i]
    ensures Value(a) < Value(b)
  {
    ValueSplit(a, i);
    ValueSplit(b, i);
    ValueInRange(a[..i]);
    assert a[i..][1..] == a[i + 1..] && b[i..][1..] == b[i + 1..];
    Below(Value(a[..i]), Value(a[i..]), Value(b[i..]), Modulus(i));
  }

  method CompareTo(a: seq<nat>, b: seq<nat>) returns (sign: int)
    requires |a| == |b| && Limbed(a) && Limbed(b)
    ensures sign == if Value(a) < Value(b) then -1 else if Value(a) > Value(b) then 1 else 0
  {
    var i := |a|;
    while i > 0
      invariant 0 <= i <= |a| && a[i..] == b[i..]
    {
      i := i - 1;
      if a[i] < b[i] {
        DecidingLimb(a, b, i);
        return -1;
      }
      if a[i] > b[i] {
        DecidingLimb(b, a, i);
        return 1;
      }
      assert a[i..] == [a[i]] + a[i + 1..] && b[i..] == [b[i]] + b[i + 1..];
    }
    assert a[0..] == a && b[0..] == b;
    return 0;
  }

  // ----- bits -----

  /** The number of bits of `x`, zero for zero. */
  function BitLength(x: nat): nat { if x == 0 then 0 else 1 + BitLength(x / 2) }

  lemma {:induction false} BitLengthIs(x: nat, r: nat)
    requires x < Pow2(r) && (r > 0 ==> Pow2(r - 1) <= x)
    ensures BitLength(x) == r
  {
    if r > 1 {
      BitLengthIs(x / 2, r - 1);
    }
  }

  lemma {:induction false} BitLengthBounds(x: nat)
    ensures x < Pow2(BitLength(x)) && (x > 0 ==> BitLength(x) > 0 && Pow2(BitLength(x) - 1) <= x)
  {
    if x > 0 {
      BitLengthBounds(x / 2);
    }
  }

  lemma {:induction false} Pow2Monotone(j: nat, k: nat)
    requires j <= k
    ensures Pow2(j) <= Pow2(k)
  {
    Pow2Sum(j, k - j);
    Monotone(1, Pow2(k - j), Pow2(j));
  }

  lemma ClearBitBound(w: nat, p: nat)
    requires p > 0 && w < 2 * p && (w / p) % 2 == 0
    ensures w < p
  {
    if w >= p {
      RemainderIs(w, p, 1, w - p);
      assert false;
    }
  }

  lemma SetBitBound(w: nat, p: nat)
    requires p > 0 && (w / p) % 2 != 0
    ensures w >= p
  {
    if w < p {
      RemainderIs(w, p, 0, w);
      assert false;
    }
  }

  lemma TopLimbBits(a: seq<nat>, pos: nat, b: nat)
    requires Limbed(a) && pos < |a| && (forall j | pos < j < |a| :: a[j] == 0)
    requires 0 < b <= 32 && Pow2(b - 1) <= a[pos] < Pow2(b)
    ensures BitLength(Value(a)) == 32 * pos + b
  {
    var low := a[..pos + 1];
    var m := Modulus(pos);
    assert a == low + Zeros(|a| - pos - 1);
    ZerosBehind(low, |a| - pos - 1);
    ValueLast(low);
    ValueInRange(low[..pos]);
    LimbInPlace(Value(low[..pos]), a[pos], m, pos, b);
  }

  lemma LimbInPlace(low: nat, w: nat, m: nat, pos: nat, b: nat)
    requires m == Modulus(pos) && low < m && 0 < b && Pow2(b - 1) <= w < Pow2(b)
    ensures BitLength(low + w * m) == 32 * pos + b
  {
    ShiftFactor(pos, b);
    ShiftFactor(pos, b - 1);
    Monotone(Pow2(b - 1), w, m);
    Below(low, w, Pow2(b), m);
    BitLengthIs(low + w * m, 32 * pos + b);
  }

  /** The bit length of one non-zero limb: the inner loop of `bits`. */
  method LimbBits(w: nat) returns (b: nat)
    requires 0 < w < BASE
    ensures 0 < b <= 32 && Pow2(b - 1) <= w < Pow2(b)
  {
    var nbits := 31;
    Pow2Limb(32);
    while nbits > 0
      invariant nbits < 32 && w < Pow2(nbits + 1)
    {
      if (w / Pow2(nbits)) % 2 != 0 {
        SetBitBound(w, Pow2(nbits));
        return nbits + 1;
      }
      ClearBitBound(w, Pow2(nbits));
      nbits := nbits - 1;
    }
    return 1;
  }

  method Bits(a: seq<nat>) returns (b: nat)
    requires Limbed(a)
    ensures b == BitLength(Value(a)) <= 32 * |a|
  {
    var pos := |a|;
    while pos > 0
      invariant 0 <= pos <= |a| && forall j | pos <= j < |a| :: a[j] == 0
    {
      pos := pos - 1;
      if a[pos] != 0 {
        b := LimbBits(a[pos]);
        TopLimbBits(a, pos, b);
        return 32 * pos + b;
      }
    }
    assert a == [] + Zeros(|a|);
    ZerosBehind([], |a|);
    return 0;
  }

  // ----- Long division -----

  /** The quotient so far has no bit below `c`. */
  predicate NoBitBelow(q: seq<nat>, c: nat)
  {
    && Limbed(q)
    && (forall j | 0 <= j < |q| && j < c / 32 :: q[j] == 0)
    && (c / 32 < |q| ==> q[c / 32] % Pow2(c % 32) == 0)
  }

  lemma {:induction false} BitOrCommutes(x: nat, y: nat)
    ensures BitOr(x, y) == BitOr(y, x)
  {
    if x != 0 || y != 0 { BitOrCommutes(x / 2, y / 2); }
  }

  /** Bit `s` joins a limb that has none up to it. */
  lemma JoinBit(w: nat, s: nat)
    requires s < 32 && w < BASE && w % Pow2(s + 1) == 0
    ensures BitOr(w, Pow2(s)) == w + Pow2(s) < BASE && (w + Pow2(s)) % Pow2(s) == 0 == w % Pow2(s)
  {
    var y := w / Pow2(s + 1);
    DivMod(w, Pow2(s + 1));
    BitOrDisjoint(Pow2(s), y, s + 1);
    BitOrCommutes(w, Pow2(s));
    OddMultiple(w, y, Pow2(s));
    Pow2Limb(s + 1);
    JoinFits(y, Pow2(s + 1), Pow2(31 - s), BASE);
  }

  lemma OddMultiple(w: nat, y: nat, p: nat)
    requires p > 0 && w == y * (2 * p)
    ensures (w + p) % p == 0 == w % p
  {
    assert w == 2 * y * p;
    assert w + p == (2 * y + 1) * p;
    RemainderIs(w + p, p, 2 * y + 1, 0);
    RemainderIs(w, p, 2 * y, 0);
  }

  lemma JoinFits(y: nat, q: nat, u: nat, base: nat)
    requires q * u == base && y * q < base
    ensures y * q + q <= base
  {
    if y < u {
      Monotone(y + 1, u, q);
      assert (y + 1) * q == y * q + q;
    } else {
      Monotone(u, y, q);
    }
  }

  lemma {:induction false} ValueUpdate(s: seq<nat>, i: nat, d: nat)
    requires i < |s|
    ensures Value(s[i := s[i] + d]) == Value(s) + d * Modulus(i)
  {
    var r := s[i := s[i] + d];
    if i > 0 {
      assert r[1..] == s[1..][i - 1 := s[1..][i - 1] + d];
      ValueUpdate(s[1..], i - 1, d);
      UpdateStep(d, Modulus(i - 1));
    } else {
      assert r[1..] == s[1..];
    }
  }

  lemma UpdateStep(d: nat, m: nat)
    ensures BASE * (d * m) == d * (BASE * m)
  {
  }

  /** What stays true from bit to bit: `den` is the divisor in line with bit `c - 1` of the quotient. */
  ghost predicate Dividing(total: nat, divisor: nat, c: nat, den: nat, num: nat, quotient: nat)
  {
    && (c > 0 ==> den == divisor * Pow2(c - 1))
    && num < divisor * Pow2(c)
    && total == quotient * divisor + num
  }

  lemma TakeBit(total: nat, d: nat, c: nat, den: nat, num: nat, q: nat)
    requires c > 0 && Dividing(total, d, c, den, num, q)
    ensures num >= den ==> Dividing(total, d, c - 1, den / 2, num - den, q + Pow2(c - 1))
    ensures num < den ==> Dividing(total, d, c - 1, den / 2, num, q)
  {
    var p := Pow2(c - 1);
    assert d * (2 * p) == d * p + d * p;
    assert (q + p) * d == q * d + d * p;
    if c > 1 {
      assert d * p == 2 * (d * Pow2(c - 2)) by { UpdateHalf(d, Pow2(c - 2)); }
    }
  }

  lemma UpdateHalf(d: nat, p: nat)
    ensures d * (2 * p) == 2 * (d * p)
  {
  }

  lemma DivisionDone(total: nat, d: nat, den: nat, num: nat, q: nat)
    requires Dividing(total, d, 0, den, num, q)
    ensures q == total / d
  {
    RemainderIs(total, d, q, num);
  }

  /** The divisor shifted into line with the dividend fits, and is at least half as large. */
  lemma InLine(n: nat, d: nat, k: nat, shift: nat)
    requires 0 < d && BitLength(d) + shift == BitLength(n) <= 32 * k
    ensures d * Pow2(shift) < Modulus(k) && n < d * Pow2(shift + 1)
  {
    BitLengthBounds(n);
    BitLengthBounds(d);
    ModulusIsPow2(k);
    InLineFits(d, BitLength(d), shift, 32 * k);
    InLineCovers(d, BitLength(d), shift);
  }

  lemma Above(d: nat, x: nat, m: nat)
    requires d < x && m > 0
    ensures d * m < x * m
  {
    Below(0, d, x, m);
  }

  lemma InLineFits(d: nat, bits: nat, shift: nat, width: nat)
    requires d < Pow2(bits) && bits + shift <= width
    ensures d * Pow2(shift) < Pow2(width)
  {
    Pow2Sum(bits, shift);
    Above(d, Pow2(bits), Pow2(shift));
    Pow2Monotone(bits + shift, width);
  }

  lemma InLineCovers(d: nat, bits: nat, shift: nat)
    requires bits > 0 && Pow2(bits - 1) <= d
    ensures Pow2(bits + shift) <= d * Pow2(shift + 1)
  {
    Pow2Sum(bits - 1, shift + 1);
    Monotone(Pow2(bits - 1), d, Pow2(shift + 1));
  }

  /** Bit `c - 1` of a quotient that has none below `c`. */
  lemma BitJoined(q: seq<nat>, c: nat, l: nat, s: nat)
    requires 0 < c <= 32 * |q| && NoBitBelow(q, c) && l == (c - 1) / 32 && s == (c - 1) % 32
    ensures l < |q| && BitOr(q[l], Pow2(s)) == q[l] + Pow2(s)
    ensures NoBitBelow(q[l := q[l] + Pow2(s)], c - 1)
  {
    AboveBit(q, c);
    JoinBit(q[l], s);
  }

  lemma BitJoinedValue(q: seq<nat>, c: nat, l: nat, s: nat)
    requires l < |q| && c == 32 * l + s + 1
    ensures Value(q[l := q[l] + Pow2(s)]) == Value(q) + Pow2(c - 1)
  {
    ValueUpdate(q, l, Pow2(s));
    ShiftFactor(l, s);
  }

  /** Bit `c - 1` goes into the quotient. */
  method SetQuotientBit(pn: array<nat>, c: nat)
    requires 0 < c <= 32 * pn.Length && NoBitBelow(pn[..], c)
    modifies pn
    ensures NoBitBelow(pn[..], c - 1) && Value(pn[..]) == old(Value(pn[..])) + Pow2(c - 1)
  {
    var l, s := (c - 1) / 32, (c - 1) % 32;
    var bit := Pow2(s);
    ghost var q := pn[..];
    BitJoined(q, c, l, s);
    BitJoinedValue(q, c, l, s);
    pn[l] := BitOr(pn[l], bit);
    assert pn[..] == q[l := q[l] + bit];
  }

  lemma AboveBit(q: seq<nat>, c: nat)
    requires 0 < c <= 32 * |q| && NoBitBelow(q, c)
    ensures (c - 1) / 32 < |q| && q[(c - 1) / 32] % Pow2((c - 1) % 32 + 1) == 0
    ensures NoBitBelow(q, c - 1)
  {
    var l, s := (c - 1) / 32, (c - 1) % 32;
    if s == 31 {
      assert c / 32 == l + 1;
      RemainderIs(q[l], Pow2(s + 1), 0, 0);
      RemainderIs(q[l], Pow2(s), 0, 0);
    } else {
      assert c / 32 == l && c % 32 == s + 1;
      JoinBit(q[l], s);
    }
  }

  /** The state of the division with `c` bits of the quotient to come. */
  ghost predicate DividingLimbs(pn: array<nat>, num: array<nat>, den: array<nat>, c: nat, total: nat, d: nat)
    reads pn, num, den
  {
    && Limbed(num[..]) && Limbed(den[..]) && NoBitBelow(pn[..], c)
    && Dividing(total, d, c, Value(den[..]), Value(num[..]), Value(pn[..]))
  }

  /** One round of the loop of `/=`. */
  method DivideBit(pn: array<nat>, num: array<nat>, den: array<nat>, c: nat, ghost total: nat, ghost d: nat)
    requires pn != num && pn != den && num != den && pn.Length == num.Length == den.Length && 0 < c <= 32 * pn.Length
    requires DividingLimbs(pn, num, den, c, total, d)
    modifies pn, num, den
    ensures DividingLimbs(pn, num, den, c - 1, total, d)
  {
    ghost var x, y, q := Value(num[..]), Value(den[..]), Value(pn[..]);
    TakeBit(total, d, c, y, x, q);
    AboveBit(pn[..], c);
    var sign := CompareTo(num[..], den[..]);
    if sign >= 0 {
      WithinRange(num[..], den[..]);
      SubAssign(num, den[..]);
      SetQuotientBit(pn, c);
    }
    ShiftRightAssign(den, 1);
    assert Value(den[..]) == y / 2;
  }

  /** The loop of `/=`, bit by bit from the top. */
  method DivideLoop(pn: array<nat>, num: array<nat>, den: array<nat>, bits: nat, ghost total: nat, ghost d: nat)
    requires pn != num && pn != den && num != den && pn.Length == num.Length == den.Length && bits <= 32 * pn.Length
    requires DividingLimbs(pn, num, den, bits, total, d)
    modifies pn, num, den
    ensures Limbed(pn[..]) && d > 0 && Value(pn[..]) == total / d
  {
    var c := bits;
    while c > 0
      invariant 0 <= c <= bits && DividingLimbs(pn, num, den, c, total, d)
    {
      DivideBit(pn, num, den, c, total, d);
      c := c - 1;
    }
    DivisionDone(total, d, Value(den[..]), Value(num[..]), Value(pn[..]));
  }

  lemma WithinRange(a: seq<nat>, b: seq<nat>)
    requires |a| == |b| && Limbed(a) && Value(b) <= Value(a)
    ensures (Value(a) - Value(b)) % Modulus(|a|) == Value(a) - Value(b)
  {
    ValueInRange(a);
    RemainderIs(Value(a) - Value(b), Modulus(|a|), 0, Value(a) - Value(b));
  }

  /** `/=`: the floor of the quotient; a zero divisor is an error, met with the number already cleared. */
  method DivideAssign(pn: array<nat>, b: seq<nat>) returns (ok: bool)
    requires pn.Length == |b| && Limbed(pn[..]) && Limbed(b)
    modifies pn
    ensures Limbed(pn[..]) && (ok <==> Value(b) != 0)
    ensures Value(pn[..]) == if Value(b) == 0 then 0 else old(Value(pn[..])) / Value(b)
  {
    var num := pn[..];
    Clear(pn);
    ClearIs(pn[..]);
    var numBits := Bits(num);
    var denBits := Bits(b);
    BitLengthBounds(Value(b));
    if denBits == 0 {
      return false;
    }
    if denBits > numBits {
      ShorterDividend(Value(num), Value(b));
      return true;
    }
    DivideAligned(pn, num, b, numBits - denBits);
    return true;
  }

  method DivideAligned(pn: array<nat>, a: seq<nat>, b: seq<nat>, shift: nat)
    requires pn.Length == |a| == |b| && Limbed(a) && Limbed(b) && (forall j | 0 <= j < |a| :: pn[j] == 0)
    requires 0 < Value(b) && BitLength(Value(b)) + shift == BitLength(Value(a)) <= 32 * |a|
    modifies pn
    ensures Limbed(pn[..]) && Value(pn[..]) == Value(a) / Value(b)
  {
    hide Value, BitLength, Pow2, Modulus;
    var n := |a|;
    var num, den := new nat[n](_ => 0), new nat[n](_ => 0);
    Assign(num, a);
    Assign(den, b);
    ClearIs(pn[..]);
    InLine(Value(a), Value(b), n, shift);
    BitLengthBounds(Value(b));
    RemainderIs(Value(b) * Pow2(shift), Modulus(n), 0, Value(b) * Pow2(shift));
    ShiftLeftAssign(den, shift);
    DivideLoop(pn, num, den, shift + 1, Value(a), Value(b));
  }

  lemma ClearIs(q: seq<nat>)
    requires forall j | 0 <= j < |q| :: q[j] == 0
    ensures Limbed(q) && Value(q) == 0 && forall c: nat :: NoBitBelow(q, c)
  {
    assert q == [] + Zeros(|q|);
    ZerosBehind([], |q|);
    forall c: nat
      ensures NoBitBelow(q, c)
    {
      RemainderIs(0, Pow2(c % 32), 0, 0);
    }
  }

  lemma ShorterDividend(n: nat, d: nat)
    requires BitLength(d) > BitLength(n)
    ensures d > 0 && n / d == 0
  {
    BitLengthBounds(n);
    BitLengthBounds(d);
    Pow2Monotone(BitLength(n), BitLength(d) - 1);
    RemainderIs(n, d, 0, n);
  }
}
