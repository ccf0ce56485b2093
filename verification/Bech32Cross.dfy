/**
 One wrong character in a string of at most 90 is not accepted as the other of the two encodings either: run backwards
 from the difference of their constants, the checksum register never holds a single symbol within 90 steps.
 */
module Bech32Cross {
  import opened Basics
  import opened Bech32

  // ----- The register as a word of the machine -----

  /** The word of one bit. */
  function Mask(i: nat): bv30 {
    if i == 0 then 0x1 else if i == 1 then 0x2 else if i == 2 then 0x4
    else if i == 3 then 0x8 else if i == 4 then 0x10 else if i == 5 then 0x20
    else if i == 6 then 0x40 else if i == 7 then 0x80 else if i == 8 then 0x100
    else if i == 9 then 0x200 else if i == 10 then 0x400 else if i == 11 then 0x800
    else if i == 12 then 0x1000 else if i == 13 then 0x2000 else if i == 14 then 0x4000
    else if i == 15 then 0x8000 else if i == 16 then 0x10000 else if i == 17 then 0x20000
    else if i == 18 then 0x40000 else if i == 19 then 0x80000 else if i == 20 then 0x100000
    else if i == 21 then 0x200000 else if i == 22 then 0x400000 else if i == 23 then 0x800000
    else if i == 24 then 0x1000000 else if i == 25 then 0x2000000 else if i == 26 then 0x4000000
    else if i == 27 then 0x8000000 else if i == 28 then 0x10000000
    else 0x20000000
  }

  predicate On(x: bv30, m: bv30) { x & m != 0 }

  /** A state is given by the bits of a word. */
  ghost predicate Same(c: State, x: bv30) {
    forall i | 0 <= i < 30 :: c[i] == On(x, Mask(i))
  }

  function Pick(b: bool, g: bv30): bv30 { if b then g else 0 }

  /** What the five bits that leave the word add to it. */
  function Reduction(x: bv30): bv30 {
    Pick(On(x, 0x2000000), 0x3b6a57b2) ^ Pick(On(x, 0x4000000), 0x26508e6d) ^ Pick(On(x, 0x8000000), 0x1ea119fa)
    ^ Pick(On(x, 0x10000000), 0x3d4233dd) ^ Pick(On(x, 0x20000000), 0x2a1462b3)
  }

  /** One step of the program with symbol 0. */
  function Next(x: bv30): bv30 { ((x & 0x1ffffff) << 5) ^ Reduction(x) }

  predicate Single(m: bv30) { m != 0 && m & (m - 1) == 0 }

  lemma MaskSingle(i: nat)
    requires i < 30
    ensures Single(Mask(i))
  {
  }

  lemma MaskFive(i: nat)
    requires 5 <= i < 30
    ensures Mask(i) == Mask(i - 5) << 5 && Mask(i - 5) < 0x2000000
  {
  }

  lemma MaskLow(i: nat)
    requires i < 5
    ensures Mask(i) < 0x20
  {
  }

  lemma XorOn(x: bv30, y: bv30, m: bv30)
    requires Single(m)
    ensures On(x ^ y, m) == (On(x, m) != On(y, m))
  {
  }

  lemma ShiftOn(x: bv30, m: bv30)
    requires Single(m)
    ensures m < 0x2000000 ==> On((x & 0x1ffffff) << 5, m << 5) == On(x, m)
    ensures m < 0x20 ==> !On((x & 0x1ffffff) << 5, m)
  {
  }

  lemma SameUnique(c: State, d: State, x: bv30)
    requires Same(c, x) && Same(d, x)
    ensures c == d
  {
  }

  lemma StateOf(x: bv30) returns (c: State)
    ensures Same(c, x)
  {
    c := seq(30, i requires 0 <= i < 30 => On(x, Mask(i)));
  }

  lemma XorSame(a: State, b: State, x: bv30, y: bv30)
    requires Same(a, x) && Same(b, y)
    ensures Same(Xor(a, b), x ^ y)
  {
    forall i | 0 <= i < 30 ensures Xor(a, b)[i] == On(x ^ y, Mask(i)) {
      MaskSingle(i);
      XorOn(x, y, Mask(i));
    }
  }

  lemma TimesSame(b: bool, g: State, x: bv30)
    requires Same(g, x)
    ensures Same(Times(b, g), Pick(b, x))
  {
    forall i | 0 <= i < 30 ensures Times(b, g)[i] == On(Pick(b, x), Mask(i)) {
      assert b ==> g[i] == On(x, Mask(i));
    }
  }

  lemma ShiftSame(c: State, x: bv30)
    requires Same(c, x)
    ensures Same(Shift(c, 0), (x & 0x1ffffff) << 5)
  {
    BitsOfZero(5);
    forall i | 0 <= i < 30 ensures Shift(c, 0)[i] == On((x & 0x1ffffff) << 5, Mask(i)) {
      ShiftBit(c, x, i);
    }
  }

  lemma ShiftedOut(x: bv30, m: bv30)
    requires Single(m) && m < 0x20
    ensures !On((x & 0x1ffffff) << 5, m)
  {
    ShiftOn(x, m);
  }

  lemma ShiftedUp(b: bool, x: bv30, m: bv30, up: bv30)
    requires Single(m) && m < 0x2000000 && up == m << 5 && b == On(x, m)
    ensures b == On((x & 0x1ffffff) << 5, up)
  {
    ShiftOn(x, m);
  }

  lemma ShiftBit(c: State, x: bv30, i: nat)
    requires Same(c, x) && i < 30
    ensures Shift(c, 0)[i] == On((x & 0x1ffffff) << 5, Mask(i))
  {
    MaskSingle(i);
    if i < 5 {
      BitsOfZero(5);
      MaskLow(i);
      ShiftedOut(x, Mask(i));
    } else {
      MaskFive(i);
      MaskSingle(i - 5);
      var b := c[i - 5];
      ShiftedUp(b, x, Mask(i - 5), Mask(i));
      assert Shift(c, 0)[i] == b;
    }
  }

  /** The generator multiples of the program. */
  ghost predicate Known(g: Generators) {
    && Same(g[0], 0x3b6a57b2) && Same(g[1], 0x26508e6d) && Same(g[2], 0x1ea119fa) && Same(g[3], 0x3d4233dd)
    && Same(g[4], 0x2a1462b3)
  }

  lemma ThreeSame(a: State, b: State, c: State, x: bv30, y: bv30, z: bv30)
    requires Same(a, x) && Same(b, y) && Same(c, z)
    ensures Same(Xor(Xor(a, b), c), x ^ y ^ z)
  {
    XorSame(a, b, x, y);
    XorSame(Xor(a, b), c, x ^ y, z);
  }

  lemma TopBits(c: State, x: bv30)
    requires Same(c, x)
    ensures c[25] == On(x, 0x2000000) && c[26] == On(x, 0x4000000) && c[27] == On(x, 0x8000000)
    ensures c[28] == On(x, 0x10000000) && c[29] == On(x, 0x20000000)
  {
    assert Mask(25) == 0x2000000 && Mask(26) == 0x4000000 && Mask(27) == 0x8000000 && Mask(28) == 0x10000000;
  }

  lemma FeedbackSame(g: Generators, c: State, x: bv30)
    requires Known(g) && Same(c, x)
    ensures Same(Feedback(g, c), Reduction(x))
  {
    TopBits(c, x);
    var v, w, y, z, u := Pick(c[25], 0x3b6a57b2), Pick(c[26], 0x26508e6d), Pick(c[27], 0x1ea119fa),
                         Pick(c[28], 0x3d4233dd), Pick(c[29], 0x2a1462b3);
    TimesSame(c[25], g[0], 0x3b6a57b2);
    TimesSame(c[26], g[1], 0x26508e6d);
    TimesSame(c[27], g[2], 0x1ea119fa);
    TimesSame(c[28], g[3], 0x3d4233dd);
    TimesSame(c[29], g[4], 0x2a1462b3);
    ThreeSame(Times(c[25], g[0]), Times(c[26], g[1]), Times(c[27], g[2]), v, w, y);
    ThreeSame(Xor(Xor(Times(c[25], g[0]), Times(c[26], g[1])), Times(c[27], g[2])), Times(c[28], g[3]),
              Times(c[29], g[4]), v ^ w ^ y, z, u);
  }

  lemma StepSame(g: Generators, c: State, x: bv30)
    requires Known(g) && Same(c, x)
    ensures Same(Step(g, c, 0), Next(x))
  {
    FeedbackSame(g, c, x);
    ShiftSame(c, x);
    XorSame(Shift(c, 0), Feedback(g, c), (x & 0x1ffffff) << 5, Reduction(x));
  }

  // ----- The numbers of the program -----

  lemma HalfOf(n: nat, d: nat, q: nat)
    requires n == d + 2 * q
    ensures n / 2 == d / 2 + q && n % 2 == d % 2
  {
  }

  lemma LowSame(n: nat, d: nat, q: nat)
    requires n == d + 32 * q && d < 32
    ensures SameLow(n, d) && n / 32 == q
  {
    HalfOf(n, d, 16 * q);
    HalfOf(n / 2, d / 2, 8 * q);
    HalfOf(n / 4, d / 4, 4 * q);
    HalfOf(n / 8, d / 8, 2 * q);
    HalfOf(n / 16, d / 16, q);
  }

  lemma DropOne(n: nat, len: nat)
    ensures Bits(n, 1 + len)[1..] == Bits(n / 2, len)
  {
  }

  lemma DropFive(n: nat, len: nat)
    ensures Bits(n, 5 + len)[5..] == Bits(n / 32, len)
  {
    assert n / 2 / 2 / 2 / 2 / 2 == n / 32;
    DropOne(n, 4 + len);
    DropOne(n / 2, 3 + len);
    DropOne(n / 2 / 2, 2 + len);
    DropOne(n / 2 / 2 / 2, 1 + len);
    DropOne(n / 2 / 2 / 2 / 2, len);
  }

  /** The lowest five bits of a number stand from the place `k` on. */
  predicate FiveAt(d: nat, c: State, k: nat)
    requires k + 5 <= 30
  {
    && c[k] == (d % 2 == 1) && c[k + 1] == (d / 2 % 2 == 1) && c[k + 2] == (d / 4 % 2 == 1)
    && c[k + 3] == (d / 8 % 2 == 1) && c[k + 4] == (d / 16 % 2 == 1)
  }

  lemma BitsMore(n: nat, d: nat, q: nat, len: nat, c: State)
    requires n == d + 32 * q && d < 32 && len <= 25 && FiveAt(d, c, 25 - len) && c[30 - len..] == Bits(q, len)
    ensures c[25 - len..] == Bits(n, 5 + len)
  {
    LowSame(n, d, q);
    LowBits(n, 5 + len);
    DropFive(n, len);
    var b, e := Bits(n, 5 + len), c[25 - len..];
    assert e[5..] == b[5..];
    assert e[0] == b[0] && e[1] == b[1] && e[2] == b[2] && e[3] == b[3] && e[4] == b[4];
    assert e[..5] == b[..5];
    assert e == e[..5] + e[5..] && b == b[..5] + b[5..];
  }

  /** A number given by its six digits to the base 32. */
  lemma BitsAre(n: nat, d0: nat, d1: nat, d2: nat, d3: nat, d4: nat, d5: nat, c: State)
    requires d0 < 32 && d1 < 32 && d2 < 32 && d3 < 32 && d4 < 32 && d5 < 32
    requires n == d0 + 32 * (d1 + 32 * (d2 + 32 * (d3 + 32 * (d4 + 32 * d5))))
    requires FiveAt(d0, c, 0) && FiveAt(d1, c, 5) && FiveAt(d2, c, 10) && FiveAt(d3, c, 15) && FiveAt(d4, c, 20)
    requires FiveAt(d5, c, 25)
    ensures Bits(n, 30) == c
  {
    var q4 := d4 + 32 * d5;
    var q3 := d3 + 32 * q4;
    var q2 := d2 + 32 * q3;
    var q1 := d1 + 32 * q2;
    BitsMore(d5, d5, 0, 0, c);
    BitsMore(q4, d4, d5, 5, c);
    BitsMore(q3, d3, q4, 10, c);
    BitsMore(q2, d2, q3, 15, c);
    BitsMore(q1, d1, q2, 20, c);
    BitsMore(n, d0, q1, 25, c);
    assert c[0..] == c;
  }

  lemma FiveOn(d: nat, c: State, x: bv30, k: nat)
    requires Same(c, x) && k + 5 <= 30
    requires On(x, Mask(k)) == (d % 2 == 1) && On(x, Mask(k + 1)) == (d / 2 % 2 == 1)
    requires On(x, Mask(k + 2)) == (d / 4 % 2 == 1) && On(x, Mask(k + 3)) == (d / 8 % 2 == 1)
    requires On(x, Mask(k + 4)) == (d / 16 % 2 == 1)
    ensures FiveAt(d, c, k)
  {
  }

  lemma Generator0(n: nat)
    requires n == 0x3b6a57b2
    ensures Same(Bits(n, 30), 0x3b6a57b2)
  {
    var c := StateOf(0x3b6a57b2);
    FiveOn(18, c, 0x3b6a57b2, 0);
    FiveOn(29, c, 0x3b6a57b2, 5);
    FiveOn(21, c, 0x3b6a57b2, 10);
    FiveOn(20, c, 0x3b6a57b2, 15);
    FiveOn(22, c, 0x3b6a57b2, 20);
    FiveOn(29, c, 0x3b6a57b2, 25);
    BitsAre(n, 18, 29, 21, 20, 22, 29, c);
  }

  lemma Generator1(n: nat)
    requires n == 0x26508e6d
    ensures Same(Bits(n, 30), 0x26508e6d)
  {
    var c := StateOf(0x26508e6d);
    FiveOn(13, c, 0x26508e6d, 0);
    FiveOn(19, c, 0x26508e6d, 5);
    FiveOn(3, c, 0x26508e6d, 10);
    FiveOn(1, c, 0x26508e6d, 15);
    FiveOn(5, c, 0x26508e6d, 20);
    FiveOn(19, c, 0x26508e6d, 25);
    BitsAre(n, 13, 19, 3, 1, 5, 19, c);
  }

  lemma Generator2(n: nat)
    requires n == 0x1ea119fa
    ensures Same(Bits(n, 30), 0x1ea119fa)
  {
    var c := StateOf(0x1ea119fa);
    FiveOn(26, c, 0x1ea119fa, 0);
    FiveOn(15, c, 0x1ea119fa, 5);
    FiveOn(6, c, 0x1ea119fa, 10);
    FiveOn(2, c, 0x1ea119fa, 15);
    FiveOn(10, c, 0x1ea119fa, 20);
    FiveOn(15, c, 0x1ea119fa, 25);
    BitsAre(n, 26, 15, 6, 2, 10, 15, c);
  }

  lemma Generator3(n: nat)
    requires n == 0x3d4233dd
    ensures Same(Bits(n, 30), 0x3d4233dd)
  {
    var c := StateOf(0x3d4233dd);
    FiveOn(29, c, 0x3d4233dd, 0);
    FiveOn(30, c, 0x3d4233dd, 5);
    FiveOn(12, c, 0x3d4233dd, 10);
    FiveOn(4, c, 0x3d4233dd, 15);
    FiveOn(20, c, 0x3d4233dd, 20);
    FiveOn(30, c, 0x3d4233dd, 25);
    BitsAre(n, 29, 30, 12, 4, 20, 30, c);
  }

  lemma Generator4(n: nat)
    requires n == 0x2a1462b3
    ensures Same(Bits(n, 30), 0x2a1462b3)
  {
    var c := StateOf(0x2a1462b3);
    FiveOn(19, c, 0x2a1462b3, 0);
    FiveOn(21, c, 0x2a1462b3, 5);
    FiveOn(24, c, 0x2a1462b3, 10);
    FiveOn(8, c, 0x2a1462b3, 15);
    FiveOn(1, c, 0x2a1462b3, 20);
    FiveOn(21, c, 0x2a1462b3, 25);
    BitsAre(n, 19, 21, 24, 8, 1, 21, c);
  }

  lemma GeneratorsKnown(numbers: seq<nat>)
    requires numbers == GENERATORS
    ensures Known(GeneratorsOf(numbers))
  {
    Generator0(numbers[0]);
    Generator1(numbers[1]);
    Generator2(numbers[2]);
    Generator3(numbers[3]);
    Generator4(numbers[4]);
  }

  lemma FirstConstant(n: nat)
    requires n == 0x1
    ensures Same(Bits(n, 30), 0x1)
  {
    var c := StateOf(0x1);
    FiveOn(1, c, 0x1, 0);
    FiveOn(0, c, 0x1, 5);
    FiveOn(0, c, 0x1, 10);
    FiveOn(0, c, 0x1, 15);
    FiveOn(0, c, 0x1, 20);
    FiveOn(0, c, 0x1, 25);
    BitsAre(n, 1, 0, 0, 0, 0, 0, c);
  }

  lemma SecondConstant(n: nat)
    requires n == 0x2bc830a3
    ensures Same(Bits(n, 30), 0x2bc830a3)
  {
    var c := StateOf(0x2bc830a3);
    FiveOn(3, c, 0x2bc830a3, 0);
    FiveOn(5, c, 0x2bc830a3, 5);
    FiveOn(12, c, 0x2bc830a3, 10);
    FiveOn(16, c, 0x2bc830a3, 15);
    FiveOn(28, c, 0x2bc830a3, 20);
    FiveOn(21, c, 0x2bc830a3, 25);
    BitsAre(n, 3, 5, 12, 16, 28, 21, c);
  }

  lemma ConstantsKnown(numbers: seq<nat>)
    requires numbers == CONSTANTS
    ensures Same(Xor(Bits(numbers[0], 30), Bits(numbers[1], 30)), DIFFERENCE)
  {
    FirstConstant(numbers[0]);
    SecondConstant(numbers[1]);
    XorSame(Bits(numbers[0], 30), Bits(numbers[1], 30), 1, 0x2bc830a3);
  }

  // ----- Backwards from the difference of the constants -----

  const DIFFERENCE: bv30 := 0x2bc830a2

  /** The bits that have left a word, from the lowest symbol of the next one. */
  function Left(y: bv30): bv30 {
    Pick(On(y, 0x1), 0x22000000) ^ Pick(On(y, 0x2), 0x16000000) ^ Pick(On(y, 0x4), 0x2c000000)
    ^ Pick(On(y, 0x8), 0xa000000) ^ Pick(On(y, 0x10), 0x14000000)
  }

  function Previous(y: bv30): bv30 { Left(y) ^ ((y ^ Reduction(Left(y))) >> 5) }

  lemma NextPrevious(y: bv30)
    ensures Next(Previous(y)) == y
  {
  }

  /** The word from which `n` symbols 0 lead to the difference of the constants. */
  function Source(n: nat): bv30 { if n == 0 then DIFFERENCE else Previous(Source(n - 1)) }

  predicate Wide(x: bv30) { x & 0x3fffffe0 != 0 }

  lemma OneBack(n: nat, y: bv30, x: bv30)
    requires Source(n) == y && Previous(y) == x && Wide(x)
    ensures Source(n + 1) == x && Wide(Source(n + 1))
  {
  }

  lemma Ten0(n: nat)
    requires Source(n) == 0x2bc830a2
    ensures Source(n + 10) == 0x17c7ae0b && forall i | n < i <= n + 10 :: Wide(Source(i))
  {
    OneBack(n, 0x2bc830a2, 0x165d86d5);
    OneBack(n + 1, 0x165d86d5, 0x1a76a7da);
    OneBack(n + 2, 0x1a76a7da, 0x826bdf1);
    OneBack(n + 3, 0x826bdf1, 0x361251aa);
    OneBack(n + 4, 0x361251aa, 0x1d9d0faf);
    OneBack(n + 5, 0x1d9d0faf, 0x12ddab5e);
    OneBack(n + 6, 0x12ddab5e, 0x24f4ca3c);
    OneBack(n + 7, 0x24f4ca3c, 0x32464667);
    OneBack(n + 8, 0x32464667, 0x188d2b62);
    OneBack(n + 9, 0x188d2b62, 0x17c7ae0b);
  }

  lemma Ten1(n: nat)
    requires Source(n) == 0x17c7ae0b
    ensures Source(n + 10) == 0x274d7abf && forall i | n < i <= n + 10 :: Wide(Source(i))
  {
    OneBack(n, 0x17c7ae0b, 0x3e1851fa);
    OneBack(n + 1, 0x3e1851fa, 0x905ca40);
    OneBack(n + 2, 0x905ca40, 0x482e52);
    OneBack(n + 3, 0x482e52, 0x3d913cf);
    OneBack(n + 4, 0x3d913cf, 0x122f8bbd);
    OneBack(n + 5, 0x122f8bbd, 0x117b6dc3);
    OneBack(n + 6, 0x117b6dc3, 0x3503ed96);
    OneBack(n + 7, 0x3503ed96, 0x2ee46278);
    OneBack(n + 8, 0x2ee46278, 0x1e81ec8c);
    OneBack(n + 9, 0x1e81ec8c, 0x274d7abf);
  }

  lemma Ten2(n: nat)
    requires Source(n) == 0x274d7abf
    ensures Source(n + 10) == 0x2056b172 && forall i | n < i <= n + 10 :: Wide(Source(i))
  {
    OneBack(n, 0x274d7abf, 0x7d3bd1b);
    OneBack(n + 1, 0x7d3bd1b, 0x2a40648f);
    OneBack(n + 2, 0x2a40648f, 0x13634007);
    OneBack(n + 3, 0x13634007, 0x19840351);
    OneBack(n + 4, 0x19840351, 0x369f445f);
    OneBack(n + 5, 0x369f445f, 0x75d2cec);
    OneBack(n + 6, 0x75d2cec, 0x27839cbc);
    OneBack(n + 7, 0x27839cbc, 0x325dfcd3);
    OneBack(n + 8, 0x325dfcd3, 0x20c24cf3);
    OneBack(n + 9, 0x20c24cf3, 0x2056b172);
  }

  lemma Ten3(n: nat)
    requires Source(n) == 0x2056b172
    ensures Source(n + 10) == 0x2e97cab8 && forall i | n < i <= n + 10 :: Wide(Source(i))
  {
    OneBack(n, 0x2056b172, 0x2d9e736);
    OneBack(n + 1, 0x2d9e736, 0x2f5ab22d);
    OneBack(n + 2, 0x2f5ab22d, 0x44851e2);
    OneBack(n + 3, 0x44851e2, 0x172185df);
    OneBack(n + 4, 0x172185df, 0x650dae0);
    OneBack(n + 5, 0x650dae0, 0x3286d7);
    OneBack(n + 6, 0x3286d7, 0xdc6188a);
    OneBack(n + 7, 0xdc6188a, 0x1c43ade6);
    OneBack(n + 8, 0x1c43ade6, 0x3b76f596);
    OneBack(n + 9, 0x3b76f596, 0x2e97cab8);
  }

  lemma Ten4(n: nat)
    requires Source(n) == 0x2e97cab8
    ensures Source(n + 10) == 0x103d29f1 && forall i | n < i <= n + 10 :: Wide(Source(i))
  {
    OneBack(n, 0x2e97cab8, 0x1e8271ca);
    OneBack(n + 1, 0x1e8271ca, 0x1cd98eac);
    OneBack(n + 2, 0x1cd98eac, 0x275fb9ae);
    OneBack(n + 3, 0x275fb9ae, 0x31804f46);
    OneBack(n + 4, 0x31804f46, 0x3a18ea83);
    OneBack(n + 5, 0x3a18ea83, 0x3458f1ac);
    OneBack(n + 6, 0x3458f1ac, 0x261bb256);
    OneBack(n + 7, 0x261bb256, 0x2e7ca086);
    OneBack(n + 8, 0x2e7ca086, 0x3ae70dfd);
    OneBack(n + 9, 0x3ae70dfd, 0x103d29f1);
  }

  lemma Ten5(n: nat)
    requires Source(n) == 0x103d29f1
    ensures Source(n + 10) == 0xdb505f7 && forall i | n < i <= n + 10 :: Wide(Source(i))
  {
    OneBack(n, 0x103d29f1, 0x36d28d0a);
    OneBack(n + 1, 0x36d28d0a, 0x1d9b094a);
    OneBack(n + 2, 0x1d9b094a, 0x1cc14568);
    OneBack(n + 3, 0x1cc14568, 0xbc85059);
    OneBack(n + 4, 0xbc85059, 0x3d237cb5);
    OneBack(n + 5, 0x3d237cb5, 0x1b2d5009);
    OneBack(n + 6, 0x1b2d5009, 0x297cc15a);
    OneBack(n + 7, 0x297cc15a, 0x9beeec5);
    OneBack(n + 8, 0x9beeec5, 0xe512977);
    OneBack(n + 9, 0xe512977, 0xdb505f7);
  }

  lemma Ten6(n: nat)
    requires Source(n) == 0xdb505f7
    ensures Source(n + 10) == 0x36425580 && forall i | n < i <= n + 10 :: Wide(Source(i))
  {
    OneBack(n, 0xdb505f7, 0xdaa2493);
    OneBack(n + 1, 0xdaa2493, 0x213df231);
    OneBack(n + 2, 0x213df231, 0x375a8bd4);
    OneBack(n + 3, 0x375a8bd4, 0x39f56e1a);
    OneBack(n + 4, 0x39f56e1a, 0x93aa3bf);
    OneBack(n + 5, 0x93aa3bf, 0x6a003d3);
    OneBack(n + 6, 0x6a003d3, 0x2165a30b);
    OneBack(n + 7, 0x2165a30b, 0x3fad4192);
    OneBack(n + 8, 0x3fad4192, 0x22638b1);
    OneBack(n + 9, 0x22638b1, 0x36425580);
  }

  lemma Ten7(n: nat)
    requires Source(n) == 0x36425580
    ensures Source(n + 10) == 0x3ef07c66 && forall i | n < i <= n + 10 :: Wide(Source(i))
  {
    OneBack(n, 0x36425580, 0x1b212ac);
    OneBack(n + 1, 0x1b212ac, 0x27b4e54e);
    OneBack(n + 2, 0x27b4e54e, 0x318715a1);
    OneBack(n + 3, 0x318715a1, 0x2307c905);
    OneBack(n + 4, 0x2307c905, 0xf04e049);
    OneBack(n + 5, 0xf04e049, 0x29dd8cd8);
    OneBack(n + 6, 0x29dd8cd8, 0x1eb823f9);
    OneBack(n + 7, 0x1eb823f9, 0x3d88ff28);
    OneBack(n + 8, 0x3d88ff28, 0xac21d8b);
    OneBack(n + 9, 0xac21d8b, 0x3ef07c66);
  }

  lemma Ten8(n: nat)
    requires Source(n) == 0x3ef07c66
    ensures Source(n + 10) == 0x1b66abf6 && forall i | n < i <= n + 10 :: Wide(Source(i))
  {
    OneBack(n, 0x3ef07c66, 0x3a636b1a);
    OneBack(n + 1, 0x3a636b1a, 0x9261397);
    OneBack(n + 2, 0x9261397, 0xd8ebc20);
    OneBack(n + 3, 0xd8ebc20, 0x6c75e1);
    OneBack(n + 4, 0x6c75e1, 0x22889207);
    OneBack(n + 5, 0x22889207, 0x180b5dc1);
    OneBack(n + 6, 0x180b5dc1, 0x224bab46);
    OneBack(n + 7, 0x224bab46, 0x3a86b5a3);
    OneBack(n + 8, 0x3a86b5a3, 0x345c0355);
    OneBack(n + 9, 0x345c0355, 0x1b66abf6);
  }

  /** None of them is a single symbol. */
  lemma WideWithin(z: nat, n: nat)
    requires z == 0 && n <= 90
    ensures Wide(Source(n))
  {
    Ten0(z);
    Ten1(z + 10);
    Ten2(z + 20);
    Ten3(z + 30);
    Ten4(z + 40);
    Ten5(z + 50);
    Ten6(z + 60);
    Ten7(z + 70);
    Ten8(z + 80);
  }

  predicate SingleSymbol(c: State) { forall i | 5 <= i < 30 :: !c[i] }

  lemma WideIsNotSingle(c: State, x: bv30)
    requires Same(c, x) && SingleSymbol(c)
    ensures !Wide(x)
  {
    assert !c[5] && Mask(5) == 0x20 && !c[6] && Mask(6) == 0x40 && !c[7] && Mask(7) == 0x80 && !c[8] && Mask(8) == 0x100
      && !c[9] && Mask(9) == 0x200;
    assert !c[10] && Mask(10) == 0x400 && !c[11] && Mask(11) == 0x800 && !c[12] && Mask(12) == 0x1000 && !c[13]
      && Mask(13) == 0x2000 && !c[14] && Mask(14) == 0x4000;
    assert !c[15] && Mask(15) == 0x8000 && !c[16] && Mask(16) == 0x10000 && !c[17] && Mask(17) == 0x20000 && !c[18]
      && Mask(18) == 0x40000 && !c[19] && Mask(19) == 0x80000;
    assert !c[20] && Mask(20) == 0x100000 && !c[21] && Mask(21) == 0x200000 && !c[22] && Mask(22) == 0x400000 && !c[23]
      && Mask(23) == 0x800000 && !c[24] && Mask(24) == 0x1000000;
    assert !c[25] && Mask(25) == 0x2000000 && !c[26] && Mask(26) == 0x4000000 && !c[27] && Mask(27) == 0x8000000
      && !c[28] && Mask(28) == 0x10000000 && !c[29] && Mask(29) == 0x20000000;
  }

  lemma StepBack(g: Generators, c: State, y: bv30)
    requires Known(g) && Same(c, Previous(y))
    ensures Same(Step(g, c, 0), y)
  {
    var x := Previous(y);
    StepSame(g, c, x);
    NextPrevious(y);
  }

  lemma {:induction false} Leads(g: Generators, c: State, end: State, n: nat)
    requires Known(g) && Same(c, Source(n)) && Same(end, DIFFERENCE)
    ensures Run(g, c, Zeros(n)) == end
    decreases n
  {
    hide Same, Step, Previous, Known;
    if n == 0 {
      SameUnique(c, end, DIFFERENCE);
    } else {
      StepBack(g, c, Source(n - 1));
      assert Zeros(n)[1..] == Zeros(n - 1);
      Leads(g, Step(g, c, 0), end, n - 1);
    }
  }

  /** A single symbol, however many up to 90 others follow, does not turn one constant into the other. */
  lemma SymbolMisses(g: Generators, c: State, end: State, n: nat)
    requires Independent(g) && Known(g) && Same(end, DIFFERENCE) && SingleSymbol(c) && n <= 90
    ensures Run(g, c, Zeros(n)) != end
  {
    var d := StateOf(Source(n));
    Leads(g, d, end, n);
    if Run(g, c, Zeros(n)) == end {
      SameAfterZeros(g, c, d, n);
      WideWithin(0, n);
      WideIsNotSingle(d, Source(n));
    }
  }

  // ----- One wrong character -----

  /** What the same symbols make of two states differs by what zeros make of their difference. */
  lemma RunDifference(g: Generators, p: State, q: State, after: seq<Symbol>)
    ensures Xor(Run(g, p, after), Run(g, q, after)) == Run(g, Xor(p, q), Zeros(|after|))
  {
    var z := Zeros(|after|);
    RunSplits(g, p, after);
    RunSplits(g, q, after);
    RunLinear(g, p, q, z, z);
    ZerosNeutral(z);
    Common(Run(g, p, z), Run(g, q, z), Run(g, ZERO, after));
  }

  lemma Common(a: State, b: State, x: State)
    ensures Xor(Xor(a, x), Xor(b, x)) == Xor(a, b)
  {
  }

  lemma StepsDifferInOneSymbol(g: Generators, c: State, x: Symbol, y: Symbol)
    ensures SingleSymbol(Xor(Step(g, c, x), Step(g, c, y)))
  {
  }

  lemma SymbolDifference(g: Generators, c: State, before: seq<Symbol>, x: Symbol, y: Symbol, after: seq<Symbol>)
    returns (d: State)
    ensures SingleSymbol(d)
    ensures Xor(Run(g, c, before + [x] + after), Run(g, c, before + [y] + after)) == Run(g, d, Zeros(|after|))
  {
    var s := Run(g, c, before);
    d := Xor(Step(g, s, x), Step(g, s, y));
    StepsDifferInOneSymbol(g, s, x, y);
    RunAround(g, c, before, x, after);
    RunAround(g, c, before, y, after);
    RunDifference(g, Step(g, s, x), Step(g, s, y), after);
  }

  lemma RunAround(g: Generators, c: State, before: seq<Symbol>, x: Symbol, after: seq<Symbol>)
    ensures Run(g, c, before + [x] + after) == Run(g, Step(g, Run(g, c, before), x), after)
  {
    RunAppend(g, c, before + [x], after);
    RunAppend(g, c, before, [x]);
  }

  lemma CodeKnown(k: Code)
    requires k == TheCode()
    ensures Known(k.g) && Same(Xor(k.bech32, k.bech32m), DIFFERENCE)
  {
    GeneratorsKnown(GENERATORS);
    ConstantsKnown(CONSTANTS);
  }

  /** With up to 90 symbols behind it, one changed symbol makes valid values invalid for both encodings. */
  lemma OneErrorNeverVerified(k: Code, hrp: string, values: seq<Symbol>, i: nat, y: Symbol)
    requires k == TheCode() && CodeOk(k) && i < |values| <= i + 91 && values[i] != y
             && Verified(k, hrp, values) != Invalid
    ensures Verified(k, hrp, values[i := y]) == Invalid
  {
    var prefix := Expanded(hrp) + values[..i];
    var after := values[i + 1..];
    AroundSymbol(Expanded(hrp), values, i, y);
    OneErrorDetected(k, hrp, values, i, y);
    var d := SymbolDifference(k.g, k.start, prefix, values[i], y, after);
    CodeKnown(k);
    SymbolMisses(k.g, d, Xor(k.bech32, k.bech32m), |after|);
    XorCommutes(k.bech32, k.bech32m);
  }

  lemma XorCommutes(a: State, b: State)
    ensures Xor(a, b) == Xor(b, a)
  {
  }

  /**
   Another character at one place of the data part of a string that decodes, other than the separator: within the
   length limit the string no longer decodes at all.
   */
  lemma OneErrorFails(k: Code, str: string, p: nat, c: char)
    requires k == TheCode() && Decoded(k, str, false) != Failed
    requires LastOne(str) < p < |str| && c != '1' && Rev(c) != Rev(str[p])
    ensures Decoded(k, str[p := c], false) == Failed
  {
    if Decoded(k, str[p := c], false) != Failed {
      TheCodeOk();
      var hrp, v, i, y := BothVerified(k, str, str[p := c], false, p, c);
      OneErrorNeverVerified(k, hrp, v, i, y);
    }
  }
}
