/**
 Bech32 and Bech32m (`src/bech32.cpp`, BIP 173 and BIP 350): the checksum is linear, created checksums
 verify, decoding inverts encoding, and every change of one symbol is noticed.
 */
module Bech32 {
  import opened Basics

  // ----- Bits -----

  /** The lowest `len` bits of a number, least significant first. */
  function Bits(n: nat, len: nat): (b: seq<bool>)
    ensures |b| == len
  {
    if len == 0 then [] else [n % 2 == 1] + Bits(n / 2, len - 1)
  }

  function Number(b: seq<bool>): nat { if b == [] then 0 else (if b[0] then 1 else 0) + 2 * Number(b[1..]) }

  lemma {:induction false} BitsOfNumber(b: seq<bool>)
    ensures Bits(Number(b), |b|) == b && Number(b) < Pow2(|b|)
  {
    if b != [] { BitsOfNumber(b[1..]); }
  }

  lemma {:induction false} NumberOfBits(n: nat, len: nat)
    requires n < Pow2(len)
    ensures Number(Bits(n, len)) == n
    decreases len
  {
    if len > 0 { NumberOfBits(n / 2, len - 1); }
  }

  // ----- The checksum polynomial -----

  /** A 30-bit checksum state. */
  type State = s: seq<bool> | |s| == 30 witness seq(30, _ => false)

  /** A symbol of five bits. */
  type Symbol = v: nat | v < 32

  function Xor(a: State, b: State): (r: State)
    ensures forall i | 0 <= i < 30 :: r[i] == (a[i] != b[i])
  {
    seq(30, i requires 0 <= i < 30 => a[i] != b[i])
  }

  const ZERO: State := seq(30, _ => false)

  function Times(b: bool, g: State): (r: State)
    ensures forall i | 0 <= i < 30 :: r[i] == (b && g[i])
  {
    seq(30, i requires 0 <= i < 30 => b && g[i])
  }

  /** The generator and its multiples by 2, 4, 8 and 16. */
  type Generators = g: seq<State> | |g| == 5 witness seq(5, _ => seq(30, _ => false))

  /** What the five bits that leave the state add to it. */
  function Feedback(g: Generators, c: State): State {
    Xor(Xor(Xor(Xor(Times(c[25], g[0]), Times(c[26], g[1])), Times(c[27], g[2])), Times(c[28], g[3])),
        Times(c[29], g[4]))
  }

  /** `((c & 0x1ffffff) << 5) ^ v`. */
  function Shift(c: State, v: Symbol): State { Bits(v, 5) + c[..25] }

  /** One more symbol: the state is multiplied by x, reduced, and the symbol added. */
  function Step(g: Generators, c: State, v: Symbol): State { Xor(Shift(c, v), Feedback(g, c)) }

  function Run(g: Generators, c: State, v: seq<Symbol>): State
    decreases |v|
  {
    if v == [] then c else Run(g, Step(g, c, v[0]), v[1..])
  }

  function XorSymbol(u: Symbol, v: Symbol): (w: Symbol)
    ensures Bits(w, 5) == Both(Bits(u, 5), Bits(v, 5))
  {
    BitsOfNumber(Both(Bits(u, 5), Bits(v, 5)));
    assert Pow2(5) == 32;
    Number(Both(Bits(u, 5), Bits(v, 5)))
  }

  function Both(a: seq<bool>, b: seq<bool>): (r: seq<bool>)
    requires |a| == |b|
    ensures |r| == |a| && forall i | 0 <= i < |a| :: r[i] == (a[i] != b[i])
  {
    seq(|a|, i requires 0 <= i < |a| => a[i] != b[i])
  }

  /** The step is linear over exclusive or. */
  lemma StepLinear(g: Generators, c: State, d: State, u: Symbol, v: Symbol)
    ensures Step(g, Xor(c, d), XorSymbol(u, v)) == Xor(Step(g, c, u), Step(g, d, v))
  {
    FeedbackLinear(g, c, d);
    ShiftLinear(c, d, u, v);
    Rearrange(Shift(c, u), Shift(d, v), Feedback(g, c), Feedback(g, d));
  }

  lemma ShiftLinear(c: State, d: State, u: Symbol, v: Symbol)
    ensures Shift(Xor(c, d), XorSymbol(u, v)) == Xor(Shift(c, u), Shift(d, v))
  {
  }

  lemma Rearrange(a: State, b: State, x: State, y: State)
    ensures Xor(Xor(a, b), Xor(x, y)) == Xor(Xor(a, x), Xor(b, y))
  {
  }

  lemma TimesLinear(a: bool, b: bool, g: State)
    ensures Times(a != b, g) == Xor(Times(a, g), Times(b, g))
  {
  }

  lemma FeedbackLinear(g: Generators, c: State, d: State)
    ensures Feedback(g, Xor(c, d)) == Xor(Feedback(g, c), Feedback(g, d))
  {
    TimesLinear(c[25], d[25], g[0]);
    TimesLinear(c[26], d[26], g[1]);
    TimesLinear(c[27], d[27], g[2]);
    TimesLinear(c[28], d[28], g[3]);
    TimesLinear(c[29], d[29], g[4]);
    var c0, c1, c2, c3, c4 :=
      Times(c[25], g[0]), Times(c[26], g[1]), Times(c[27], g[2]), Times(c[28], g[3]), Times(c[29], g[4]);
    var d0, d1, d2, d3, d4 :=
      Times(d[25], g[0]), Times(d[26], g[1]), Times(d[27], g[2]), Times(d[28], g[3]), Times(d[29], g[4]);
    Rearrange(c0, d0, c1, d1);
    Rearrange(Xor(c0, c1), Xor(d0, d1), c2, d2);
    Rearrange(Xor(Xor(c0, c1), c2), Xor(Xor(d0, d1), d2), c3, d3);
    Rearrange(Xor(Xor(Xor(c0, c1), c2), c3), Xor(Xor(Xor(d0, d1), d2), d3), c4, d4);
  }

  /** The lowest five bits of a state. */
  predicate LowIs(c: State, k: nat) {
    c[0] == (k % 2 == 1) && c[1] == (k / 2 % 2 == 1) && c[2] == (k / 4 % 2 == 1) && c[3] == (k / 8 % 2 == 1)
      && c[4] == (k / 16 % 2 == 1)
  }

  /** What makes the step injective: the lowest symbols of the generator multiples, independent of each other. */
  predicate Independent(g: Generators) {
    LowIs(g[0], 18) && LowIs(g[1], 13) && LowIs(g[2], 26) && LowIs(g[3], 29) && LowIs(g[4], 19)
  }

  lemma {:induction false} BitsOfZero(len: nat)
    ensures forall i | 0 <= i < len :: !Bits(0, len)[i]
  {
    if len > 0 { BitsOfZero(len - 1); }
  }

  /** The five bits that leave show in the lowest five bits of what they add. */
  lemma LeavingBits(g: Generators, c: State)
    requires Independent(g)
    requires !Feedback(g, c)[0] && !Feedback(g, c)[1] && !Feedback(g, c)[2] && !Feedback(g, c)[3] && !Feedback(g, c)[4]
    ensures !c[25] && !c[26] && !c[27] && !c[28] && !c[29]
  {
  }

  /** Only the zero state is taken to zero by a zero symbol. */
  lemma StepKernel(g: Generators, c: State)
    requires Independent(g) && Step(g, c, 0) == ZERO
    ensures c == ZERO
  {
    BitsOfZero(5);
    forall i | 0 <= i < 5 ensures !Feedback(g, c)[i] { assert !Step(g, c, 0)[i] && !Shift(c, 0)[i]; }
    LeavingBits(g, c);
    forall i | 0 <= i < 30 ensures !c[i] {
      if i < 25 { assert !Step(g, c, 0)[i + 5] && Shift(c, 0)[i + 5] == c[i]; }
    }
  }

  lemma XorZero(a: State, b: State)
    ensures Xor(a, ZERO) == a && Xor(a, a) == ZERO && Xor(a, Xor(a, b)) == b
  {
  }

  lemma XorSymbolZero(v: Symbol)
    ensures XorSymbol(0, v) == v && XorSymbol(v, v) == 0 && XorSymbol(v, 0) == v
  {
    BitsOfZero(5);
    assert Pow2(5) == 32;
    NumberOfBits(v, 5);
    NumberOfBits(0, 5);
    assert Both(Bits(0, 5), Bits(v, 5)) == Bits(v, 5) == Both(Bits(v, 5), Bits(0, 5));
    assert Both(Bits(v, 5), Bits(v, 5)) == Bits(0, 5);
  }

  function XorAll(u: seq<Symbol>, v: seq<Symbol>): (w: seq<Symbol>)
    requires |u| == |v|
    ensures |w| == |u|
  {
    if u == [] then [] else [XorSymbol(u[0], v[0])] + XorAll(u[1..], v[1..])
  }

  /** Whole runs are linear. */
  lemma {:induction false} RunLinear(g: Generators, c: State, d: State, u: seq<Symbol>, v: seq<Symbol>)
    requires |u| == |v|
    ensures Run(g, Xor(c, d), XorAll(u, v)) == Xor(Run(g, c, u), Run(g, d, v))
    decreases |u|
  {
    if u != [] {
      StepLinear(g, c, d, u[0], v[0]);
      RunLinear(g, Step(g, c, u[0]), Step(g, d, v[0]), u[1..], v[1..]);
    }
  }

  lemma {:induction false} RunAppend(g: Generators, c: State, u: seq<Symbol>, v: seq<Symbol>)
    ensures Run(g, c, u + v) == Run(g, Run(g, c, u), v)
    decreases |u|
  {
    if u == [] {
      assert u + v == v;
    } else {
      assert (u + v)[1..] == u[1..] + v;
      RunAppend(g, Step(g, c, u[0]), u[1..], v);
    }
  }

  function Zeros(n: nat): (z: seq<Symbol>)
    ensures |z| == n
  {
    if n == 0 then [] else [0] + Zeros(n - 1)
  }

  /** What symbols do to a state is what they do from zero, on top of what zeros do to the state. */
  lemma {:induction false} RunSplits(g: Generators, c: State, v: seq<Symbol>)
    ensures Run(g, c, v) == Xor(Run(g, c, Zeros(|v|)), Run(g, ZERO, v))
  {
    XorZero(c, c);
    ZerosNeutral(v);
    RunLinear(g, c, ZERO, Zeros(|v|), v);
  }

  lemma {:induction false} ZerosNeutral(v: seq<Symbol>)
    ensures XorAll(Zeros(|v|), v) == v
  {
    if v != [] {
      XorSymbolZero(v[0]);
      ZerosNeutral(v[1..]);
    }
  }

  /** A state that is not zero never becomes zero by zeros. */
  lemma {:induction false} RunZeros(g: Generators, c: State, n: nat)
    requires Independent(g) && Run(g, c, Zeros(n)) == ZERO
    ensures c == ZERO
    decreases n
  {
    if n > 0 {
      assert Zeros(n)[1..] == Zeros(n - 1);
      RunZeros(g, Step(g, c, 0), n - 1);
      StepKernel(g, c);
    }
  }

  /** Changing one symbol changes the result. */
  lemma OneSymbol(g: Generators, c: State, before: seq<Symbol>, x: Symbol, y: Symbol, after: seq<Symbol>)
    requires Independent(g) && x != y
    ensures Run(g, c, before + [x] + after) != Run(g, c, before + [y] + after)
  {
    hide Step, Independent;
    var d := Run(g, c, before);
    RunAppend(g, c, before, [x] + after);
    RunAppend(g, c, before, [y] + after);
    assert before + [x] + after == before + ([x] + after) && before + [y] + after == before + ([y] + after);
    var p, q := Step(g, d, x), Step(g, d, y);
    assert ([x] + after)[1..] == after && ([y] + after)[1..] == after;
    StepDiffers(g, d, x, y);
    if Run(g, p, after) == Run(g, q, after) { RunInjective(g, p, q, after); }
  }

  lemma StepDiffers(g: Generators, c: State, x: Symbol, y: Symbol)
    requires x != y
    ensures Step(g, c, x) != Step(g, c, y)
  {
    assert Pow2(5) == 32;
    NumberOfBits(x, 5);
    NumberOfBits(y, 5);
    assert Bits(x, 5) != Bits(y, 5);
    var i :| 0 <= i < 5 && Bits(x, 5)[i] != Bits(y, 5)[i];
    assert Shift(c, x)[i] != Shift(c, y)[i];
    assert Step(g, c, x)[i] != Step(g, c, y)[i];
  }

  lemma SameAfterZeros(g: Generators, p: State, q: State, n: nat)
    requires Independent(g) && Run(g, p, Zeros(n)) == Run(g, q, Zeros(n))
    ensures p == q
  {
    var z := Zeros(n);
    RunLinear(g, p, q, z, z);
    ZerosNeutral(z);
    XorZero(Run(g, p, z), p);
    RunZeros(g, Xor(p, q), n);
    SameIfXorZero(p, q);
  }

  lemma SameIfXorZero(p: State, q: State)
    requires Xor(p, q) == ZERO
    ensures p == q
  {
    forall i | 0 <= i < 30 ensures p[i] == q[i] { assert !Xor(p, q)[i]; }
  }

  /** The same symbols lead different states to different states. */
  lemma RunInjective(g: Generators, p: State, q: State, v: seq<Symbol>)
    requires Independent(g) && Run(g, p, v) == Run(g, q, v)
    ensures p == q
  {
    RunSplits(g, p, v);
    RunSplits(g, q, v);
    Cancel(Run(g, p, Zeros(|v|)), Run(g, q, Zeros(|v|)), Run(g, ZERO, v));
    SameAfterZeros(g, p, q, |v|);
  }

  lemma Cancel(a: State, b: State, x: State)
    requires Xor(a, x) == Xor(b, x)
    ensures a == b
  {
    forall i | 0 <= i < 30 ensures a[i] == b[i] { assert Xor(a, x)[i] == Xor(b, x)[i]; }
  }

  // ----- Checksums -----

  datatype Encoding = Invalid | BECH32 | BECH32M

  const GENERATORS: seq<nat> := [0x3b6a57b2, 0x26508e6d, 0x1ea119fa, 0x3d4233dd, 0x2a1462b3]

  function GeneratorsOf(numbers: seq<nat>): Generators
    requires |numbers| == 5
  {
    seq(5, i requires 0 <= i < 5 => Bits(numbers[i], 30))
  }

  lemma LowBits(n: nat, len: nat)
    requires len >= 5
    ensures var b := Bits(n, len);
            b[0] == (n % 2 == 1) && b[1] == (n / 2 % 2 == 1) && b[2] == (n / 4 % 2 == 1) && b[3] == (n / 8 % 2 == 1)
              && b[4] == (n / 16 % 2 == 1)
  {
    assert n / 2 / 2 == n / 4 && n / 4 / 2 == n / 8 && n / 8 / 2 == n / 16;
    assert Bits(n / 8, len - 3) == [n / 8 % 2 == 1] + ([n / 16 % 2 == 1] + Bits(n / 16 / 2, len - 5));
    assert Bits(n / 2, len - 1) == [n / 2 % 2 == 1] + ([n / 4 % 2 == 1] + Bits(n / 8, len - 3));
  }

  /** Two numbers agree in their lowest five bits. */
  predicate SameLow(n: nat, k: nat) {
    n % 2 == k % 2 && n / 2 % 2 == k / 2 % 2 && n / 4 % 2 == k / 4 % 2 && n / 8 % 2 == k / 8 % 2
      && n / 16 % 2 == k / 16 % 2
  }

  lemma LowIsOf(n: nat, k: nat)
    requires SameLow(n, k)
    ensures LowIs(Bits(n, 30), k)
  {
    LowBits(n, 30);
  }

  lemma GeneratorsIndependent(numbers: seq<nat>)
    requires |numbers| == 5 && SameLow(numbers[0], 18) && SameLow(numbers[1], 13) && SameLow(numbers[2], 26)
             && SameLow(numbers[3], 29) && SameLow(numbers[4], 19)
    ensures Independent(GeneratorsOf(numbers))
  {
    LowIsOf(numbers[0], 18);
    LowIsOf(numbers[1], 13);
    LowIsOf(numbers[2], 26);
    LowIsOf(numbers[3], 29);
    LowIsOf(numbers[4], 19);
  }

  /** The 5-bit groups of the lowest `5 * k` bits of a state, the highest first. */
  function Symbols(c: State, k: nat): (v: seq<Symbol>)
    requires k <= 6
    ensures |v| == k
  {
    if k == 0 then [] else [Group(c, 5 * (k - 1))] + Symbols(c, k - 1)
  }

  function Group(c: State, k: nat): (v: Symbol)
    requires k <= 25
    ensures Bits(v, 5) == c[k..k + 5]
  {
    BitsOfNumber(c[k..k + 5]);
    assert Pow2(5) == 32;
    Number(c[k..k + 5])
  }

  /** The bits of symbols, those of the last symbol lowest. */
  function Lined(v: seq<Symbol>): (b: seq<bool>)
    ensures |b| == 5 * |v|
  {
    if v == [] then [] else Lined(v[1..]) + Bits(v[0], 5)
  }

  lemma {:induction false} LinedSymbols(c: State, k: nat)
    requires k <= 6
    ensures Lined(Symbols(c, k)) == c[..5 * k]
    decreases k
  {
    if k > 0 {
      LinedSymbols(c, k - 1);
      assert Symbols(c, k)[1..] == Symbols(c, k - 1);
      assert c[..5 * k] == c[..5 * (k - 1)] + c[5 * (k - 1)..5 * k];
    }
  }

  /** Symbols that enter while nothing leaves just line up. */
  lemma StepUnreduced(g: Generators, c: State, v: Symbol)
    requires forall i | 25 <= i < 30 :: !c[i]
    ensures Step(g, c, v) == Bits(v, 5) + c[..25]
  {
    assert Feedback(g, c) == ZERO;
    XorZero(Shift(c, v), c);
  }

  lemma Lineup(v: seq<Symbol>, d: State, c: State, m: nat)
    requires v != [] && m <= 25 && d == Bits(v[0], 5) + c[..25]
    ensures Lined(v[1..]) + d[..m + 5] == Lined(v) + c[..m]
  {
    assert d[..m + 5] == Bits(v[0], 5) + c[..m];
    Regroup(Lined(v[1..]), Bits(v[0], 5), c[..m]);
  }

  lemma Regroup<T>(a: seq<T>, b: seq<T>, c: seq<T>)
    ensures (a + b) + c == a + (b + c)
  {
  }

  lemma {:induction false} RunUnreduced(g: Generators, c: State, v: seq<Symbol>)
    requires |v| <= 6 && forall i | 30 - 5 * |v| <= i < 30 :: !c[i]
    ensures Run(g, c, v) == Lined(v) + c[..30 - 5 * |v|]
    decreases |v|
  {
    if v == [] {
      assert c[..30] == c;
    } else {
      StepUnreduced(g, c, v[0]);
      var d, m := Step(g, c, v[0]), 30 - 5 * |v|;
      forall i | m + 5 <= i < 30 ensures !d[i] { assert d[i] == c[i - 5]; }
      RunUnreduced(g, d, v[1..]);
      Lineup(v, d, c, m);
    }
  }

  /** From zero, the six symbols of a state make up the state. */
  lemma RunSymbols(g: Generators, c: State, n: nat)
    requires n == 6
    ensures Run(g, ZERO, Symbols(c, n)) == c
  {
    RunUnreduced(g, ZERO, Symbols(c, n));
    LinedSymbols(c, n);
  }

  /** Six symbols can be chosen so that a run ends in a given state. */
  lemma ChecksumHits(g: Generators, c: State, v: seq<Symbol>, target: State, n: nat)
    requires n == 6
    ensures Run(g, c, v + Symbols(Xor(Run(g, c, v + Zeros(n)), target), n)) == target
  {
    var d := Run(g, c, v);
    var r := Symbols(Xor(Run(g, c, v + Zeros(n)), target), n);
    RunAppend(g, c, v, r);
    RunAppend(g, c, v, Zeros(n));
    RunSplits(g, d, r);
    RunSymbols(g, Xor(Run(g, c, v + Zeros(n)), target), n);
    XorZero(Run(g, c, v + Zeros(n)), target);
  }

  /** A code of this kind: its generator multiples, the state it starts from, and the constants of its two encodings. */
  datatype Code = Code(g: Generators, start: State, bech32: State, bech32m: State)

  /** What the proofs need of a code. */
  predicate CodeOk(k: Code) { Independent(k.g) && k.bech32 != k.bech32m }

  const CONSTANTS: seq<nat> := [1, 0x2bc830a3]

  /** The code of the program: it starts from 1, and `EncodingConstant` is 1 or 0x2bc830a3. */
  function TheCode(): Code {
    Code(GeneratorsOf(GENERATORS), Bits(CONSTANTS[0], 30), Bits(CONSTANTS[0], 30), Bits(CONSTANTS[1], 30))
  }

  lemma CodeFrom(generators: seq<nat>, constants: seq<nat>)
    requires |generators| == 5 && SameLow(generators[0], 18) && SameLow(generators[1], 13) && SameLow(generators[2], 26)
    requires SameLow(generators[3], 29) && SameLow(generators[4], 19)
    requires |constants| == 2 && !SameLow(constants[0], constants[1])
    ensures CodeOk(Code(GeneratorsOf(generators), Bits(constants[0], 30), Bits(constants[0], 30),
                        Bits(constants[1], 30)))
  {
    GeneratorsIndependent(generators);
    LowBits(constants[0], 30);
    LowBits(constants[1], 30);
  }

  lemma GeneratorsLow()
    ensures SameLow(GENERATORS[0], 18) && SameLow(GENERATORS[1], 13) && SameLow(GENERATORS[2], 26)
    ensures SameLow(GENERATORS[3], 29) && SameLow(GENERATORS[4], 19)
  {
  }

  lemma ConstantsDiffer()
    ensures !SameLow(CONSTANTS[0], CONSTANTS[1])
  {
  }

  lemma TheCodeOk()
    ensures CodeOk(TheCode())
  {
    GeneratorsLow();
    ConstantsDiffer();
    CodeFrom(GENERATORS, CONSTANTS);
  }

  /** `EncodingConstant`. */
  function EncodingConstant(k: Code, e: Encoding): State
    requires e != Invalid
  {
    if e == BECH32 then k.bech32 else k.bech32m
  }

  /** `PolyMod`. */
  method PolyMod(k: Code, v: seq<Symbol>) returns (c: State)
    ensures c == Run(k.g, k.start, v)
  {
    c := k.start;
    for i := 0 to |v|
      invariant Run(k.g, c, v[i..]) == Run(k.g, k.start, v)
    {
      assert v[i..][1..] == v[i + 1..];
      c := Step(k.g, c, v[i]);
    }
  }

  // ----- Characters -----

  /** `CHARSET`. */
  function CharOf(v: Symbol): char {
    match v
    case 0 => 'q'
    case 1 => 'p'
    case 2 => 'z'
    case 3 => 'r'
    case 4 => 'y'
    case 5 => '9'
    case 6 => 'x'
    case 7 => '8'
    case 8 => 'g'
    case 9 => 'f'
    case 10 => '2'
    case 11 => 't'
    case 12 => 'v'
    case 13 => 'd'
    case 14 => 'w'
    case 15 => '0'
    case 16 => 's'
    case 17 => '3'
    case 18 => 'j'
    case 19 => 'n'
    case 20 => '5'
    case 21 => '4'
    case 22 => 'k'
    case 23 => 'h'
    case 24 => 'c'
    case 25 => 'e'
    case 26 => '6'
    case 27 => 'm'
    case 28 => 'u'
    case 29 => 'a'
    case 30 => '7'
    case _ => 'l'
  }

  /** `CHARSET_REV`: both cases of a letter have its value. */
  function Rev(c: char): (v: int)
    ensures -1 <= v < 32
  {
    if c == 'q' || c == 'Q' then 0
    else if c == 'p' || c == 'P' then 1
    else if c == 'z' || c == 'Z' then 2
    else if c == 'r' || c == 'R' then 3
    else if c == 'y' || c == 'Y' then 4
    else if c == '9' then 5
    else if c == 'x' || c == 'X' then 6
    else if c == '8' then 7
    else if c == 'g' || c == 'G' then 8
    else if c == 'f' || c == 'F' then 9
    else if c == '2' then 10
    else if c == 't' || c == 'T' then 11
    else if c == 'v' || c == 'V' then 12
    else if c == 'd' || c == 'D' then 13
    else if c == 'w' || c == 'W' then 14
    else if c == '0' then 15
    else if c == 's' || c == 'S' then 16
    else if c == '3' then 17
    else if c == 'j' || c == 'J' then 18
    else if c == 'n' || c == 'N' then 19
    else if c == '5' then 20
    else if c == '4' then 21
    else if c == 'k' || c == 'K' then 22
    else if c == 'h' || c == 'H' then 23
    else if c == 'c' || c == 'C' then 24
    else if c == 'e' || c == 'E' then 25
    else if c == '6' then 26
    else if c == 'm' || c == 'M' then 27
    else if c == 'u' || c == 'U' then 28
    else if c == 'a' || c == 'A' then 29
    else if c == '7' then 30
    else if c == 'l' || c == 'L' then 31
    else -1
  }

  predicate IsUpper(c: char) { 'A' <= c <= 'Z' }
  predicate IsLower(c: char) { 'a' <= c <= 'z' }
  predicate IsPrintable(c: char) { 33 <= c as int <= 126 }

  lemma CharsetInverse(v: Symbol)
    ensures Rev(CharOf(v)) == v
    ensures IsPrintable(CharOf(v)) && !IsUpper(CharOf(v)) && CharOf(v) != '1'
  {
  }

  // ----- Human-readable parts -----

  function HighBits(c: char): Symbol { c as int / 32 % 32 }
  function LowBitsOf(c: char): Symbol { c as int % 32 }

  function Highs(hrp: string): (v: seq<Symbol>)
    ensures |v| == |hrp| && forall i | 0 <= i < |hrp| :: v[i] == HighBits(hrp[i])
  {
    if hrp == "" then [] else [HighBits(hrp[0])] + Highs(hrp[1..])
  }

  function Lows(hrp: string): (v: seq<Symbol>)
    ensures |v| == |hrp| && forall i | 0 <= i < |hrp| :: v[i] == LowBitsOf(hrp[i])
  {
    if hrp == "" then [] else [LowBitsOf(hrp[0])] + Lows(hrp[1..])
  }

  /** The human-readable part as it enters the checksum. */
  function Expanded(hrp: string): seq<Symbol> { Highs(hrp) + [0] + Lows(hrp) }

  /** `ExpandHRP`. */
  method ExpandHRP(hrp: string) returns (ret: seq<Symbol>)
    ensures ret == Expanded(hrp)
  {
    ret := Zeros(2 * |hrp| + 1);
    for i := 0 to |hrp|
      invariant |ret| == 2 * |hrp| + 1
      invariant forall k | 0 <= k < i :: ret[k] == HighBits(hrp[k])
      invariant forall k | 0 <= k < i :: ret[|hrp| + 1..][k] == LowBitsOf(hrp[k])
    {
      ret := ret[i := HighBits(hrp[i])];
      ret := ret[i + |hrp| + 1 := LowBitsOf(hrp[i])];
    }
    ret := ret[|hrp| := 0];
    assert ret[..|hrp|] == Highs(hrp);
    assert ret[|hrp| + 1..] == Lows(hrp);
  }

  // ----- Creating and verifying -----

  /** The residue of a human-readable part and values. */
  function Residue(k: Code, hrp: string, values: seq<Symbol>): State { Run(k.g, k.start, Expanded(hrp) + values) }

  function Verified(k: Code, hrp: string, values: seq<Symbol>): Encoding {
    if Residue(k, hrp, values) == k.bech32 then BECH32 else if Residue(k, hrp, values) == k.bech32m then BECH32M
      else Invalid
  }

  /** The number of symbols of a checksum. */
  function Size(k: Code): (n: nat)
    ensures n == 6
  {
    |k.start| / 5
  }

  function Checksum(k: Code, e: Encoding, hrp: string, values: seq<Symbol>): (v: seq<Symbol>)
    requires e != Invalid
    ensures |v| == Size(k)
  {
    Symbols(Xor(Residue(k, hrp, values + Zeros(Size(k))), EncodingConstant(k, e)), Size(k))
  }

  /** `VerifyChecksum`. */
  method VerifyChecksum(k: Code, hrp: string, values: seq<Symbol>) returns (e: Encoding)
    ensures e == Verified(k, hrp, values)
  {
    var enc := ExpandHRP(hrp);
    var check := PolyMod(k, enc + values);
    if check == EncodingConstant(k, BECH32) { return BECH32; }
    if check == EncodingConstant(k, BECH32M) { return BECH32M; }
    return Invalid;
  }

  /** `CreateChecksum`. */
  method CreateChecksum(k: Code, e: Encoding, hrp: string, values: seq<Symbol>) returns (ret: seq<Symbol>)
    requires e != Invalid
    ensures ret == Checksum(k, e, hrp, values)
  {
    var enc := ExpandHRP(hrp);
    var c := PolyMod(k, enc + (values + Zeros(Size(k))));
    var mod := Xor(c, EncodingConstant(k, e));
    ret := SymbolsOf(mod, Size(k));
  }

  /** The loop of `CreateChecksum`. */
  method SymbolsOf(mod: State, n: nat) returns (ret: seq<Symbol>)
    requires n <= 6
    ensures ret == Symbols(mod, n)
  {
    ret := [];
    for i := 0 to n
      invariant |ret| == i && ret + Symbols(mod, n - i) == Symbols(mod, n)
    {
      var x := Group(mod, 5 * (n - 1 - i));
      NextSymbol(mod, n - i);
      Regroup(ret, [x], Symbols(mod, n - i - 1));
      ret := ret + [x];
    }
  }

  lemma NextSymbol(c: State, n: nat)
    requires 0 < n <= 6
    ensures Symbols(c, n) == [Group(c, 5 * (n - 1))] + Symbols(c, n - 1)
  {
  }

  lemma AroundSymbol(prefix: seq<Symbol>, values: seq<Symbol>, i: nat, y: Symbol)
    requires i < |values|
    ensures prefix + values == prefix + values[..i] + [values[i]] + values[i + 1..]
    ensures prefix + values[i := y] == prefix + values[..i] + [y] + values[i + 1..]
  {
  }

  /** A created checksum verifies, as the encoding it was created for. */
  lemma ChecksumVerifies(k: Code, e: Encoding, hrp: string, values: seq<Symbol>)
    requires CodeOk(k) && e != Invalid
    ensures Verified(k, hrp, values + Checksum(k, e, hrp, values)) == e
  {
    ChecksumFor(k, Expanded(hrp), values, EncodingConstant(k, e));
  }

  lemma ChecksumFor(k: Code, prefix: seq<Symbol>, values: seq<Symbol>, target: State)
    ensures var r := Symbols(Xor(Run(k.g, k.start, prefix + (values + Zeros(Size(k)))), target), Size(k));
            Run(k.g, k.start, prefix + (values + r)) == target
  {
    var n := Size(k);
    Regroup(prefix, values, Zeros(n));
    ChecksumHits(k.g, k.start, prefix + values, target, n);
    Regroup(prefix, values, Symbols(Xor(Run(k.g, k.start, prefix + values + Zeros(n)), target), n));
  }

  lemma OneErrorIn(k: Code, prefix: seq<Symbol>, values: seq<Symbol>, i: nat, y: Symbol)
    requires CodeOk(k) && i < |values| && values[i] != y
    ensures Run(k.g, k.start, prefix + values[i := y]) != Run(k.g, k.start, prefix + values)
  {
    OneSymbol(k.g, k.start, prefix + values[..i], values[i], y, values[i + 1..]);
    AroundSymbol(prefix, values, i, y);
  }

  /** Changing one symbol of valid values always makes them invalid for their encoding. */
  lemma OneErrorDetected(k: Code, hrp: string, values: seq<Symbol>, i: nat, y: Symbol)
    requires CodeOk(k) && i < |values| && values[i] != y && Verified(k, hrp, values) != Invalid
    ensures Residue(k, hrp, values[i := y]) != Residue(k, hrp, values)
    ensures Verified(k, hrp, values[i := y]) != Verified(k, hrp, values)
  {
    OneErrorIn(k, Expanded(hrp), values, i, y);
  }

  // ----- Strings -----

  function Chars(v: seq<Symbol>): (str: string)
    ensures |str| == |v|
  {
    if v == [] then "" else [CharOf(v[0])] + Chars(v[1..])
  }

  predicate AllKnown(str: string) { forall i | 0 <= i < |str| :: Rev(str[i]) >= 0 }

  function Values(str: string): (v: seq<Symbol>)
    requires AllKnown(str)
    ensures |v| == |str|
  {
    if str == "" then [] else [Rev(str[0])] + Values(str[1..])
  }

  function LowerCase(c: char): char { if IsUpper(c) then (c as int - 'A' as int + 'a' as int) as char else c }

  function Lowered(str: string): (r: string)
    ensures |r| == |str|
  {
    if str == "" then "" else [LowerCase(str[0])] + Lowered(str[1..])
  }

  predicate Printable(str: string) { forall i | 0 <= i < |str| :: IsPrintable(str[i]) }
  predicate HasLower(str: string) { exists i :: 0 <= i < |str| && IsLower(str[i]) }
  predicate HasUpper(str: string) { exists i :: 0 <= i < |str| && IsUpper(str[i]) }

  /** The position of the last '1', -1 if there is none. */
  function LastOne(str: string): (p: int)
    ensures -1 <= p < |str| && (p >= 0 ==> str[p] == '1') && forall i | p < i < |str| :: str[i] != '1'
  {
    if str == "" then -1 else if str[|str| - 1] == '1' then |str| - 1 else LastOne(str[..|str| - 1])
  }

  /** What `Encode` gives. */
  function Encoded(k: Code, e: Encoding, hrp: string, values: seq<Symbol>): string
    requires e != Invalid
  {
    hrp + "1" + Chars(values + Checksum(k, e, hrp, values))
  }

  /** `Encode`; the program asserts that there are no capitals. */
  method Encode(k: Code, e: Encoding, hrp: string, values: seq<Symbol>) returns (ret: string)
    requires e != Invalid && !HasUpper(hrp)
    ensures ret == Encoded(k, e, hrp, values)
  {
    var checksum := CreateChecksum(k, e, hrp, values);
    var combined := values + checksum;
    ret := hrp + "1";
    for i := 0 to |combined|
      invariant ret + Chars(combined[i..]) == hrp + "1" + Chars(combined)
    {
      assert combined[i..][1..] == combined[i + 1..];
      Regroup(ret, [CharOf(combined[i])], Chars(combined[i + 1..]));
      ret := ret + [CharOf(combined[i])];
    }
    assert ret + Chars([]) == ret;
  }

  datatype DecodeResult = Failed | Result(encoding: Encoding, hrp: string, data: seq<Symbol>)

  /** What `Decode` gives for a string that splits at `pos`. */
  function DecodedAt(k: Code, str: string, pos: nat): DecodeResult
    requires pos + 7 <= |str|
  {
    var tail := str[pos + 1..];
    if !AllKnown(tail) then Failed
    else
      var values, hrp := Values(tail), Lowered(str[..pos]);
      if Verified(k, hrp, values) == Invalid then Failed
        else Result(Verified(k, hrp, values), hrp, values[..|values| - 6])
  }

  function Decoded(k: Code, str: string, extLength: bool): DecodeResult {
    if !Printable(str) || (HasLower(str) && HasUpper(str)) then Failed
    else
      var pos := LastOne(str);
      if (|str| > 90 && !extLength) || pos <= 0 || pos + 7 > |str| then Failed else DecodedAt(k, str, pos)
  }

  /** The first loop of `Decode`. */
  method CheckCase(str: string) returns (ok: bool)
    ensures ok <==> Printable(str) && !(HasLower(str) && HasUpper(str))
  {
    var lower, upper := false, false;
    for i := 0 to |str|
      invariant forall j | 0 <= j < i :: IsPrintable(str[j])
      invariant lower <==> exists j :: 0 <= j < i && IsLower(str[j])
      invariant upper <==> exists j :: 0 <= j < i && IsUpper(str[j])
    {
      var c := str[i];
      if IsLower(c) {
        lower := true;
      } else if IsUpper(c) {
        upper := true;
      } else if !IsPrintable(c) {
        return false;
      }
    }
    ok := !(lower && upper);
  }

  method RFindOne(str: string) returns (p: int)
    ensures p == LastOne(str)
  {
    p := |str| - 1;
    while p >= 0 && str[p] != '1'
      invariant -1 <= p < |str| && LastOne(str[..p + 1]) == LastOne(str)
    {
      assert str[..p + 1][..p] == str[..p];
      p := p - 1;
    }
  }

  lemma KnownFrom(str: string, i: nat)
    requires i < |str|
    ensures AllKnown(str[i..]) <==> Rev(str[i]) >= 0 && AllKnown(str[i + 1..])
    ensures AllKnown(str[i..]) ==> Values(str[i..]) == [Rev(str[i])] + Values(str[i + 1..])
  {
    var t, u := str[i..], str[i + 1..];
    assert t[1..] == u && t[0] == str[i];
    if AllKnown(t) {
      forall j | 0 <= j < |u| ensures Rev(u[j]) >= 0 { assert u[j] == t[j + 1]; }
    }
    if Rev(t[0]) >= 0 && AllKnown(u) {
      forall j | 0 <= j < |t| ensures Rev(t[j]) >= 0 { assert j > 0 ==> t[j] == u[j - 1]; }
    }
  }

  /** The values of the data part, if all its characters have one. */
  method ReadValues(str: string) returns (ok: bool, values: seq<Symbol>)
    ensures ok <==> AllKnown(str)
    ensures ok ==> values == Values(str)
  {
    values := [];
    assert str[0..] == str;
    for i := 0 to |str|
      invariant AllKnown(str) <==> AllKnown(str[i..])
      invariant AllKnown(str) ==> values + Values(str[i..]) == Values(str)
    {
      var rev := Rev(str[i]);
      KnownFrom(str, i);
      if rev == -1 { return false, []; }
      if AllKnown(str) { Regroup(values, [rev], Values(str[i + 1..])); }
      values := values + [rev];
    }
    ok := true;
  }

  method ToLower(str: string) returns (hrp: string)
    ensures hrp == Lowered(str)
  {
    hrp := "";
    assert str[0..] == str;
    for i := 0 to |str|
      invariant hrp + Lowered(str[i..]) == Lowered(str)
    {
      assert str[i..][1..] == str[i + 1..];
      Regroup(hrp, [LowerCase(str[i])], Lowered(str[i + 1..]));
      hrp := hrp + [LowerCase(str[i])];
    }
  }

  /** The second half of `Decode`, once the place of the separator is known. */
  method DecodeAt(k: Code, str: string, pos: nat) returns (r: DecodeResult)
    requires pos + 7 <= |str|
    ensures r == DecodedAt(k, str, pos)
  {
    var ok, values := ReadValues(str[pos + 1..]);
    if !ok { return Failed; }
    var hrp := ToLower(str[..pos]);
    var result := VerifyChecksum(k, hrp, values);
    if result == Invalid { return Failed; }
    return Result(result, hrp, values[..|values| - 6]);
  }

  /** `Decode`. */
  method Decode(k: Code, str: string, extLength: bool) returns (r: DecodeResult)
    ensures r == Decoded(k, str, extLength)
  {
    var ok := CheckCase(str);
    if !ok { return Failed; }
    var pos := RFindOne(str);
    if (|str| > 90 && !extLength) || pos == -1 || pos == 0 || pos + 7 > |str| { return Failed; }
    r := DecodeAt(k, str, pos);
  }

  // ----- Decoding inverts encoding -----

  lemma {:induction false} ValuesOfChars(v: seq<Symbol>)
    ensures AllKnown(Chars(v)) && Values(Chars(v)) == v
    ensures Printable(Chars(v)) && !HasUpper(Chars(v)) && forall i | 0 <= i < |v| :: Chars(v)[i] != '1'
  {
    if v != [] {
      ValuesOfChars(v[1..]);
      CharsetInverse(v[0]);
      assert Chars(v)[1..] == Chars(v[1..]);
      forall i | 1 <= i < |v| ensures Chars(v)[i] == Chars(v[1..])[i - 1] {}
    }
  }

  lemma {:induction false} LoweredSame(str: string)
    requires !HasUpper(str)
    ensures Lowered(str) == str
  {
    if str != "" {
      assert !IsUpper(str[0]);
      forall i | 0 <= i < |str[1..]| ensures !IsUpper(str[1..][i]) { assert str[1..][i] == str[i + 1]; }
      LoweredSame(str[1..]);
    }
  }

  lemma LastOneIs(str: string, p: nat)
    requires p < |str| && str[p] == '1' && forall i | p < i < |str| :: str[i] != '1'
    ensures LastOne(str) == p
  {
  }

  /** The string of an encoding is in one case, printable, and splits after the human-readable part. */
  lemma EncodedShape(hrp: string, v: seq<Symbol>)
    requires Printable(hrp) && !HasUpper(hrp)
    ensures var str := hrp + "1" + Chars(v); Printable(str) && !HasUpper(str) && LastOne(str) == |hrp|
  {
    var str := hrp + "1" + Chars(v);
    ValuesOfChars(v);
    var n := |hrp|;
    forall i | 0 <= i < |str| ensures IsPrintable(str[i]) && !IsUpper(str[i]) {
      if i > n { assert str[i] == Chars(v)[i - n - 1]; }
    }
    forall i | n < i < |str| ensures str[i] != '1' { assert str[i] == Chars(v)[i - n - 1]; }
    LastOneIs(str, n);
  }

  lemma DecodedAtShape(k: Code, hrp: string, v: seq<Symbol>)
    requires !HasUpper(hrp) && |v| >= 6
    ensures var str := hrp + "1" + Chars(v);
            DecodedAt(k, str, |hrp|) ==
              if Verified(k, hrp, v) == Invalid then Failed else Result(Verified(k, hrp, v), hrp, v[..|v| - 6])
  {
    var str := hrp + "1" + Chars(v);
    assert str[|hrp| + 1..] == Chars(v) && str[..|hrp|] == hrp;
    ValuesOfChars(v);
    LoweredSame(hrp);
  }

  /** Decoding an encoding gives its parts back. */
  lemma EncodeThenDecode(k: Code, e: Encoding, hrp: string, values: seq<Symbol>, extLength: bool)
    requires CodeOk(k) && e != Invalid && hrp != "" && Printable(hrp) && !HasUpper(hrp)
    requires extLength || |hrp| + 1 + |values| + 6 <= 90
    ensures Decoded(k, Encoded(k, e, hrp, values), extLength) == Result(e, hrp, values)
  {
    var v := values + Checksum(k, e, hrp, values);
    EncodedShape(hrp, v);
    DecodedAtShape(k, hrp, v);
    ChecksumVerifies(k, e, hrp, values);
    assert v[..|v| - 6] == values;
  }

  /** A string that differs in one place of the data part splits in the same place. */
  lemma SameSplit(str: string, p: nat, c: char)
    requires 0 <= LastOne(str) < p < |str| && c != '1'
    ensures LastOne(str[p := c]) == LastOne(str)
  {
    LastOneIs(str[p := c], LastOne(str));
  }

  lemma {:induction false} ValuesUpdate(str: string, i: nat, c: char)
    requires i < |str| && AllKnown(str) && AllKnown(str[i := c])
    ensures Rev(c) >= 0 && Values(str)[i] == Rev(str[i]) && Values(str[i := c]) == Values(str)[i := Rev(c)]
  {
    var t := str[i := c];
    assert t[i] == c;
    if i == 0 {
      assert t[1..] == str[1..];
    } else {
      assert t[1..] == str[1..][i - 1 := c];
      assert forall j | 0 <= j < |str[1..]| :: str[1..][j] == str[j + 1] && t[1..][j] == t[j + 1];
      ValuesUpdate(str[1..], i - 1, c);
    }
  }

  /** What a string that decodes is made of, and what decoding it says. */
  lemma DecodedIs(k: Code, str: string, extLength: bool)
    requires Decoded(k, str, extLength) != Failed
    ensures var pos := LastOne(str);
      && 0 < pos && pos + 7 <= |str| && AllKnown(str[pos + 1..])
      && Decoded(k, str, extLength).encoding == Verified(k, Lowered(str[..pos]), Values(str[pos + 1..])) != Invalid
  {
  }

  lemma TailUpdate(str: string, pos: nat, p: nat, c: char)
    requires pos < p < |str| && AllKnown(str[pos + 1..]) && AllKnown(str[p := c][pos + 1..])
    ensures str[p := c][..pos] == str[..pos] && Rev(c) >= 0
    ensures Values(str[pos + 1..])[p - pos - 1] == Rev(str[p])
    ensures Values(str[p := c][pos + 1..]) == Values(str[pos + 1..])[p - pos - 1 := Rev(c)]
  {
    assert str[p := c][pos + 1..] == str[pos + 1..][p - pos - 1 := c];
    ValuesUpdate(str[pos + 1..], p - pos - 1, c);
  }

  /** The parts that decoding sees of a string. */
  ghost predicate Parts(k: Code, str: string, extLength: bool, hrp: string, v: seq<Symbol>) {
    var r := Decoded(k, str, extLength);
    |hrp| + 1 + |v| == |str| && r.Result? && r.encoding == Verified(k, hrp, v) != Invalid
  }

  lemma PartsOf(k: Code, str: string, extLength: bool, pos: nat)
    requires Decoded(k, str, extLength) != Failed && pos == LastOne(str)
    ensures pos < |str| && AllKnown(str[pos + 1..])
    ensures Parts(k, str, extLength, Lowered(str[..pos]), Values(str[pos + 1..]))
  {
    DecodedIs(k, str, extLength);
  }

  /** What decoding says of the two strings, in terms of the values of the first. */
  lemma BothVerified(k: Code, str: string, t: string, extLength: bool, p: nat, c: char)
    returns (hrp: string, v: seq<Symbol>, i: nat, y: Symbol)
    requires LastOne(str) < p < |str| && c != '1' && Rev(c) != Rev(str[p]) && t == str[p := c]
    requires Decoded(k, str, extLength) != Failed && Decoded(k, t, extLength) != Failed
    ensures i < |v| && v[i] != y
    ensures Parts(k, str, extLength, hrp, v) && Parts(k, t, extLength, hrp, v[i := y])
  {
    DecodedIs(k, str, extLength);
    var pos := LastOne(str);
    SameSplit(str, p, c);
    PartsOf(k, str, extLength, pos);
    PartsOf(k, t, extLength, pos);
    TailUpdate(str, pos, p, c);
    hrp, v, i, y := Lowered(str[..pos]), Values(str[pos + 1..]), p - pos - 1, Rev(c);
  }

  /**
   Another character at one place of the data part of a string that decodes: whatever character it is, unless it is
   the separator, the string no longer decodes as the same encoding.
   */
  lemma OneErrorInString(k: Code, str: string, extLength: bool, p: nat, c: char)
    requires CodeOk(k) && Decoded(k, str, extLength) != Failed
    requires LastOne(str) < p < |str| && c != '1' && Rev(c) != Rev(str[p])
    ensures var r := Decoded(k, str[p := c], extLength);
            r == Failed || r.encoding != Decoded(k, str, extLength).encoding
  {
    if Decoded(k, str[p := c], extLength) != Failed {
      var hrp, v, i, y := BothVerified(k, str, str[p := c], extLength, p, c);
      OneErrorDetected(k, hrp, v, i, y);
    }
  }
}
