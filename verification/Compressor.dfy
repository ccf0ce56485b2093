/**
 Amount compression (`src/compressor.cpp`): a bijection of the natural numbers, and in 64-bit arithmetic
 exactly as far as the compressed amount fits.
 */
module Compressor {

  const TWO64 := 0x1_0000_0000_0000_0000
  /** `src/amount.h`. */
  const MAX_MONEY := 3844000000000000000

  // ----- On natural numbers -----

  /** Up to nine factors of ten are taken out; what is left, and how many they were. */
  function Split(n: nat, e: nat): (nat, nat)
    requires n > 0
  {
    if n % 10 == 0 && e < 9 then Split(n / 10, e + 1) else (n, e)
  }

  function Scale(m: nat, e: nat): nat { if e == 0 then m else 10 * Scale(m, e - 1) }

  /** What is left and the number of factors in one number; the last digit of what is left is not zero. */
  function Pack(m: nat, e: nat): nat
    requires m > 0 && (e < 9 ==> m % 10 != 0)
  {
    if e < 9 then 1 + (m / 10 * 9 + m % 10 - 1) * 10 + e else 1 + (m - 1) * 10 + 9
  }

  function Compress(n: nat): nat {
    if n == 0 then 0
    else
      SplitScales(n, 0);
      var (m, e) := Split(n, 0);
      Pack(m, e)
  }

  /** The parts of a compressed amount. */
  function Unpack(x: nat): (nat, nat)
    requires x > 0
  {
    var e, z := (x - 1) % 10, (x - 1) / 10;
    if e < 9 then (z / 9 * 10 + z % 9 + 1, e) else (z + 1, e)
  }

  function Decompress(x: nat): nat { if x == 0 then 0 else Scale(Unpack(x).0, Unpack(x).1) }

  lemma TenAnd(z: nat, e: nat)
    requires e <= 9
    ensures (z * 10 + e) / 10 == z && (z * 10 + e) % 10 == e
  {
  }

  lemma UnpackPack(m: nat, e: nat)
    requires m > 0 && e <= 9 && (e < 9 ==> m % 10 != 0)
    ensures Pack(m, e) > 0 && Unpack(Pack(m, e)) == (m, e)
  {
    if e < 9 {
      var z := m / 10 * 9 + m % 10 - 1;
      assert z / 9 == m / 10 && z % 9 == m % 10 - 1;
      TenAnd(z, e);
    } else {
      TenAnd(m - 1, e);
    }
  }

  lemma PackUnpack(x: nat)
    requires x > 0
    ensures var (m, e) := Unpack(x); m > 0 && e <= 9 && (e < 9 ==> m % 10 != 0) && Pack(m, e) == x
  {
    var e, z := (x - 1) % 10, (x - 1) / 10;
    if e < 9 {
      var m := z / 9 * 10 + z % 9 + 1;
      assert m % 10 == z % 9 + 1 && m / 10 == z / 9;
    }
  }

  lemma {:induction false} SplitScales(n: nat, e: nat)
    requires n > 0 && e <= 9
    ensures var (m, k) := Split(n, e); e <= k <= 9 && m > 0 && Scale(m, k - e) == n && (k == 9 || m % 10 != 0)
    decreases 9 - e
  {
    if n % 10 == 0 && e < 9 { SplitScales(n / 10, e + 1); }
  }

  lemma Tenfold(n: nat)
    ensures (10 * n) % 10 == 0 && 10 * n / 10 == n
  {
  }

  lemma {:induction false} ScaleSplits(m: nat, k: nat, e: nat)
    requires m > 0 && e + k <= 9 && (e + k == 9 || m % 10 != 0)
    ensures Scale(m, k) > 0 && Split(Scale(m, k), e) == (m, e + k)
    decreases k
  {
    if k > 0 {
      ScaleSplits(m, k - 1, e + 1);
      Tenfold(Scale(m, k - 1));
    }
  }

  /** Decompression undoes compression. */
  lemma DecompressCompress(n: nat)
    ensures Decompress(Compress(n)) == n
  {
    if n > 0 {
      SplitScales(n, 0);
      var (m, e) := Split(n, 0);
      UnpackPack(m, e);
    }
  }

  /** Compression undoes decompression, so every number is the compression of some amount. */
  lemma CompressDecompress(x: nat)
    ensures Compress(Decompress(x)) == x
  {
    if x > 0 {
      PackUnpack(x);
      var (m, e) := Unpack(x);
      ScaleSplits(m, e, 0);
    }
  }

  // ----- In 64-bit arithmetic -----

  function Wrap(n: int): (r: nat)
    ensures r < TWO64
  {
    n % TWO64
  }

  /** `CompressAmount`. */
  method CompressAmount(amount: nat) returns (x: nat)
    requires amount < TWO64
    ensures x == Wrap(Compress(amount))
  {
    if amount == 0 { return 0; }
    var n, e := amount, 0;
    SplitScales(amount, 0);
    while n % 10 == 0 && e < 9
      invariant 0 < n < TWO64 && e <= 9 && Split(n, e) == Split(amount, 0)
      decreases 9 - e
    {
      n := n / 10;
      e := e + 1;
    }
    x := PackWrapped(n, e);
  }

  /** The last steps of `CompressAmount`. */
  method PackWrapped(m: nat, e: nat) returns (x: nat)
    requires m > 0 && (e < 9 ==> m % 10 != 0)
    ensures x == Wrap(Pack(m, e))
  {
    hide Wrap;
    if e < 9 {
      var d := m % 10;
      assert 1 <= d <= 9;
      var n := m / 10;
      x := Wrap(1 + Wrap(Wrap(Wrap(n * 9) + d - 1) * 10) + e);
      WrapLinear(n, d, e);
    } else {
      x := Wrap(1 + Wrap((m - 1) * 10) + 9);
      WrapInside((m - 1) * 10, 10);
    }
  }

  lemma WrapLinear(n: nat, d: nat, e: nat)
    requires 1 <= d
    ensures Wrap(1 + Wrap(Wrap(Wrap(n * 9) + d - 1) * 10) + e) == Wrap(1 + (n * 9 + d - 1) * 10 + e)
  {
    var a := Wrap(n * 9);
    var i := n * 9 / TWO64;
    assert n * 9 == a + i * TWO64;
    var b := Wrap(a + d - 1);
    var j := (a + d - 1) / TWO64;
    assert a + d - 1 == b + j * TWO64;
    var c := Wrap(b * 10);
    var k := b * 10 / TWO64;
    assert b * 10 == c + k * TWO64;
    WrapShift(1 + c + e, 10 * i + 10 * j + k);
  }

  lemma WrapInside(a: nat, b: nat)
    ensures Wrap(Wrap(a) + b) == Wrap(a + b)
  {
    assert a == Wrap(a) + a / TWO64 * TWO64;
    WrapShift(Wrap(a) + b, a / TWO64);
  }

  lemma WrapShift(a: int, k: int)
    ensures Wrap(a + k * TWO64) == Wrap(a)
  {
  }

  /** `DecompressAmount`. */
  method DecompressAmount(compressed: nat) returns (n: nat)
    requires compressed < TWO64
    ensures n == Wrap(Decompress(compressed))
  {
    if compressed == 0 { return 0; }
    var x := compressed - 1;
    var e := x % 10;
    x := x / 10;
    if e < 9 {
      var d := x % 9 + 1;
      x := x / 9;
      NoWrap(x * 10 + d);
      NoWrap(x * 10);
      n := Wrap(Wrap(x * 10) + d);
    } else {
      n := x + 1;
    }
    assert (n, e) == Unpack(compressed);
    n := ScaleUp(n, e);
  }

  lemma NoWrap(n: nat)
    ensures n < TWO64 ==> Wrap(n) == n
  {
  }

  /** The loop of `DecompressAmount`. */
  method ScaleUp(m: nat, k: nat) returns (n: nat)
    requires m < TWO64
    ensures n == Wrap(Scale(m, k))
  {
    n := m;
    var e := k;
    while e != 0
      invariant 0 <= e <= k && n == Wrap(Scale(m, k - e))
      decreases e
    {
      WrapTenfold(Scale(m, k - e));
      n := Wrap(n * 10);
      e := e - 1;
    }
  }

  lemma WrapTenfold(s: nat)
    ensures Wrap(Wrap(s) * 10) == Wrap(10 * s)
  {
    WrapShift(10 * Wrap(s), 10 * (s / TWO64));
  }

  /** The round trip in 64-bit arithmetic. */
  function RoundTrip(n: nat): nat { Wrap(Decompress(Wrap(Compress(n)))) }

  /** As long as the compressed amount fits, nothing is lost. */
  lemma FittingRoundTrip(n: nat)
    requires n < TWO64 && Compress(n) < TWO64
    ensures RoundTrip(n) == n
  {
    DecompressCompress(n);
    NoWrap(Compress(n));
    NoWrap(n);
  }

  lemma {:induction false} ScaleGrows(m: nat, e: nat)
    ensures Scale(m, e) >= m
  {
    if e > 0 { ScaleGrows(m, e - 1); }
  }

  /** Which valid amounts have a compression that fits. */
  lemma FitsExactly(n: nat)
    requires n <= MAX_MONEY
    ensures Compress(n) < TWO64 <==> n % 10 == 0 || 9 * n + n % 10 - 9 < TWO64
  {
    if n > 0 && n % 10 == 0 {
      SplitScales(n, 0);
      var (m, e) := Split(n, 0);
      ScaleGrows(m, e - 1);
    }
  }

  /** What is read back from an amount that does not fit: about ten thousand times what it exceeds the limit by. */
  lemma ReadBack(n: nat) returns (w: nat, c: nat)
    requires n <= MAX_MONEY && n % 10 != 0 && 9 * n + n % 10 - 9 >= TWO64
    ensures Decompress(Wrap(Compress(n))) == 10000 * w && n == w + c
            && (c == 2049638230412172402 || c == 2049638230412172403)
  {
    var d, m := n % 10, n / 10;
    var z := 9 * m + d - 1 - 1844674407370955162;
    w := z / 9 * 10 + z % 9 + 1;
    c := n - w;
    hide Compress, Unpack, Scale, Wrap;
    NotScaled(n);
    NoWrap(10 * z + 5);
    WrapShift(10 * z + 5, 1);
    UnpackFour(z);
    ScaleFour(w);
    ExcessOf(m, d, z);
  }

  lemma NotScaled(n: nat)
    requires n % 10 != 0
    ensures Compress(n) == 1 + (n / 10 * 9 + n % 10 - 1) * 10
  {
  }

  lemma UnpackFour(z: nat)
    ensures Unpack(10 * z + 5) == (z / 9 * 10 + z % 9 + 1, 4)
  {
    assert (10 * z + 4) / 10 == z && (10 * z + 4) % 10 == 4;
  }

  lemma ScaleFour(w: nat)
    ensures Scale(w, 4) == 10000 * w
  {
    assert Scale(w, 1) == 10 * w && Scale(w, 2) == 100 * w && Scale(w, 3) == 1000 * w;
  }

  lemma ExcessOf(m: nat, d: nat, z: nat)
    requires 1 <= d <= 9 && z == 9 * m + d - 1 - 1844674407370955162
    ensures var c := 10 * m + d - (z / 9 * 10 + z % 9 + 1); c == 2049638230412172402 || c == 2049638230412172403
  {
    if d >= 3 {
      assert z == 9 * (m - 204963823041217240) + (d - 3);
    } else {
      assert z == 9 * (m - 204963823041217241) + (d + 6);
    }
  }

  /** The inverse of 9999 modulo 2 to the 64 gives the one solution. */
  lemma OnlySolution(w: nat, c: nat, j: nat, solution: nat, q: nat)
    requires 9999 * w == c + j * TWO64 && w < TWO64 && solution < TWO64
    requires 13458245626333751279 * c == solution + q * TWO64
    ensures w == solution
  {
    assert 9999 * 13458245626333751279 == 1 + 7295 * TWO64;
    assert w - solution == (13458245626333751279 * j + q - 7295 * w) * TWO64;
  }

  /** Ten thousand times that excess is never the amount again, even modulo 2 to the 64. */
  lemma NoCoincidence(n: nat, w: nat, c: nat, j: nat)
    requires n <= MAX_MONEY && n == w + c && (c == 2049638230412172402 || c == 2049638230412172403)
    ensures 10000 * w != n + j * TWO64
  {
    if 10000 * w == n + j * TWO64 {
      if c == 2049638230412172402 {
        OnlySolution(w, c, j, 13238912402357251182, 1495360625148194586);
      } else {
        OnlySolution(w, c, j, 8250413954981450845, 1495360625148194587);
      }
    }
  }

  /** For valid amounts the 64-bit round trip works exactly if the compressed amount fits. */
  lemma RoundTripExact(n: nat)
    requires n <= MAX_MONEY
    ensures RoundTrip(n) == n <==> n % 10 == 0 || 9 * n + n % 10 - 9 < TWO64
  {
    FitsExactly(n);
    if Compress(n) < TWO64 {
      FittingRoundTrip(n);
    } else {
      var w, c := ReadBack(n);
      NoCoincidence(n, w, c, 10000 * w / TWO64);
    }
  }

  const FIRST_LOSS := 2049638230412172403

  /** The first amount that is lost: every smaller one returns. */
  lemma FirstLoss(n: nat)
    requires n <= FIRST_LOSS
    ensures FIRST_LOSS <= MAX_MONEY && (RoundTrip(n) == n <==> n < FIRST_LOSS)
  {
    RoundTripExact(n);
  }
}
