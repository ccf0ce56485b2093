/** Numbers as 32-bit limbs, least significant first: what the limb loops of `src/arith_uint256.*` compute. */
module Limbs {
  import opened Basics

  const BASE := 0x1_0000_0000

  predicate Limbed(s: seq<nat>) { forall i | 0 <= i < |s| :: s[i] < BASE }

  function Value(s: seq<nat>): nat { if s == [] then 0 else s[0] + BASE * Value(s[1..]) }

  /** The number of values of `n` limbs. */
  function Modulus(n: nat): (m: nat)
    ensures m > 0
  {
    if n == 0 then 1 else BASE * Modulus(n - 1)
  }

  lemma {:induction false} ValueInRange(s: seq<nat>)
    requires Limbed(s)
    ensures Value(s) < Modulus(|s|)
  {
    if s != [] { ValueInRange(s[1..]); }
  }

  // ----- Remainders -----

  lemma DivMod(x: int, m: nat)
    requires m > 0
    ensures x == x / m * m + x % m && 0 <= x % m < m
  {
  }

  lemma RemainderIs(x: int, m: nat, q: int, r: nat)
    requires m > 0 && x == q * m + r && r < m
    ensures x % m == r && x / m == q
  {
    DivMod(x, m);
    var d := x / m - q;
    assert d * m == r - x % m;
    AtLeastOnce(d, m);
  }

  lemma AtLeastOnce(d: int, m: int)
    requires m > 0
    ensures (d > 0 ==> d * m >= m) && (d < 0 ==> d * m <= -m)
  {
  }

  /** A digit in front of a remainder. */
  lemma DigitMod(r: nat, y: nat, base: nat, m: nat)
    requires r < base && m > 0
    ensures (r + base * y) % (base * m) == r + base * (y % m)
  {
    DivMod(y, m);
    var q, t := y / m, y % m;
    assert base * y == q * (base * m) + base * t;
    assert r + base * t < base * m by { assert base * (t + 1) <= base * m; }
    RemainderIs(r + base * y, base * m, q, r + base * t);
  }

  lemma AddMultiple(x: int, k: int, m: nat)
    requires m > 0
    ensures (x + k * m) % m == x % m
  {
    DivMod(x, m);
    assert x + k * m == (x / m + k) * m + x % m;
    RemainderIs(x + k * m, m, x / m + k, x % m);
  }

  lemma SumRemainder(x: int, y: int, m: nat)
    requires m > 0
    ensures (x + y % m) % m == (x + y) % m
  {
    DivMod(y, m);
    AddMultiple(x + y % m, y / m, m);
  }

  // ----- Sums -----

  /** The loop of `+=` from a limb on, with a carry. */
  function Sum(a: seq<nat>, b: seq<nat>, carry: nat): (r: seq<nat>)
    requires |a| == |b|
    ensures |r| == |a| && Limbed(r)
  {
    if a == [] then [] else
      var n := carry + a[0] + b[0];
      [n % BASE] + Sum(a[1..], b[1..], n / BASE)
  }

  /** Limb addition adds modulo the range. */
  lemma {:induction false} SumValue(a: seq<nat>, b: seq<nat>, carry: nat)
    requires |a| == |b|
    ensures Value(Sum(a, b, carry)) == (Value(a) + Value(b) + carry) % Modulus(|a|)
  {
    if a != [] {
      var n := carry + a[0] + b[0];
      SumValue(a[1..], b[1..], n / BASE);
      DigitMod(n % BASE, Value(a[1..]) + Value(b[1..]) + n / BASE, BASE, Modulus(|a| - 1));
    }
  }

  // ----- Complement, increment, decrement -----

  function Complement(a: seq<nat>): (r: seq<nat>)
    requires Limbed(a)
    ensures |r| == |a| && Limbed(r)
  {
    if a == [] then [] else [BASE - 1 - a[0]] + Complement(a[1..])
  }

  lemma {:induction false} ComplementValue(a: seq<nat>)
    requires Limbed(a)
    ensures Value(Complement(a)) == Modulus(|a|) - 1 - Value(a)
  {
    if a != [] { ComplementValue(a[1..]); }
  }

  /** The loop of `++`: it stops at the first limb that does not wrap. */
  function Increment(a: seq<nat>): (r: seq<nat>)
    requires Limbed(a)
    ensures |r| == |a| && Limbed(r)
  {
    if a == [] then [] else if a[0] + 1 == BASE then [0] + Increment(a[1..]) else [a[0] + 1] + a[1..]
  }

  lemma {:induction false} IncrementValue(a: seq<nat>)
    requires Limbed(a)
    ensures Value(Increment(a)) == (Value(a) + 1) % Modulus(|a|)
  {
    if a != [] {
      ValueInRange(a[1..]);
      if a[0] + 1 == BASE {
        IncrementValue(a[1..]);
        DigitMod(0, Value(a[1..]) + 1, BASE, Modulus(|a| - 1));
      } else {
        RemainderIs(Value(a) + 1, Modulus(|a|), 0, Value(a) + 1);
      }
    }
  }

  /** The loop of `--`. */
  function Decrement(a: seq<nat>): (r: seq<nat>)
    requires Limbed(a)
    ensures |r| == |a| && Limbed(r)
  {
    if a == [] then [] else if a[0] == 0 then [BASE - 1] + Decrement(a[1..]) else [a[0] - 1] + a[1..]
  }

  lemma {:induction false} DecrementValue(a: seq<nat>)
    requires Limbed(a)
    ensures Value(Decrement(a)) == (Value(a) - 1) % Modulus(|a|)
  {
    if a != [] {
      ValueInRange(a[1..]);
      var m := Modulus(|a| - 1);
      if a[0] == 0 {
        DecrementValue(a[1..]);
        if Value(a[1..]) == 0 {
          RemainderIs(-1, m, -1, m - 1);
          RemainderIs(-1, BASE * m, -1, BASE * m - 1);
        } else {
          RemainderIs(Value(a[1..]) - 1, m, 0, Value(a[1..]) - 1);
          RemainderIs(Value(a) - 1, BASE * m, 0, Value(a) - 1);
        }
      } else {
        RemainderIs(Value(a) - 1, BASE * m, 0, Value(a) - 1);
      }
    }
  }

  // ----- Products -----

  /** The loop of `*=` with a single limb. */
  function Scaled(a: seq<nat>, x: nat, carry: nat): (r: seq<nat>)
    ensures |r| == |a| && Limbed(r)
  {
    if a == [] then [] else
      var n := carry + x * a[0];
      [n % BASE] + Scaled(a[1..], x, n / BASE)
  }

  lemma {:induction false} ScaledValue(a: seq<nat>, x: nat, carry: nat)
    ensures Value(Scaled(a, x, carry)) == (x * Value(a) + carry) % Modulus(|a|)
    decreases |a|
  {
    if a != [] {
      var n := carry + x * a[0];
      ScaledValue(a[1..], x, n / BASE);
      Spread(x, a[0], Value(a[1..]));
      RowDigit(n, 0, x * Value(a[1..]), Modulus(|a| - 1));
    }
  }

  lemma Spread(x: nat, d: nat, y: nat)
    ensures x * (d + BASE * y) == x * d + BASE * (x * y)
  {
  }

  lemma RowDigit(n: nat, y: nat, z: nat, m: nat)
    requires m > 0
    ensures n % BASE + BASE * ((y + z + n / BASE) % m) == (n + BASE * y + BASE * z) % (BASE * m)
  {
    DigitMod(n % BASE, y + z + n / BASE, BASE, m);
  }

  /** The inner loop of `*=`: add a multiple of `b` to an accumulator. */
  function Row(acc: seq<nat>, b: seq<nat>, x: nat, carry: nat): (r: seq<nat>)
    requires |acc| == |b|
    ensures |r| == |acc| && Limbed(r)
  {
    if acc == [] then [] else
      var n := carry + acc[0] + x * b[0];
      [n % BASE] + Row(acc[1..], b[1..], x, n / BASE)
  }

  lemma {:induction false} RowValue(acc: seq<nat>, b: seq<nat>, x: nat, carry: nat)
    requires |acc| == |b|
    ensures Value(Row(acc, b, x, carry)) == (Value(acc) + x * Value(b) + carry) % Modulus(|acc|)
    decreases |acc|
  {
    if acc != [] {
      var n := carry + acc[0] + x * b[0];
      RowValue(acc[1..], b[1..], x, n / BASE);
      Spread(x, b[0], Value(b[1..]));
      RowDigit(n, Value(acc[1..]), x * Value(b[1..]), Modulus(|acc| - 1));
    }
  }

  /** The outer loop of `*=`: one row for each limb of `p`, each one limb further up. */
  function Product(p: seq<nat>, b: seq<nat>, acc: seq<nat>): (r: seq<nat>)
    requires |p| == |b| == |acc|
    ensures |r| == |p| && Limbed(r)
  {
    if p == [] then [] else
      var row := Row(acc, b, p[0], 0);
      [row[0]] + Product(p[1..], b[..|b| - 1], row[1..])
  }

  lemma {:induction false} ValueLast(s: seq<nat>)
    requires s != []
    ensures Value(s) == Value(s[..|s| - 1]) + s[|s| - 1] * Modulus(|s| - 1)
  {
    if |s| > 1 {
      var n := |s| - 1;
      ValueLast(s[1..]);
      assert s[1..][..n - 1] == s[..n][1..];
      assert s[n] * (BASE * Modulus(n - 1)) == BASE * (s[n] * Modulus(n - 1));
    }
  }

  /** Limb multiplication multiplies modulo the range. */
  lemma {:induction false} ProductValue(p: seq<nat>, b: seq<nat>, acc: seq<nat>)
    requires |p| == |b| == |acc|
    ensures Value(Product(p, b, acc)) == (Value(acc) + Value(p) * Value(b)) % Modulus(|p|)
    decreases |p|
  {
    if p != [] {
      var n, row := |p| - 1, Row(acc, b, p[0], 0);
      RowValue(acc, b, p[0], 0);
      ProductValue(p[1..], b[..n], row[1..]);
      ValueLast(b);
      ProductStep(row[0], Value(row[1..]), p[0], Value(p[1..]), Value(b[..n]), b[n], Value(acc), Modulus(n));
      ProductHead(p, b, acc);
    }
  }

  lemma ProductHead(p: seq<nat>, b: seq<nat>, acc: seq<nat>)
    requires |p| == |b| == |acc| > 0
    ensures var row := Row(acc, b, p[0], 0);
      Value(Product(p, b, acc)) == row[0] + BASE * Value(Product(p[1..], b[..|b| - 1], row[1..]))
  {
    var row := Row(acc, b, p[0], 0);
    var rest := Product(p[1..], b[..|b| - 1], row[1..]);
    assert ([row[0]] + rest)[1..] == rest;
  }

  lemma ProductStep(r0: nat, r: nat, x: nat, p: nat, lo: nat, top: nat, acc: nat, m: nat)
    requires m > 0 && r0 < BASE && r0 + BASE * r == (acc + x * (lo + top * m)) % (BASE * m)
    ensures r0 + BASE * ((r + p * lo) % m) == (acc + (x + BASE * p) * (lo + top * m)) % (BASE * m)
  {
    var big, b := BASE * m, lo + top * m;
    DigitMod(r0, r + p * lo, BASE, m);
    DivMod(acc + x * b, big);
    var q := (acc + x * b) / big;
    var left := r0 + BASE * (r + p * lo);
    assert BASE * p * b == BASE * (p * lo) + p * top * big by { assert p * (top * m) == p * top * m; }
    assert (x + BASE * p) * b == x * b + BASE * p * b;
    assert acc + (x + BASE * p) * b == left + (q + p * top) * big;
    AddMultiple(left, q + p * top, big);
  }

  // ----- Shifts -----

  lemma {:induction false} Pow2Sum(j: nat, k: nat)
    ensures Pow2(j + k) == Pow2(j) * Pow2(k)
    decreases j
  {
    if j > 0 { Pow2Sum(j - 1, k); }
  }

  /** The width is a parameter so that the verifier does not unroll it. */
  lemma Pow2Width(w: nat)
    requires w == 32
    ensures Pow2(w) == BASE
  {
    assert Pow2(8) == 256;
    Pow2Sum(8, 8);
    Pow2Sum(16, 16);
  }

  lemma Pow2Limb(s: nat)
    requires s <= 32
    ensures Pow2(s) * Pow2(32 - s) == BASE
  {
    var w := 32;
    Pow2Sum(s, w - s);
    Pow2Width(w);
  }

  lemma {:induction false} ModulusIsPow2(n: nat)
    ensures Modulus(n) == Pow2(32 * n)
  {
    if n > 0 {
      var w := 32;
      ModulusIsPow2(n - 1);
      Pow2Width(w);
      Pow2Sum(w, 32 * (n - 1));
    }
  }

  /** Bitwise or. */
  function BitOr(x: nat, y: nat): nat
    decreases x + y
  {
    if x == 0 && y == 0 then 0 else 2 * BitOr(x / 2, y / 2) + if x % 2 == 1 || y % 2 == 1 then 1 else 0
  }

  lemma {:induction false} BitOrZero(y: nat)
    ensures BitOr(0, y) == y && BitOr(y, 0) == y
  {
    if y > 0 { BitOrZero(y / 2); }
  }

  /** Bits that do not overlap add up. */
  lemma {:induction false} BitOrDisjoint(x: nat, y: nat, s: nat)
    requires x < Pow2(s)
    ensures BitOr(x, y * Pow2(s)) == x + y * Pow2(s)
    decreases s
  {
    if s == 0 {
      BitOrZero(y);
    } else {
      var p := Pow2(s - 1);
      Halve(y, p);
      BitOrDisjoint(x / 2, y, s - 1);
    }
  }

  lemma Halve(y: nat, p: nat)
    ensures y * (2 * p) == 2 * (y * p) && y * (2 * p) / 2 == y * p && y * (2 * p) % 2 == 0
  {
  }

  /** All limbs shifted up by less than a limb; `t` is the power of two and `t * u` a whole limb. */
  function ShiftedUp(a: seq<nat>, t: nat, u: nat, carry: nat): (r: seq<nat>)
    requires u > 0
    ensures |r| == |a|
  {
    if a == [] then [] else [carry + a[0] % u * t] + ShiftedUp(a[1..], t, u, a[0] / u)
  }

  lemma ShiftedLimb(x: nat, t: nat, u: nat, carry: nat)
    requires t * u == BASE && carry < t && u > 0
    ensures (carry + t * x) % BASE == carry + x % u * t && (carry + t * x) / BASE == x / u
  {
    DivMod(x, u);
    var q, r := x / u, x % u;
    assert t * x == q * (t * u) + r * t;
    assert r * t + t <= BASE by { assert (r + 1) * t <= u * t; }
    RemainderIs(carry + t * x, BASE, q, carry + r * t);
  }

  /** Shifting up is multiplication. */
  lemma {:induction false} ShiftedUpScales(a: seq<nat>, t: nat, u: nat, carry: nat)
    requires t * u == BASE && carry < t && u > 0 && Limbed(a)
    ensures ShiftedUp(a, t, u, carry) == Scaled(a, t, carry)
    decreases |a|
  {
    if a != [] {
      ShiftedLimb(a[0], t, u, carry);
      LimbQuotient(a[0], t, u);
      ShiftedUpScales(a[1..], t, u, a[0] / u);
    }
  }

  lemma LimbQuotient(x: nat, t: nat, u: nat)
    requires t * u == BASE && x < BASE && u > 0
    ensures x / u < t
  {
    DivMod(x, u);
    Monotone(t, x / u, u);
  }

  /** All limbs shifted down by less than a limb. */
  function ShiftedDown(a: seq<nat>, t: nat, u: nat): (r: seq<nat>)
    requires t > 0
    ensures |r| == |a|
  {
    if a == [] then [] else [a[0] / t + if |a| > 1 then a[1] % t * u else 0] + ShiftedDown(a[1..], t, u)
  }

  /** Shifting down is division. */
  lemma {:induction false} ShiftedDownDivides(a: seq<nat>, t: nat, u: nat)
    requires t * u == BASE && t > 0
    ensures Value(ShiftedDown(a, t, u)) == Value(a) / t
    decreases |a|
  {
    if a != [] {
      ShiftedDownDivides(a[1..], t, u);
      var rest := Value(a[1..]);
      if |a| > 1 {
        DownStep(a[0], a[1], Value(a[2..]), rest, t, u);
        assert a[1..][1..] == a[2..];
      } else {
        assert a[1..] == [];
      }
    }
  }

  lemma DownStep(x: nat, y: nat, higher: nat, rest: nat, t: nat, u: nat)
    requires t * u == BASE && t > 0 && rest == y + BASE * higher
    ensures x / t + y % t * u + BASE * (rest / t) == (x + BASE * rest) / t
  {
    DivMod(rest, t);
    DivMod(x, t);
    var q, r := rest / t, rest % t;
    SameRemainder(y, u * higher, t);
    assert rest == y + u * higher * t by { assert t * u * higher == u * higher * t; }
    assert r == y % t;
    assert BASE * rest == (BASE * q + u * r) * t by {
      assert BASE * (q * t + r) == BASE * q * t + t * u * r;
    }
    assert x + BASE * rest == (x / t + u * r + BASE * q) * t + x % t;
    RemainderIs(x + BASE * rest, t, x / t + u * r + BASE * q, x % t);
  }

  lemma SameRemainder(y: nat, k: nat, t: nat)
    requires t > 0
    ensures (y + k * t) % t == y % t
  {
    AddMultiple(y, k, t);
  }

  function Zeros(k: nat): (z: seq<nat>)
    ensures |z| == k && Limbed(z) && forall i | 0 <= i < k :: z[i] == 0
  {
    if k == 0 then [] else [0] + Zeros(k - 1)
  }

  lemma {:induction false} ZerosInFront(k: nat, s: seq<nat>)
    ensures Value(Zeros(k) + s) == Modulus(k) * Value(s)
    decreases k
  {
    if k == 0 {
      assert Zeros(0) + s == s;
    } else {
      ZerosInFront(k - 1, s);
      assert (Zeros(k) + s)[1..] == Zeros(k - 1) + s;
    }
  }

  lemma {:induction false} ValueSplit(s: seq<nat>, k: nat)
    requires k <= |s|
    ensures Value(s) == Value(s[..k]) + Modulus(k) * Value(s[k..])
    decreases k
  {
    if k == 0 {
      assert s[0..] == s && s[..0] == [];
    } else {
      ValueSplit(s[1..], k - 1);
      assert s[..k][1..] == s[1..][..k - 1] && s[1..][k - 1..] == s[k..];
      assert BASE * (Modulus(k - 1) * Value(s[k..])) == BASE * Modulus(k - 1) * Value(s[k..]);
    }
  }

  lemma {:induction false} ModulusSum(j: nat, k: nat)
    ensures Modulus(j + k) == Modulus(j) * Modulus(k)
    decreases j
  {
    if j > 0 { ModulusSum(j - 1, k); }
  }

  /** A whole shift up: `k` limbs and a factor `t`. */
  lemma ShiftUpValue(a: seq<nat>, k: nat, t: nat)
    requires k <= |a|
    ensures Value(Zeros(k) + Scaled(a[..|a| - k], t, 0)) == (Value(a) * (Modulus(k) * t)) % Modulus(|a|)
  {
    var n := |a|;
    var lo, hi := Value(a[..n - k]), Value(a[n - k..]);
    ZerosInFront(k, Scaled(a[..n - k], t, 0));
    ScaledValue(a[..n - k], t, 0);
    ValueSplit(a, n - k);
    ModulusSum(n - k, k);
    UpRemainder(lo, hi, t, Modulus(k), Modulus(n - k));
  }

  lemma UpRemainder(lo: nat, hi: nat, t: nat, c: nat, m: nat)
    requires c > 0 && m > 0
    ensures c * (t * lo % m) == ((lo + m * hi) * (c * t)) % (m * c)
  {
    DivMod(t * lo, m);
    var q, r := t * lo / m, t * lo % m;
    assert c * (t * lo) == q * (m * c) + c * r;
    assert m * hi * (c * t) == hi * t * (m * c);
    assert (lo + m * hi) * (c * t) == (q + hi * t) * (m * c) + c * r by { assert lo * (c * t) == c * (t * lo); }
    Monotone(r + 1, m, c);
    RemainderIs((lo + m * hi) * (c * t), m * c, q + hi * t, c * r);
  }

  /** A whole shift down. */
  lemma ShiftDownValue(a: seq<nat>, k: nat, t: nat, u: nat)
    requires k <= |a| && Limbed(a) && t * u == BASE && t > 0
    ensures Value(ShiftedDown(a[k..], t, u) + Zeros(k)) == Value(a) / (Modulus(k) * t)
  {
    ShiftedDownDivides(a[k..], t, u);
    ZerosBehind(ShiftedDown(a[k..], t, u), k);
    ValueSplit(a, k);
    ValueInRange(a[..k]);
    TwoQuotients(Value(a[..k]), Value(a[k..]), Modulus(k), t);
  }

  lemma {:induction false} ZerosBehind(s: seq<nat>, k: nat)
    ensures Value(s + Zeros(k)) == Value(s)
    decreases |s|
  {
    if s == [] {
      ZerosInFront(k, []);
      assert Zeros(k) + [] == Zeros(k) && s + Zeros(k) == Zeros(k);
    } else {
      assert (s + Zeros(k))[1..] == s[1..] + Zeros(k);
      ZerosBehind(s[1..], k);
    }
  }

  lemma TwoQuotients(lo: nat, hi: nat, m: nat, t: nat)
    requires lo < m && t > 0
    ensures hi / t == (lo + m * hi) / (m * t)
  {
    DivMod(hi, t);
    var q, r := hi / t, hi % t;
    assert m * hi == q * (m * t) + m * r;
    Monotone(r + 1, t, m);
    assert lo + m * r < m * t;
    RemainderIs(lo + m * hi, m * t, q, lo + m * r);
  }

  lemma {:induction false} ShiftedUpAt(a: seq<nat>, t: nat, u: nat, carry: nat, m: nat)
    requires m < |a| && u > 0
    ensures ShiftedUp(a, t, u, carry)[m] == (if m == 0 then carry else a[m - 1] / u) + a[m] % u * t
    decreases |a|
  {
    if m > 0 { ShiftedUpAt(a[1..], t, u, a[0] / u, m - 1); }
  }

  /** A limb of a number shifted down. */
  function DownLimb(a: seq<nat>, t: nat, u: nat, m: nat): nat
    requires m < |a| && t > 0
  {
    a[m] / t + if m + 1 < |a| then a[m + 1] % t * u else 0
  }

  lemma {:induction false} ShiftedDownAt(a: seq<nat>, t: nat, u: nat, m: nat)
    requires m < |a| && t > 0
    ensures ShiftedDown(a, t, u)[m] == DownLimb(a, t, u, m)
    decreases |a|
  {
    if m > 0 { ShiftedDownAt(a[1..], t, u, m - 1); }
  }
}
