/** Numbers as sequences of digits, most significant first. */
module Digits {
  import opened Basics

  function Pow(b: nat, e: nat): (p: nat)
    ensures b > 0 ==> p > 0
  {
    if e == 0 then 1 else Times(b, Pow(b, e - 1))
  }

  /** A product under a name, so that it is only expanded where that helps. */
  function Times(a: nat, b: nat): (p: nat)
    ensures a > 0 && b > 0 ==> p > 0
  {
    a * b
  }

  lemma {:induction false} PowSum(b: nat, d: nat, e: nat)
    ensures Pow(b, d + e) == Pow(b, d) * Pow(b, e)
    decreases d
  {
    if d > 0 {
      PowSum(b, d - 1, e);
      assert b * (Pow(b, d - 1) * Pow(b, e)) == b * Pow(b, d - 1) * Pow(b, e);
    }
  }

  lemma {:induction false} PowIncreases(b: nat, d: nat, e: nat)
    requires b > 0 && d <= e
    ensures Pow(b, d) <= Pow(b, e)
    decreases e
  {
    if d < e {
      PowIncreases(b, d, e - 1);
      assert Pow(b, e) >= Pow(b, e - 1);
    }
  }

  /** The value of a sequence of digits. */
  function Value(base: nat, s: seq<nat>): nat {
    if s == [] then 0 else Value(base, s[..|s| - 1]) * base + s[|s| - 1]
  }

  predicate Below(base: nat, s: seq<nat>) { forall i | 0 <= i < |s| :: s[i] < base }

  /** Digits without a leading zero. */
  predicate Canonical(base: nat, s: seq<nat>) { Below(base, s) && (s != [] ==> s[0] > 0) }

  /** The canonical digits of a number. */
  function Of(base: nat, n: nat): (s: seq<nat>)
    requires base > 1
  {
    if n == 0 then [] else
      Smaller(base, n);
      Of(base, n / base) + [n % base]
  }

  lemma Smaller(base: nat, n: nat)
    requires base > 1 && n > 0
    ensures 0 <= n / base < n
  {
    DivMod(base, n);
    Monotone(2, base, n / base);
  }

  lemma DivMod(base: nat, n: nat)
    requires base > 0
    ensures n == n / base * base + n % base && 0 <= n % base < base && n / base >= 0
  {
  }

  /** Digits determine quotient and remainder. */
  lemma Unique(base: nat, q: nat, r: nat)
    requires r < base
    ensures (q * base + r) / base == q && (q * base + r) % base == r
  {
    var n := q * base + r;
    DivMod(base, n);
    Monotone(n / base + 1, q, base);
    Monotone(q + 1, n / base, base);
  }

  lemma {:induction false} OfIsCanonical(base: nat, n: nat)
    requires base > 1
    ensures Canonical(base, Of(base, n)) && Value(base, Of(base, n)) == n
  {
    if n > 0 {
      Smaller(base, n);
      OfIsCanonical(base, n / base);
      DivMod(base, n);
      var s := Of(base, n);
      assert s[..|s| - 1] == Of(base, n / base);
    }
  }

  /** Canonical digits are the only ones with their value. */
  lemma {:induction false} CanonicalIsOf(base: nat, s: seq<nat>)
    requires base > 1 && Canonical(base, s)
    ensures s == Of(base, Value(base, s))
  {
    if s != [] {
      var n := |s| - 1;
      CanonicalIsOf(base, s[..n]);
      Unique(base, Value(base, s[..n]), s[n]);
      assert s == s[..n] + [s[n]];
      if n == 0 {
        assert Value(base, s[..n]) == 0;
      } else {
        ValuePositive(base, s[..n]);
        assert Value(base, s[..n]) * base > 0;
      }
    }
  }

  lemma {:induction false} ValuePositive(base: nat, s: seq<nat>)
    requires base > 1 && s != [] && s[0] > 0
    ensures Value(base, s) > 0
  {
    if |s| > 1 {
      ValuePositive(base, s[..|s| - 1]);
      assert Value(base, s[..|s| - 1]) * base > 0;
    }
  }

  lemma {:induction false} ValueBound(base: nat, s: seq<nat>)
    requires base > 0 && Below(base, s)
    ensures Value(base, s) < Pow(base, |s|)
  {
    if s != [] {
      var n := |s| - 1;
      ValueBound(base, s[..n]);
      Monotone(Value(base, s[..n]) + 1, Pow(base, n), base);
    }
  }

  /** A digit in front counts with the power of its position. */
  lemma {:induction false} ValuePrepend(base: nat, d: nat, s: seq<nat>)
    ensures Value(base, [d] + s) == d * Pow(base, |s|) + Value(base, s)
  {
    if s == [] {
      assert [d] + s == [d];
    } else {
      var n := |s| - 1;
      ValuePrepend(base, d, s[..n]);
      assert ([d] + s)[..n + 1] == [d] + s[..n];
      Distribute(d, Pow(base, n), Value(base, s[..n]), base);
    }
  }

  lemma Distribute(d: nat, p: nat, v: nat, base: nat)
    ensures (d * p + v) * base == d * (base * p) + v * base
  {
  }

  /** Zeros in front do not count. */
  lemma {:induction false} ValueZeros(base: nat, s: seq<nat>, k: nat)
    requires k <= |s| && forall i | 0 <= i < k :: s[i] == 0
    ensures Value(base, s) == Value(base, s[k..])
    decreases k
  {
    if k == 0 {
      assert s[0..] == s;
    } else {
      ValuePrepend(base, 0, s[1..]);
      assert s == [0] + s[1..];
      ValueZeros(base, s[1..], k - 1);
      assert s[1..][k - 1..] == s[k..];
    }
  }

  // ----- Comparing powers -----

  lemma {:induction false} PowOfPow(b: nat, d: nat, e: nat)
    ensures Pow(Pow(b, d), e) == Pow(b, d * e)
    decreases e
  {
    if e > 0 {
      PowOfPow(b, d, e - 1);
      PowSum(b, d, d * (e - 1));
      assert d + d * (e - 1) == d * e;
    }
  }

  lemma {:induction false} PowMonotone(a: nat, b: nat, e: nat)
    requires a <= b
    ensures Pow(a, e) <= Pow(b, e)
    decreases e
  {
    if e > 0 {
      PowMonotone(a, b, e - 1);
      Monotone(a, b, Pow(a, e - 1));
      Monotone(Pow(a, e - 1), Pow(b, e - 1), b);
    }
  }

  lemma {:induction false} PowStrict(a: nat, b: nat, e: nat)
    requires a < b && e > 0
    ensures Pow(a, e) < Pow(b, e)
    decreases e
  {
    if e == 1 {
      assert Pow(a, 0) == 1 && Pow(b, 0) == 1;
    } else {
      PowStrict(a, b, e - 1);
      TimesStrict(a, b, Pow(a, e - 1), Pow(b, e - 1));
    }
  }

  lemma TimesStrict(a: nat, b: nat, x: nat, y: nat)
    requires a < b && x < y
    ensures Times(a, x) < Times(b, y)
  {
    Monotone(a, b, x);
    Monotone(x + 1, y, b);
  }

  lemma PowSwap(b: nat, d: nat, e: nat)
    ensures Pow(Pow(b, d), e) == Pow(Pow(b, e), d)
  {
    PowOfPow(b, d, e);
    PowOfPow(b, e, d);
    assert d * e == e * d;
  }

  /**
   If `b` to the `d` is at most `c` to the `e`, then `n` digits in base `b` fit into `k` digits in base `c`
   whenever `k / n` is at least `e / d`.
   */
  lemma DigitsFit(b: nat, d: nat, c: nat, e: nat, n: nat, k: nat)
    requires b > 0 && c > 0 && d > 0 && Pow(b, d) <= Pow(c, e) && e * n <= k * d
    ensures Pow(b, n) <= Pow(c, k)
  {
    PowSwap(b, n, d);
    PowMonotone(Pow(b, d), Pow(c, e), n);
    PowersOrdered(c, e, n, k, d);
    if Pow(b, n) > Pow(c, k) { PowStrict(Pow(c, k), Pow(b, n), d); }
  }

  lemma PowersOrdered(c: nat, e: nat, n: nat, k: nat, d: nat)
    requires c > 0 && e * n <= k * d
    ensures Pow(Pow(c, e), n) <= Pow(Pow(c, k), d)
  {
    var x := Product(c, e, n);
    var y := Product(c, k, d);
    PowIncreases(c, x, y);
  }

  lemma Product(c: nat, e: nat, n: nat) returns (x: nat)
    ensures x == e * n && Pow(Pow(c, e), n) == Pow(c, x)
  {
    x := e * n;
    PowOfPow(c, e, n);
  }
}
