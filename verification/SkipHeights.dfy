/**
 Skip heights (`src/chain.cpp`): where the skip pointers of the block tree lead, and how many of them it takes to find
 an ancestor.
 */
module SkipHeights {
  import opened Basics

  /** `n & (n - 1)`: the lowest '1' of the binary representation becomes a '0'. */
  function InvertLowestOne(n: nat): (r: nat)
    ensures r <= n && (n > 0 ==> r < n)
  {
    if n == 0 then 0 else if n % 2 == 1 then n - 1 else 2 * InvertLowestOne(n / 2)
  }

  /** The bitwise conjunction of two numbers. */
  function And(a: nat, b: nat): nat {
    if a == 0 || b == 0 then 0 else 2 * And(a / 2, b / 2) + if a % 2 == 1 && b % 2 == 1 then 1 else 0
  }

  lemma {:induction false} AndSelf(a: nat)
    ensures And(a, a) == a
  {
    if a > 0 { AndSelf(a / 2); }
  }

  /** It is what the source computes. */
  lemma {:induction false} InvertIsAnd(n: nat)
    requires n > 0
    ensures InvertLowestOne(n) == And(n, n - 1)
  {
    if n % 2 == 1 {
      assert (n - 1) / 2 == n / 2;
      if n > 1 { AndSelf(n / 2); }
    } else {
      assert (n - 1) / 2 == n / 2 - 1 && (n - 1) % 2 == 1;
      InvertIsAnd(n / 2);
    }
  }

  function InvertTwice(n: nat): (r: nat)
    ensures r <= n && (n > 0 ==> r < n)
  {
    InvertLowestOne(InvertLowestOne(n))
  }

  /** `GetSkipHeight`. */
  function GetSkipHeight(height: nat): (r: nat)
    ensures r < height || (r == 0 && height == 0)
  {
    if height < 2 then 0
    else if height % 2 == 1 then InvertTwice(height - 1) + 1
    else InvertLowestOne(height)
  }

  // ----- Lowest ones -----

  /** The place of the lowest '1'. */
  function Low(n: nat): nat
    requires n > 0
  {
    if n % 2 == 1 then 0 else 1 + Low(n / 2)
  }

  /** The lowest `k` bits are all '0'. */
  predicate Aligned(n: nat, k: nat) { k == 0 || (n % 2 == 0 && Aligned(n / 2, k - 1)) }

  /** The number loses the power of two that is its lowest '1', and has no '1' left up to there. */
  lemma {:induction false} LowestOne(n: nat)
    requires n > 0
    ensures n == InvertLowestOne(n) + Pow2(Low(n)) && Aligned(n, Low(n)) && Aligned(InvertLowestOne(n), Low(n) + 1)
  {
    if n % 2 == 1 {
      assert Low(n) == 0 && Aligned((n - 1) / 2, 0);
    } else {
      LowestOne(n / 2);
      assert InvertLowestOne(n) / 2 == InvertLowestOne(n / 2);
    }
  }

  lemma {:induction false} AlignedLow(n: nat, k: nat)
    requires n > 0 && Aligned(n, k)
    ensures Low(n) >= k && n >= Pow2(k)
    decreases k
  {
    if k > 0 { AlignedLow(n / 2, k - 1); }
  }

  lemma {:induction false} AlignedLess(n: nat, k: nat)
    requires n >= Pow2(k) && Aligned(n, k)
    ensures Aligned(n - Pow2(k), k)
    decreases k
  {
    if k > 0 {
      AlignedLess(n / 2, k - 1);
      assert (n - Pow2(k)) / 2 == n / 2 - Pow2(k - 1);
    }
  }

  /** Between two multiples of a power of two the lowest '1' is below it, and without it the number is not below. */
  lemma {:induction false} LowInside(b: nat, m: nat, v: nat)
    requires Aligned(b, v) && b < m < b + Pow2(v)
    ensures Low(m) < v && InvertLowestOne(m) >= b
    decreases v
  {
    if v > 0 && m % 2 == 0 { LowInside(b / 2, m / 2, v - 1); }
  }

  lemma {:induction false} PowersGrow(i: nat, j: nat)
    requires i <= j
    ensures Pow2(i) <= Pow2(j)
    decreases j - i
  {
    if i < j { PowersGrow(i + 1, j); }
  }

  // ----- The walk of `GetAncestor` -----

  /** Whether the skip pointer at height `h` is followed on the way to `t`. */
  predicate Follows(h: nat, t: nat)
    requires t < h
  {
    var s, sp := GetSkipHeight(h), GetSkipHeight(h - 1);
    s == t || (s > t && !(sp < s - 2 && sp >= t))
  }

  /** The next height of the walk. */
  function Down(h: nat, t: nat): (r: nat)
    requires t < h
    ensures t <= r < h
  {
    if Follows(h, t) then GetSkipHeight(h) else h - 1
  }

  /** The length of the walk. */
  function Steps(h: nat, t: nat): nat
    requires t <= h
  {
    if h == t then 0 else 1 + Steps(Down(h, t), t)
  }

  /** A bound for a walk inside a block of 2^v heights, which grows with the square of `v`. */
  function Within(v: nat): nat { if v == 0 then 1 else Within(v - 1) + (v - 1) / 2 + 3 }

  lemma {:induction false} WithinGrows(i: nat, j: nat)
    requires i <= j
    ensures Within(i) <= Within(j)
    decreases j - i
  {
    if i < j { WithinGrows(i + 1, j); }
  }

  lemma {:induction false} WithinIs(v: nat)
    ensures 4 * Within(v) <= v * v + 12 * v + 4
  {
    if v > 0 {
      WithinIs(v - 1);
      assert v * v == (v - 1) * (v - 1) + 2 * v - 1;
    }
  }

  /** From a multiple of 2^v to a target at most 2^v below. */
  lemma {:induction false} StepsBlock(v: nat, h: nat, t: nat)
    requires Aligned(h, v) && t <= h <= t + Pow2(v)
    ensures Steps(h, t) <= Within(v)
    decreases v, 1, 0
  {
    if t < h {
      if v == 0 {
        assert Down(h, t) == t;
      } else {
        BlockDown(v, h, t);
        if Down(h, t) != t {
          StepsOdd(v, h - Pow2(v), h - 2, t);
        }
      }
    }
  }

  /** The skip pointer of a multiple of 2^v leads out of the block of 2^v heights below it. */
  lemma BlockDown(v: nat, h: nat, t: nat)
    requires v > 0 && Aligned(h, v) && t < h <= t + Pow2(v)
    ensures Down(h, t) == t || Down(h, t) == h - 1
    ensures h >= Pow2(v) >= 2 && h % 2 == 0 && Aligned(h - Pow2(v), v)
  {
    AlignedLow(h, v);
    LowestOne(h);
    PowersGrow(v, Low(h));
    AlignedLess(h, v);
  }

  /** How many pairs of ones an odd height can still skip. */
  function Pairs(b: nat, m: nat, v: nat): nat
    requires b <= m
  {
    if m == 0 || m == b || Low(m) > v then 0 else (v - Low(m)) / 2
  }

  lemma InvertTwo(k: nat, n: nat)
    requires n == 4 * k + 2
    ensures InvertLowestOne(n) == n - 2
  {
    assert n / 2 == 2 * k + 1;
  }

  lemma InvertFour(k: nat, n: nat)
    requires n == 8 * k + 4
    ensures InvertLowestOne(n) == n - 4
  {
    assert n / 2 == 4 * k + 2;
    InvertTwo(k, n / 2);
  }

  lemma EightLow(k: nat)
    requires k > 0
    ensures Low(8 * k) >= 3
  {
    assert 8 * k / 2 == 4 * k && 4 * k / 2 == 2 * k && 2 * k / 2 == k;
    assert Low(2 * k) >= 1;
    assert Low(4 * k) >= 2;
  }

  /** The block before an even height does not lead between the next two heights of the walk. */
  predicate NoDetour(m: nat)
    requires m > 0
  {
    var m1, sp := InvertLowestOne(m), GetSkipHeight(m - 1);
    sp >= m1 - 2 || sp <= InvertLowestOne(m1) + 1
  }

  lemma NoDetourFrom(m: nat, m1: nat, x: nat)
    requires m > 2 && m % 2 == 0 && m1 == InvertLowestOne(m) && x == InvertTwice(m - 2)
    requires x + 3 >= m1 || x <= InvertLowestOne(m1)
    ensures NoDetour(m)
  {
    var h := m - 1;
    assert h >= 2 && h % 2 == 1 && GetSkipHeight(h) == InvertTwice(h - 1) + 1;
  }

  lemma TwiceIs(n: nat, a: nat)
    requires InvertLowestOne(n) == a
    ensures InvertTwice(n) == InvertLowestOne(a)
  {
  }

  lemma NoDetourTwo(k: nat, m: nat)
    requires k > 0 && m == 4 * k + 2
    ensures NoDetour(m)
  {
    InvertTwo(k, m);
    var m1 := m - 2;
    var y := InvertLowestOne(m1);
    TwiceIs(m1, y);
    NoDetourFrom(m, m1, InvertLowestOne(y));
  }

  lemma NoDetourFour(k: nat, m: nat)
    requires m == 8 * k + 4
    ensures NoDetour(m)
  {
    InvertFour(k, m);
    var m1, n := m - 4, m - 2;
    InvertTwo(2 * k, n);
    TwiceIs(n, m1);
    NoDetourFrom(m, m1, InvertLowestOne(m1));
  }

  lemma NoDetourEight(k: nat, m: nat)
    requires k > 0 && m == 8 * k
    ensures NoDetour(m)
  {
    var n, a := m - 2, m - 4;
    InvertTwo(2 * k - 1, n);
    InvertFour(k - 1, a);
    TwiceIs(n, a);
    EightAtLeast(k, m);
    NoDetourFrom(m, InvertLowestOne(m), m - 8);
  }

  lemma EightAtLeast(k: nat, m: nat)
    requires k > 0 && m == 8 * k
    ensures InvertLowestOne(m) <= m - 8
  {
    LowestOne(m);
    EightLow(k);
    PowersGrow(3, Low(m));
    assert Pow2(3) == 8;
  }

  lemma ByEight(m: nat) returns (k: nat, c: nat)
    requires m % 2 == 0
    ensures m == 8 * k + c && (c == 0 || c == 2 || c == 4 || c == 6)
  {
    k, c := m / 8, m % 8;
  }

  lemma EvenNoDetour(m: nat)
    requires m % 2 == 0 && m > 2
    ensures NoDetour(m)
  {
    var k, c := ByEight(m);
    if c == 2 {
      NoDetourTwo(2 * k, m);
    } else if c == 6 {
      NoDetourTwo(2 * k + 1, m);
    } else if c == 4 {
      NoDetourFour(k, m);
    } else {
      NoDetourEight(k, m);
    }
  }

  lemma FollowsOne(m: nat, t: nat)
    requires m % 2 == 0 && InvertLowestOne(InvertLowestOne(m)) + 1 < t < InvertLowestOne(m)
    ensures Down(m, t) == InvertLowestOne(m)
  {
    InvertEven(m);
    EvenNoDetour(m);
  }

  /** From a height inside the block to a target not below the height with its lowest one less. */
  lemma StepsLast(v: nat, b: nat, m: nat, t: nat)
    requires Aligned(b, v) && b < m < b + Pow2(v) && InvertLowestOne(m) <= t <= m
    ensures v > 0 && Steps(m, t) <= Within(v - 1)
    decreases v, 0, 0
  {
    LowInside(b, m, v);
    LowestOne(m);
    WithinGrows(Low(m), v - 1);
    StepsBlock(Low(m), m, t);
  }

  /** From an even height to a target above the height with its two lowest ones less. */
  lemma StepsEven(v: nat, b: nat, m: nat, t: nat)
    requires v > 0 && Aligned(b, v) && m % 2 == 0 && b < InvertLowestOne(m) < m < b + Pow2(v)
    requires InvertLowestOne(InvertLowestOne(m)) + 1 < t <= m
    ensures Steps(m, t) <= 1 + Within(v - 1)
    decreases v, 0, 1
  {
    var m1 := InvertLowestOne(m);
    if t >= m1 {
      StepsLast(v, b, m, t);
    } else {
      FollowsOne(m, t);
      StepsLast(v, b, m1, t);
    }
  }

  lemma InvertEven(b: nat)
    requires b % 2 == 0
    ensures b == 0 || InvertLowestOne(b) + 2 <= b
  {
  }

  lemma SkipOdd(m: nat, t: nat)
    requires 2 <= m && m % 2 == 0 && t <= m
    ensures GetSkipHeight(m + 1) == InvertTwice(m) + 1
    ensures Follows(m + 1, t) <==> GetSkipHeight(m + 1) >= t
  {
  }

  /** From an odd height in the block of 2^v heights above `b`. */
  lemma {:induction false} StepsOdd(v: nat, b: nat, m: nat, t: nat)
    requires v > 0 && Aligned(b, v) && m % 2 == 0 && b <= m < b + Pow2(v) && b <= t <= m + 1
    ensures Steps(m + 1, t) <= Pairs(b, m, v) + 2 + Within(v - 1)
    decreases v, 0, m + 3
  {
    if t == m + 1 {
    } else if m == b {
      assert Down(m + 1, t) == t;
    } else {
      LowInside(b, m, v);
      LowestOne(m);
      SkipOdd(m, t);
      var m1 := InvertLowestOne(m);
      if m1 > b {
        StepsPair(v, b, m, t);
      } else if GetSkipHeight(m + 1) >= t {
        InvertEven(b);
        assert Down(m + 1, t) == 1;
      } else {
        StepsLast(v, b, m, t);
      }
    }
  }

  /** The same when two ones or more are left. */
  lemma {:induction false} StepsPair(v: nat, b: nat, m: nat, t: nat)
    requires v > 0 && Aligned(b, v) && m % 2 == 0 && b < InvertLowestOne(m) < m < b + Pow2(v) && b <= t <= m
    ensures Steps(m + 1, t) <= Pairs(b, m, v) + 2 + Within(v - 1)
    decreases v, 0, m + 2
  {
    var m1 := InvertLowestOne(m);
    var m2 := InvertLowestOne(m1);
    LowInside(b, m, v);
    LowInside(b, m1, v);
    LowestOne(m);
    LowestOne(m1);
    AlignedLow(m1, Low(m) + 1);
    SkipOdd(m, t);
    if m2 + 1 >= t {
      if m2 > b {
        LowInside(b, m2, v);
        AlignedLow(m2, Low(m1) + 1);
      }
      StepsOdd(v, b, m2, t);
    } else {
      StepsEven(v, b, m, t);
    }
  }

  // ----- Any walk -----

  lemma {:induction false} AlignedZero(v: nat)
    ensures Aligned(0, v)
  {
    if v > 0 { AlignedZero(v - 1); }
  }

  /** How many single ones an even height can still skip. */
  function Ones(h: nat, v: nat): nat { if h == 0 || Low(h) > v then 0 else v - Low(h) }

  /** From an even height: single ones are skipped until the target is in the block below or odd heights do better. */
  lemma {:induction false} StepsFromEven(v: nat, h: nat, t: nat)
    requires v > 0 && h % 2 == 0 && t <= h < Pow2(v)
    ensures Steps(h, t) <= Ones(h, v) + Within(v)
    decreases h
  {
    if t < h {
      AlignedZero(v);
      LowInside(0, h, v);
      LowestOne(h);
      var s := InvertLowestOne(h);
      if s <= t {
        WithinGrows(Low(h), v);
        StepsBlock(Low(h), h, t);
      } else if Down(h, t) == s {
        NextOnes(h, s, v);
        StepsFromEven(v, s, t);
      } else {
        StepsOdd(v, 0, h - 2, t);
        OddWithin(h - 2, v);
      }
    }
  }

  lemma NextOnes(h: nat, s: nat, v: nat)
    requires h > 0 && s == InvertLowestOne(h) && 0 < s && h < Pow2(v)
    ensures s % 2 == 0 && Ones(s, v) < Ones(h, v)
  {
    AlignedZero(v);
    LowInside(0, h, v);
    LowInside(0, s, v);
    LowestOne(h);
    AlignedLow(s, Low(h) + 1);
  }

  lemma OddWithin(m: nat, v: nat)
    requires v > 0 && m % 2 == 0
    ensures Pairs(0, m, v) + 3 + Within(v - 1) <= Within(v)
  {
  }

  /** Below height 2^v an ancestor is found in a number of steps that grows with the square of `v` only. */
  lemma StepsBound(v: nat, h: nat, t: nat)
    requires t <= h < Pow2(v)
    ensures Steps(h, t) <= Within(v) + v
  {
    if v > 0 {
      if h % 2 == 0 {
        StepsFromEven(v, h, t);
      } else {
        AlignedZero(v);
        StepsOdd(v, 0, h - 1, t);
        OddWithin(h - 1, v);
      }
    }
  }

  /** For heights below 2^v, (v^2 + 16v + 4) / 4. */
  ghost predicate Quadratic(steps: nat, h: nat) {
    forall v: nat | h < Pow2(v) :: 4 * steps <= v * v + 16 * v + 4
  }

  lemma QuadraticZero(h: nat)
    ensures Quadratic(0, h)
  {
  }

  lemma StepsQuadratic(h: nat, t: nat)
    requires t <= h
    ensures Quadratic(Steps(h, t), h)
  {
    forall v: nat | h < Pow2(v) ensures 4 * Steps(h, t) <= v * v + 16 * v + 4 {
      StepsBound(v, h, t);
      WithinIs(v);
    }
  }
}
