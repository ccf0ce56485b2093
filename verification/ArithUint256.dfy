/**
 `base_uint` and `arith_uint256` (`src/arith_uint256.*`) in place, for any number of limbs: every operator
 computes the integer result modulo the range, division the floor of the quotient.
 */
module ArithUint256 {
  import opened Basics
  import opened Limbs

  // ----- The limb loops -----

  method AddLimbs(pn: array<nat>, b: seq<nat>)
    requires pn.Length == |b| && Limbed(pn[..]) && Limbed(b)
    modifies pn
    ensures pn[..] == Sum(old(pn[..]), b, 0)
  {
    ghost var a, full := pn[..], Sum(pn[..], b, 0);
    var carry: nat := 0;
    assert a[0..] == a && b[0..] == b && full[0..] == full;
    for i := 0 to pn.Length
      invariant carry < BASE && pn[i..] == a[i..] && pn[..i] == full[..i] && full[i..] == Sum(a[i..], b[i..], carry)
    {
      assert a[i..][1..] == a[i + 1..] && b[i..][1..] == b[i + 1..] && full[i..][1..] == full[i + 1..];
      assert a[i..][0] == pn[i];
      var n := carry + pn[i] + b[i];
      pn[i] := n % BASE;
      carry := n / BASE;
      assert full[i] == full[i..][0];
    }
    assert pn[..pn.Length] == pn[..];
  }

  method ComplementLimbs(a: seq<nat>) returns (r: array<nat>)
    requires Limbed(a)
    ensures fresh(r) && r[..] == Complement(a)
  {
    r := new nat[|a|](_ => 0);
    ghost var full := Complement(a);
    assert a[0..] == a && full[0..] == full;
    for i := 0 to |a|
      invariant r[..i] == full[..i] && full[i..] == Complement(a[i..])
    {
      assert a[i..][1..] == a[i + 1..] && full[i..][1..] == full[i + 1..];
      r[i] := BASE - 1 - a[i];
      assert full[i] == full[i..][0];
    }
    assert r[..r.Length] == r[..];
  }

  method IncrementLimbs(pn: array<nat>)
    requires Limbed(pn[..])
    modifies pn
    ensures pn[..] == Limbs.Increment(old(pn[..]))
  {
    ghost var a, full := pn[..], Limbs.Increment(pn[..]);
    var i := 0;
    assert a[0..] == a && full[0..] == full;
    while i < pn.Length && pn[i] + 1 == BASE
      invariant 0 <= i <= pn.Length && pn[i..] == a[i..] && pn[..i] == full[..i] && full[i..] == Limbs.Increment(a[i..])
    {
      assert a[i..][1..] == a[i + 1..] && full[i..][1..] == full[i + 1..];
      assert a[i..][0] == pn[i] && full[i] == full[i..][0];
      pn[i] := 0;
      i := i + 1;
    }
    if i < pn.Length {
      assert a[i..][0] == pn[i] && full[i] == full[i..][0] && full[i..][1..] == a[i..][1..];
      pn[i] := pn[i] + 1;
      assert pn[..] == pn[..i] + [pn[i]] + a[i..][1..];
      assert full == full[..i] + [full[i]] + full[i..][1..];
    } else {
      assert pn[..i] == pn[..];
    }
  }

  method DecrementLimbs(pn: array<nat>)
    requires Limbed(pn[..])
    modifies pn
    ensures pn[..] == Limbs.Decrement(old(pn[..]))
  {
    ghost var a, full := pn[..], Limbs.Decrement(pn[..]);
    var i := 0;
    assert a[0..] == a && full[0..] == full;
    while i < pn.Length && pn[i] == 0
      invariant 0 <= i <= pn.Length && pn[i..] == a[i..] && pn[..i] == full[..i] && full[i..] == Limbs.Decrement(a[i..])
    {
      assert a[i..][1..] == a[i + 1..] && full[i..][1..] == full[i + 1..];
      assert a[i..][0] == pn[i] && full[i] == full[i..][0];
      pn[i] := BASE - 1;
      i := i + 1;
    }
    if i < pn.Length {
      assert a[i..][0] == pn[i] && full[i] == full[i..][0] && full[i..][1..] == a[i..][1..];
      pn[i] := pn[i] - 1;
      assert pn[..] == pn[..i] + [pn[i]] + a[i..][1..];
      assert full == full[..i] + [full[i]] + full[i..][1..];
    } else {
      assert pn[..i] == pn[..];
    }
  }

  method ScaleLimbs(pn: array<nat>, b32: nat)
    requires Limbed(pn[..]) && b32 < BASE
    modifies pn
    ensures pn[..] == Scaled(old(pn[..]), b32, 0)
  {
    ghost var a, full := pn[..], Scaled(pn[..], b32, 0);
    var carry: nat := 0;
    assert a[0..] == a && full[0..] == full;
    for i := 0 to pn.Length
      invariant carry < BASE && pn[i..] == a[i..] && pn[..i] == full[..i] && full[i..] == Scaled(a[i..], b32, carry)
    {
      assert a[i..][1..] == a[i + 1..] && full[i..][1..] == full[i + 1..];
      assert a[i..][0] == pn[i] == a[i];
      AccumulatorFits(carry, 0, b32, pn[i]);
      var n := Accumulated(carry, 0, b32, pn[i]);
      pn[i] := n % BASE;
      carry := n / BASE;
      assert full[i] == full[i..][0];
    }
    assert pn[..pn.Length] == pn[..];
  }

  function Accumulated(carry: nat, a: nat, x: nat, y: nat): nat { carry + a + x * y }

  /** The 64-bit accumulator of `*=` never wraps: the next carry is one limb again. */
  lemma AccumulatorFits(carry: nat, a: nat, x: nat, y: nat)
    requires carry < BASE && a < BASE && x < BASE && y < BASE
    ensures Accumulated(carry, a, x, y) < BASE * BASE && Accumulated(carry, a, x, y) / BASE < BASE
  {
    Monotone(x, BASE - 1, y);
  }

  /** The carry into every limb of a row, and out of the last. */
  function RowCarries(a: seq<nat>, c: seq<nat>, x: nat, carry: nat): (r: seq<nat>)
    requires |a| == |c|
    ensures |r| == |a| + 1 && r[0] == carry
  {
    if a == [] then [carry] else [carry] + RowCarries(a[1..], c[1..], x, Accumulated(carry, a[0], x, c[0]) / BASE)
  }

  lemma {:induction false} RowAt(a: seq<nat>, c: seq<nat>, x: nat, carry: nat, i: nat)
    requires i < |a| == |c|
    ensures var r := RowCarries(a, c, x, carry);
      var n := Accumulated(r[i], a[i], x, c[i]);
      Row(a, c, x, carry)[i] == n % BASE && r[i + 1] == n / BASE
    decreases |a|
  {
    if i > 0 { RowAt(a[1..], c[1..], x, Accumulated(carry, a[0], x, c[0]) / BASE, i - 1); }
  }

  /** One step of the inner loop of `*=`. */
  method RowCell(carry: nat, acc: nat, x: nat, y: nat, ghost a: seq<nat>, ghost c: seq<nat>, ghost i: nat)
    returns (digit: nat, next: nat)
    requires carry < BASE && acc < BASE && x < BASE && y < BASE
    requires i < |a| == |c| && a[i] == acc && c[i] == y && carry == RowCarries(a, c, x, 0)[i]
    ensures digit == Row(a, c, x, 0)[i] && next == RowCarries(a, c, x, 0)[i + 1] < BASE
  {
    AccumulatorFits(carry, acc, x, y);
    RowAt(a, c, x, 0, i);
    var n := Accumulated(carry, acc, x, y);
    digit, next := n % BASE, n / BASE;
  }

  /** The inner loop of `*=`. */
  method RowLimbs(acc: array<nat>, j: nat, b: seq<nat>, x: nat)
    requires j <= acc.Length == |b| && Limbed(acc[..]) && Limbed(b) && x < BASE
    modifies acc
    ensures acc[..j] == old(acc[..j]) && acc[j..] == Row(old(acc[j..]), b[..|b| - j], x, 0)
    ensures Limbed(acc[..])
  {
    var n := acc.Length;
    ghost var was := acc[..];
    ghost var a, c := was[j..], b[..n - j];
    ghost var full := Row(a, c, x, 0);
    var carry: nat := 0;
    assert a == acc[j..];
    for i := 0 to n - j
      invariant carry == RowCarries(a, c, x, 0)[i] < BASE
      invariant forall q | 0 <= q < n :: acc[q] == if j <= q < j + i then full[q - j] else was[q]
    {
      var digit, next := RowCell(carry, acc[i + j], x, b[i], a, c, i);
      acc[i + j] := digit;
      carry := next;
    }
    assert acc[j..] == full && acc[..j] == was[..j];
  }

  lemma ProductNext(p: seq<nat>, b: seq<nat>, before: seq<nat>, after: seq<nat>, full: seq<nat>, j: nat)
    requires j < |p| == |b| == |full| && |before| == |p| - j && after == Row(before, b[..|b| - j], p[j], 0)
    requires full[j..] == Product(p[j..], b[..|b| - j], before)
    ensures full[j] == after[0] && full[j + 1..] == Product(p[j + 1..], b[..|b| - j - 1], after[1..])
  {
    var n := |p|;
    assert p[j..][1..] == p[j + 1..] && b[..n - j][..n - j - 1] == b[..n - j - 1];
    assert full[j..][1..] == full[j + 1..] && full[j] == full[j..][0];
  }

  /** `*=` into an accumulator that starts at zero. */
  method MultiplyLimbs(p: seq<nat>, b: seq<nat>) returns (acc: array<nat>)
    requires |p| == |b| && Limbed(p) && Limbed(b)
    ensures fresh(acc) && acc[..] == Product(p, b, Zeros(|p|))
  {
    hide Product;
    var n := |p|;
    acc := new nat[n](_ => 0);
    ghost var full := Product(p, b, Zeros(n));
    assert acc[..] == Zeros(n) && acc[0..] == acc[..];
    assert p[0..] == p && b[..n] == b && full[0..] == full;
    for j := 0 to n
      invariant acc[..j] == full[..j] && Limbed(acc[..])
      invariant full[j..] == Product(p[j..], b[..n - j], acc[j..])
    {
      ghost var before := acc[j..];
      RowLimbs(acc, j, b, p[j]);
      ProductNext(p, b, before, acc[j..], full, j);
      assert acc[j..][1..] == acc[j + 1..] && acc[j] == acc[j..][0];
    }
    assert acc[..n] == acc[..];
  }

  /** The limbs' parts below `t`, moved up by `u`. */
  function Lows(a: seq<nat>, t: nat, u: nat): (r: seq<nat>)
    requires t > 0
    ensures |r| == |a|
  {
    if a == [] then [] else [a[0] % t * u] + Lows(a[1..], t, u)
  }

  lemma {:induction false} LowsAt(a: seq<nat>, t: nat, u: nat, i: nat)
    requires t > 0 && i < |a|
    ensures Lows(a, t, u)[i] == a[i] % t * u
  {
    if i > 0 { LowsAt(a[1..], t, u, i - 1); }
  }

  /** The limbs' parts from `t` up. */
  function Highs(a: seq<nat>, t: nat): (r: seq<nat>)
    requires t > 0
    ensures |r| == |a|
  {
    if a == [] then [] else [a[0] / t] + Highs(a[1..], t)
  }

  lemma {:induction false} HighsAt(a: seq<nat>, t: nat, i: nat)
    requires t > 0 && i < |a|
    ensures Highs(a, t)[i] == a[i] / t
  {
    if i > 0 { HighsAt(a[1..], t, i - 1); }
  }

  /** What the loop of `<<=` has put into limb `j` after `i` limbs. */
  function UpTo(low: seq<nat>, high: seq<nat>, k: nat, i: nat, j: nat): nat
    requires i <= |low| == |high|
  {
    if j < k || j > k + i then 0 else
      (if j == k then 0 else high[j - k - 1]) + if j == k + i then 0 else low[j - k]
  }

  /** One limb goes up: its low part joins what the limb before left, its high part goes one limb further. */
  method UpOne(pn: array<nat>, k: nat, s: nat, i: nat, low: nat, high: nat)
    requires i < pn.Length && (s == 0 ==> high == 0)
    requires i + k < pn.Length ==> BitOr(pn[i + k], low) == pn[i + k] + low
    requires i + k + 1 < pn.Length ==> pn[i + k + 1] == 0
    modifies pn
    ensures i + k < pn.Length ==> pn[i + k] == old(pn[i + k]) + low
    ensures i + k + 1 < pn.Length ==> pn[i + k + 1] == high
    ensures forall j | 0 <= j < pn.Length && j != i + k && j != i + k + 1 :: pn[j] == old(pn[j])
  {
    if i + k + 1 < pn.Length && s != 0 {
      BitOrZero(high);
      pn[i + k + 1] := BitOr(pn[i + k + 1], high);
    }
    if i + k < pn.Length {
      pn[i + k] := BitOr(pn[i + k], low);
    }
  }

  /** The parts of one limb, and that they fit beside what is there. */
  method PartsUp(a: seq<nat>, i: nat, s: nat) returns (low: nat, high: nat)
    requires Limbed(a) && s < 32 && i < |a|
    ensures low == Lows(a, Pow2(32 - s), Pow2(s))[i] && high == Highs(a, Pow2(32 - s))[i]
    ensures s == 0 ==> high == 0
    ensures BitOr(if i == 0 then 0 else Highs(a, Pow2(32 - s))[i - 1], low) == (if i == 0 then 0
            else Highs(a, Pow2(32 - s))[i - 1]) + low
  {
    ghost var t, u := Pow2(s), Pow2(32 - s);
    Pow2Limb(s);
    LowsAt(a, u, t, i);
    HighsAt(a, u, i);
    LimbQuotient(a[i], t, u);
    if i > 0 {
      HighsAt(a, u, i - 1);
      LimbQuotient(a[i - 1], t, u);
    }
    JoinLow(if i == 0 then 0 else a[i - 1] / u, a[i] % u, s, t);
    low, high := a[i] % Pow2(32 - s) * Pow2(s), a[i] / Pow2(32 - s);
  }

  lemma JoinLow(x: nat, y: nat, s: nat, u: nat)
    requires u == Pow2(s) && x < u
    ensures BitOr(x, y * u) == x + y * u
  {
    BitOrDisjoint(x, y, s);
  }

  /** The loop of `<<=`, into limbs that start at zero. */
  method ShiftUpLimbs(pn: array<nat>, a: seq<nat>, k: nat, s: nat)
    requires pn.Length == |a| && (forall j | 0 <= j < |a| :: pn[j] == 0)
    requires Limbed(a) && s < 32
    modifies pn
    ensures forall j | 0 <= j < |a| :: pn[j] == UpTo(Lows(a, Pow2(32 - s), Pow2(s)), Highs(a, Pow2(32 - s)), k, |a|, j)
  {
    ghost var low, high := Lows(a, Pow2(32 - s), Pow2(s)), Highs(a, Pow2(32 - s));
    for i := 0 to |a|
      invariant forall j | 0 <= j < |a| :: pn[j] == UpTo(low, high, k, i, j)
    {
      var l, h := PartsUp(a, i, s);
      UpOne(pn, k, s, i, l, h);
    }
  }

  /** What the loop of `>>=` has put into limb `j` after `i` limbs. */
  function DownTo(low: seq<nat>, high: seq<nat>, k: nat, i: nat, j: nat): nat
    requires i <= |low| == |high|
  {
    if j + k < i then high[j + k] + if j + k + 1 < i then low[j + k + 1] else 0 else 0
  }

  /** One limb goes down: its low part joins the limb below, its high part starts a limb. */
  method DownOne(pn: array<nat>, k: nat, s: nat, i: nat, low: nat, high: nat)
    requires i < pn.Length && (s == 0 ==> low == 0)
    requires i >= k + 1 ==> BitOr(pn[i - k - 1], low) == pn[i - k - 1] + low
    requires i >= k ==> pn[i - k] == 0
    modifies pn
    ensures i >= k + 1 ==> pn[i - k - 1] == old(pn[i - k - 1]) + low
    ensures i >= k ==> pn[i - k] == high
    ensures forall j | 0 <= j < pn.Length && j + k != i && j + k + 1 != i :: pn[j] == old(pn[j])
  {
    if i >= k + 1 && s != 0 {
      pn[i - k - 1] := BitOr(pn[i - k - 1], low);
    }
    if i >= k {
      BitOrZero(high);
      pn[i - k] := BitOr(pn[i - k], high);
    }
  }

  /** The parts of one limb, and that they fit beside what is there. */
  method PartsDown(a: seq<nat>, i: nat, s: nat) returns (low: nat, high: nat)
    requires Limbed(a) && s < 32 && i < |a|
    ensures low == Lows(a, Pow2(s), Pow2(32 - s))[i] && high == Highs(a, Pow2(s))[i]
    ensures s == 0 ==> low == 0
    ensures i > 0 ==> BitOr(Highs(a, Pow2(s))[i - 1], low) == Highs(a, Pow2(s))[i - 1] + low
  {
    ghost var t, u := Pow2(s), Pow2(32 - s);
    Pow2Limb(s);
    LowsAt(a, t, u, i);
    HighsAt(a, t, i);
    NoLow(a[i], s, t, u);
    if i > 0 {
      HighsAt(a, t, i - 1);
      LimbQuotient(a[i - 1], u, t);
      JoinLow(a[i - 1] / t, a[i] % t, 32 - s, u);
    }
    low, high := a[i] % Pow2(s) * Pow2(32 - s), a[i] / Pow2(s);
  }

  lemma NoLow(x: nat, s: nat, t: nat, u: nat)
    requires t == Pow2(s)
    ensures s == 0 ==> x % t * u == 0
  {
  }

  /** The loop of `>>=`, into limbs that start at zero. */
  method ShiftDownLimbs(pn: array<nat>, a: seq<nat>, k: nat, s: nat)
    requires pn.Length == |a| && (forall j | 0 <= j < |a| :: pn[j] == 0)
    requires Limbed(a) && s < 32
    modifies pn
    ensures forall j | 0 <= j < |a| :: pn[j] == DownTo(Lows(a, Pow2(s), Pow2(32 - s)), Highs(a, Pow2(s)), k, |a|, j)
  {
    ghost var low, high := Lows(a, Pow2(s), Pow2(32 - s)), Highs(a, Pow2(s));
    for i := 0 to |a|
      invariant forall j | 0 <= j < |a| :: pn[j] == DownTo(low, high, k, i, j)
    {
      var l, h := PartsDown(a, i, s);
      DownOne(pn, k, s, i, l, h);
    }
  }

  // ----- The operators -----

  /** `+=`. */
  method AddAssign(pn: array<nat>, b: seq<nat>)
    requires pn.Length == |b| && Limbed(pn[..]) && Limbed(b)
    modifies pn
    ensures Limbed(pn[..]) && Value(pn[..]) == (old(Value(pn[..])) + Value(b)) % Modulus(pn.Length)
  {
    SumValue(pn[..], b, 0);
    AddLimbs(pn, b);
  }

  /** `~`. */
  method Complemented(a: seq<nat>) returns (r: array<nat>)
    requires Limbed(a)
    ensures fresh(r) && r.Length == |a| && Limbed(r[..]) && Value(r[..]) == Modulus(|a|) - 1 - Value(a)
  {
    ComplementValue(a);
    r := ComplementLimbs(a);
    assert |r[..]| == |a|;
  }

  /** `++`. */
  method Increment(pn: array<nat>)
    requires Limbed(pn[..])
    modifies pn
    ensures Limbed(pn[..]) && Value(pn[..]) == (old(Value(pn[..])) + 1) % Modulus(pn.Length)
  {
    IncrementValue(pn[..]);
    IncrementLimbs(pn);
  }

  /** `--`. */
  method Decrement(pn: array<nat>)
    requires Limbed(pn[..])
    modifies pn
    ensures Limbed(pn[..]) && Value(pn[..]) == (old(Value(pn[..])) - 1) % Modulus(pn.Length)
  {
    DecrementValue(pn[..]);
    DecrementLimbs(pn);
  }

  /** Unary `-`. */
  method Negated(a: seq<nat>) returns (r: array<nat>)
    requires Limbed(a)
    ensures fresh(r) && r.Length == |a| && Limbed(r[..]) && Value(r[..]) == (Modulus(|a|) - Value(a)) % Modulus(|a|)
  {
    r := Complemented(a);
    Increment(r);
  }

  /** `-=`. */
  method SubAssign(pn: array<nat>, b: seq<nat>)
    requires pn.Length == |b| && Limbed(pn[..]) && Limbed(b)
    modifies pn
    ensures Limbed(pn[..]) && Value(pn[..]) == (old(Value(pn[..])) - Value(b)) % Modulus(pn.Length)
  {
    var n := Negated(b);
    SubtractByNegation(Value(pn[..]), Value(b), Modulus(|b|));
    AddAssign(pn, n[..]);
  }

  lemma SubtractByNegation(x: int, y: int, m: nat)
    requires m > 0
    ensures (x + (m - y) % m) % m == (x - y) % m
  {
    SumRemainder(x, m - y, m);
    AddMultiple(x - y, 1, m);
  }

  /** `*=` with a 32-bit number. */
  method MulAssign32(pn: array<nat>, b32: nat)
    requires Limbed(pn[..]) && b32 < BASE
    modifies pn
    ensures Limbed(pn[..]) && Value(pn[..]) == (b32 * old(Value(pn[..]))) % Modulus(pn.Length)
  {
    ScaledValue(pn[..], b32, 0);
    ScaleLimbs(pn, b32);
  }

  /** `*=`. */
  method MulAssign(pn: array<nat>, b: seq<nat>)
    requires pn.Length == |b| && Limbed(pn[..]) && Limbed(b)
    modifies pn
    ensures Limbed(pn[..]) && Value(pn[..]) == (old(Value(pn[..])) * Value(b)) % Modulus(pn.Length)
  {
    ZerosValue(|b|);
    ProductValue(pn[..], b, Zeros(|b|));
    var acc := MultiplyLimbs(pn[..], b);
    assert |acc[..]| == pn.Length;
    Assign(pn, acc[..]);
  }

  /** A number assigned to another. */
  method Assign(pn: array<nat>, a: seq<nat>)
    requires |a| == pn.Length
    modifies pn
    ensures pn[..] == a
  {
    for i := 0 to |a|
      invariant pn[..i] == a[..i]
    {
      pn[i] := a[i];
    }
    assert pn[..|a|] == pn[..];
  }

  lemma ZerosValue(n: nat)
    ensures Value(Zeros(n)) == 0
  {
    ZerosBehind([], n);
    assert [] + Zeros(n) == Zeros(n);
  }

  // ----- The shifts -----

  method Clear(pn: array<nat>)
    modifies pn
    ensures forall j | 0 <= j < pn.Length :: pn[j] == 0
  {
    for i := 0 to pn.Length
      invariant forall j | 0 <= j < i :: pn[j] == 0
    {
      pn[i] := 0;
    }
  }

  /** `<<=`. */
  method ShiftLeftAssign(pn: array<nat>, shift: nat)
    requires Limbed(pn[..])
    modifies pn
    ensures Limbed(pn[..]) && Value(pn[..]) == (old(Value(pn[..])) * Pow2(shift)) % Modulus(pn.Length)
  {
    var a := pn[..];
    Clear(pn);
    var k, s := shift / 32, shift % 32;
    ShiftUpLimbs(pn, a, k, s);
    if k <= |a| {
      ShiftedUpBy(a, pn[..], k, s, Pow2(s), Pow2(32 - s));
    } else {
      ShiftedOut(a, pn[..], shift);
    }
  }

  lemma ShiftedUpBy(a: seq<nat>, r: seq<nat>, k: nat, s: nat, t: nat, u: nat)
    requires Limbed(a) && |r| == |a| && k <= |a| && s < 32 && t == Pow2(s) && u == Pow2(32 - s)
    requires forall j | 0 <= j < |a| :: r[j] == UpTo(Lows(a, u, t), Highs(a, u), k, |a|, j)
    ensures Limbed(r) && Value(r) == (Value(a) * Pow2(32 * k + s)) % Modulus(|a|)
  {
    var low := a[..|a| - k];
    var up := ShiftedUp(low, t, u, 0);
    forall j | k <= j < |a|
      ensures r[j] == up[j - k]
    {
      ShiftedUpAt(low, t, u, 0, j - k);
      LowsAt(a, u, t, j - k);
      if j > k { HighsAt(a, u, j - k - 1); }
    }
    assert r == Zeros(k) + up;
    Pow2Limb(s);
    ShiftedUpScales(low, t, u, 0);
    ShiftUpValue(a, k, t);
    ShiftFactor(k, s);
  }

  lemma ShiftFactor(k: nat, s: nat)
    ensures Modulus(k) * Pow2(s) == Pow2(32 * k + s)
  {
    ModulusIsPow2(k);
    Pow2Sum(32 * k, s);
  }

  lemma ShiftedOut(a: seq<nat>, r: seq<nat>, shift: nat)
    requires |r| == |a| && shift >= 32 * |a| && forall j | 0 <= j < |a| :: r[j] == 0
    ensures Limbed(r) && Value(r) == 0 == (Value(a) * Pow2(shift)) % Modulus(|a|)
  {
    var n := |a|;
    assert r == Zeros(n) + [] && Scaled(a[..n - n], Pow2(shift - 32 * n), 0) == [];
    ZerosInFront(n, []);
    ShiftUpValue(a, n, Pow2(shift - 32 * n));
    ShiftFactor(n, shift - 32 * n);
  }

  /** `>>=`. */
  method ShiftRightAssign(pn: array<nat>, shift: nat)
    requires Limbed(pn[..])
    modifies pn
    ensures Limbed(pn[..]) && Value(pn[..]) == old(Value(pn[..])) / Pow2(shift)
  {
    var a := pn[..];
    Clear(pn);
    var k, s := shift / 32, shift % 32;
    ShiftDownLimbs(pn, a, k, s);
    if k <= |a| {
      ShiftedDownBy(a, pn[..], k, s, Pow2(s), Pow2(32 - s));
    } else {
      ShiftedAway(a, pn[..], shift);
    }
  }

  lemma ShiftedDownBy(a: seq<nat>, r: seq<nat>, k: nat, s: nat, t: nat, u: nat)
    requires Limbed(a) && |r| == |a| && k <= |a| && s < 32 && t == Pow2(s) && u == Pow2(32 - s)
    requires forall j | 0 <= j < |a| :: r[j] == DownTo(Lows(a, t, u), Highs(a, t), k, |a|, j)
    ensures Limbed(r) && Value(r) == Value(a) / Pow2(32 * k + s)
  {
    var down := ShiftedDown(a[k..], t, u);
    Pow2Limb(s);
    forall j | 0 <= j < |a| - k
      ensures r[j] == down[j] < BASE
    {
      ShiftedDownAt(a[k..], t, u, j);
      HighsAt(a, t, j + k);
      if j + k + 1 < |a| { LowsAt(a, t, u, j + k + 1); }
      DownFits(a, t, u, j + k);
    }
    assert r == down + Zeros(k);
    ShiftDownValue(a, k, t, u);
    ShiftFactor(k, s);
  }

  lemma DownFits(a: seq<nat>, t: nat, u: nat, m: nat)
    requires m < |a| && Limbed(a) && t > 0 && t * u == BASE
    ensures DownLimb(a, t, u, m) < BASE
  {
    LimbQuotient(a[m], u, t);
    if m + 1 < |a| {
      Monotone(a[m + 1] % t, t - 1, u);
    } else {
      Monotone(1, t, u);
    }
  }

  lemma ShiftedAway(a: seq<nat>, r: seq<nat>, shift: nat)
    requires Limbed(a) && |r| == |a| && shift >= 32 * |a| && forall j | 0 <= j < |a| :: r[j] == 0
    ensures Limbed(r) && Value(r) == 0 == Value(a) / Pow2(shift)
  {
    var n := |a|;
    assert r == [] + Zeros(n);
    ZerosBehind([], n);
    ValueInRange(a);
    WholeShift(n, shift);
    RemainderIs(Value(a), Pow2(shift), 0, Value(a));
  }

  lemma WholeShift(n: nat, shift: nat)
    requires shift >= 32 * n
    ensures Modulus(n) <= Pow2(shift)
  {
    ShiftFactor(n, shift - 32 * n);
    Monotone(1, Pow2(shift - 32 * n), Modulus(n));
  }
}
