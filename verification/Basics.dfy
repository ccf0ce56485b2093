/** What several of the models share. */
module Basics {
  datatype Option<+T> = None | Some(value: T)

  const TWO32 := 0x1_0000_0000

  function Pow2(k: nat): (p: nat)
    ensures p > 0
  {
    if k == 0 then 1 else 2 * Pow2(k - 1)
  }

  lemma Monotone(a: nat, b: nat, c: nat)
    ensures a <= b ==> a * c <= b * c
  {
  }

  /** A 32-bit number scaled down to `n` places without a division: the high half of a 64-bit product. */
  function FastRange(x: nat, n: nat): nat { x * n / TWO32 }

  lemma FastRangeFits(x: nat, n: nat)
    requires x < TWO32 && n > 0
    ensures FastRange(x, n) < n
  {
    ProductBelow(x, n);
    QuotientInRange(x * n, n);
  }

  lemma ProductBelow(x: nat, n: nat)
    requires x < TWO32 && n > 0
    ensures x * n < TWO32 * n
  {
  }

  lemma QuotientInRange(y: nat, n: nat)
    requires y < TWO32 * n
    ensures y / TWO32 < n
  {
  }

  lemma {:induction false} SubsetSize<T>(s: set<T>, u: set<T>)
    requires s <= u
    ensures |s| <= |u|
    decreases |s|
  {
    if s != {} {
      var x :| x in s;
      SubsetSize(s - {x}, u - {x});
    }
  }
}
