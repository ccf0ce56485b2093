/** Single bits of bytes, least significant first. */
module Bits {

  predicate Bit(b: bv8, k: nat)
    requires k < 8
  {
    b & (1 as bv8 << k) != 0
  }

  lemma Shifts()
    ensures 1 as bv8 << 0 == 1 && 1 as bv8 << 1 == 2 && 1 as bv8 << 2 == 4 && 1 as bv8 << 3 == 8
    ensures 1 as bv8 << 4 == 16 && 1 as bv8 << 5 == 32 && 1 as bv8 << 6 == 64 && 1 as bv8 << 7 == 128
  {
  }

  lemma MasksApart(k: nat, j: nat)
    requires k < 8 && j < 8
    ensures 1 as bv8 << k != 0
    ensures k != j ==> (1 as bv8 << k) & (1 as bv8 << j) == 0
  {
    Shifts();
  }

  lemma AndOr(b: bv8, x: bv8, y: bv8)
    ensures x & y == 0 ==> (b | x) & y == b & y
    ensures (b | x) & x == x
  {
  }

  /** Setting a bit sets that bit and no other. */
  lemma SetBit(b: bv8, k: nat, j: nat)
    requires k < 8 && j < 8
    ensures Bit(b | (1 as bv8 << k), j) <==> (j == k || Bit(b, j))
  {
    MasksApart(k, j);
    AndOr(b, 1 as bv8 << k, 1 as bv8 << j);
    AndOr(b, 1 as bv8 << k, 1 as bv8 << k);
  }

  lemma AndNot(b: bv8, x: bv8, y: bv8)
    ensures x & y == 0 ==> (b & !x) & y == b & y
    ensures (b & !x) & x == 0
  {
  }

  /** Clearing a bit clears that bit and no other. */
  lemma ClearBit(b: bv8, k: nat, j: nat)
    requires k < 8 && j < 8
    ensures Bit(b & !(1 as bv8 << k), j) <==> (j != k && Bit(b, j))
  {
    MasksApart(k, j);
    AndNot(b, 1 as bv8 << k, 1 as bv8 << j);
    AndNot(b, 1 as bv8 << k, 1 as bv8 << k);
  }
}
