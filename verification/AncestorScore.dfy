/**
 The order in which packages are considered (`CompareTxMemPoolEntryByAncestorFee` of `src/txmempool.h`) and the fee
 they have to pay (`src/policy/feerate.cpp`): what is known of all the other candidates when the best one does not pay.
 */
module AncestorScore {
  import opened PackageSelection

  /** A fee over a size. */
  datatype Score = Score(fee: int, size: int)

  /** `GetModFeeAndSize`: the fee rate of the transaction, or that of its package if it is lower. */
  function ScoreOf(p: MemPool, t: Tx, e: Totals): Score {
    if At(p.modFee, t) * e.size > e.modFees * At(p.size, t) then Score(e.modFees, e.size)
      else Score(At(p.modFee, t), At(p.size, t))
  }

  /** `CompareTxMemPoolEntryByAncestorFee`, without rounding: the higher rate first, and on a tie the lower hash. */
  predicate Higher(a: Score, t: Tx, b: Score, u: Tx) {
    if a.fee * b.size == a.size * b.fee then t < u else a.fee * b.size > a.size * b.fee
  }

  /** One rate is at most another. */
  predicate AtMost(a: Score, b: Score) { a.fee * b.size <= b.fee * a.size }

  lemma Scaled(x: int, y: int, k: int)
    requires x <= y && k >= 0
    ensures x * k <= y * k
  {
  }

  lemma Unscaled(x: int, y: int, k: int)
    requires x * k <= y * k && k > 0
    ensures x <= y
  {
  }

  lemma Turned(x: int, y: int, z: int)
    ensures x * y * z == x * z * y
  {
  }

  lemma AtMostTransitive(a: Score, b: Score, c: Score)
    requires a.size > 0 && b.size > 0 && c.size > 0 && AtMost(a, b) && AtMost(b, c)
    ensures AtMost(a, c)
    ensures AtMost(c, a) ==> AtMost(b, a) && AtMost(c, b)
  {
    Chained(a, b, c);
    if AtMost(c, a) {
      Chained(b, c, a);
      Chained(c, a, b);
    }
  }

  lemma Chained(a: Score, b: Score, c: Score)
    requires a.size > 0 && b.size > 0 && c.size > 0 && AtMost(a, b) && AtMost(b, c)
    ensures AtMost(a, c)
  {
    Scaled(a.fee * b.size, b.fee * a.size, c.size);
    Scaled(b.fee * c.size, c.fee * b.size, a.size);
    Turned(a.fee, b.size, c.size);
    Turned(b.fee, a.size, c.size);
    Turned(c.fee, b.size, a.size);
    Unscaled(a.fee * c.size, c.fee * a.size, b.size);
  }

  lemma HigherIs(a: Score, t: Tx, b: Score, u: Tx)
    ensures Higher(a, t, b, u) <==> AtMost(b, a) && (AtMost(a, b) ==> t < u)
  {
  }

  /** The order is strict and total. */
  lemma HigherTransitive(a: Score, t: Tx, b: Score, u: Tx, c: Score, v: Tx)
    requires a.size > 0 && b.size > 0 && c.size > 0 && Higher(a, t, b, u) && Higher(b, u, c, v)
    ensures Higher(a, t, c, v)
  {
    HigherIs(a, t, b, u);
    HigherIs(b, u, c, v);
    HigherIs(a, t, c, v);
    AtMostTransitive(c, b, a);
  }

  lemma HigherTotal(a: Score, t: Tx, b: Score, u: Tx)
    ensures !(Higher(a, t, b, u) && Higher(b, u, a, t))
    ensures t != u ==> Higher(a, t, b, u) || Higher(b, u, a, t)
  {
    HigherIs(a, t, b, u);
    HigherIs(b, u, a, t);
  }

  /** The score is the lower one of the two rates. */
  lemma ScoreIsLower(p: MemPool, t: Tx, e: Totals)
    requires At(p.size, t) > 0 && e.size > 0
    ensures var s := ScoreOf(p, t, e);
            && s.size > 0 && AtMost(s, Score(e.modFees, e.size)) && AtMost(s, Score(At(p.modFee, t), At(p.size, t)))
            && (s == Score(e.modFees, e.size) || s == Score(At(p.modFee, t), At(p.size, t)))
  {
  }

  /** Both sizes of an entry are positive. */
  ghost predicate Sized(p: MemPool, m: Modified, t: Tx) { At(p.size, t) > 0 && Base(p, m, t).size > 0 }

  /** One candidate comes before another, under the totals that they are considered with. */
  ghost predicate Precedes(p: MemPool, m: Modified, t: Tx, u: Tx) {
    Higher(ScoreOf(p, t, Base(p, m, t)), t, ScoreOf(p, u, Base(p, m, u)), u)
  }

  lemma PrecedesTransitive(p: MemPool, m: Modified, t: Tx, u: Tx, v: Tx)
    requires Sized(p, m, t) && Sized(p, m, u) && Sized(p, m, v) && Precedes(p, m, t, u) && Precedes(p, m, u, v)
    ensures Precedes(p, m, t, v)
  {
    hide ScoreOf, Higher;
    ScoreIsLower(p, t, Base(p, m, t));
    ScoreIsLower(p, u, Base(p, m, u));
    ScoreIsLower(p, v, Base(p, m, v));
    HigherTransitive(ScoreOf(p, t, Base(p, m, t)), t, ScoreOf(p, u, Base(p, m, u)), u, ScoreOf(p, v, Base(p, m, v)), v);
  }

  lemma PrecedesTotal(p: MemPool, m: Modified, t: Tx, u: Tx)
    ensures !(Precedes(p, m, t, u) && Precedes(p, m, u, t)) && (t != u ==> Precedes(p, m, t, u) || Precedes(p, m, u, t))
  {
    hide ScoreOf, Higher;
    HigherTotal(ScoreOf(p, t, Base(p, m, t)), t, ScoreOf(p, u, Base(p, m, u)), u);
  }

  /** What does not come before something that does not come before a third does not come before that. */
  lemma NotPreceded(p: MemPool, m: Modified, t: Tx, u: Tx, v: Tx)
    requires Sized(p, m, t) && Sized(p, m, u) && Sized(p, m, v) && !Precedes(p, m, t, u) && !Precedes(p, m, u, v)
    ensures !Precedes(p, m, t, v)
  {
    hide Precedes, Sized;
    PrecedesTotal(p, m, t, u);
    PrecedesTotal(p, m, u, v);
    PrecedesTotal(p, m, t, v);
    if t != u && u != v && Precedes(p, m, t, v) { PrecedesTransitive(p, m, u, t, v); }
  }

  /** Some candidate comes before all the others. */
  lemma {:induction false} FirstOf(p: MemPool, m: Modified, s: set<Tx>) returns (t: Tx)
    requires s != {} && forall u | u in s :: Sized(p, m, u)
    ensures t in s && forall u | u in s :: !Precedes(p, m, u, t)
    decreases |s|
  {
    hide Precedes, Sized;
    var v :| v in s;
    PrecedesTotal(p, m, v, v);
    t := v;
    if s - {v} != {} {
      var r := FirstOf(p, m, s - {v});
      PrecedesTotal(p, m, v, r);
      if Precedes(p, m, r, v) {
        t := r;
      } else {
        forall u | u in s - {v} ensures !Precedes(p, m, u, v) { NotPreceded(p, m, u, r, v); }
      }
    }
  }

  // ----- The fee to pay -----

  const BASE_MWEB_FEE := 100

  /** Division that rounds towards 0. */
  function Quotient(x: int, d: nat): int
    requires d > 0
  {
    if x >= 0 then x / d else -(-x / d)
  }

  /** `GetFee`. */
  function GetFee(perK: int, size: int): int {
    var fee := Quotient(perK * size, 1000);
    if fee == 0 && size != 0 then (if perK > 0 then 1 else if perK < 0 then -1 else 0) else fee
  }

  /** `GetTotalFee`. */
  function GetTotalFee(perK: int, size: int, mweb: int): int { GetFee(perK, size) + mweb * BASE_MWEB_FEE }

  /** A rate is below so much per thousand bytes. */
  predicate Below(s: Score, perK: int) { 1000 * s.fee < perK * s.size }

  lemma ProductPositive(x: int, y: int)
    requires x > 0 && y > 0
    ensures x * y > 0
  {
  }

  /** Less than the fee for a size is a lower rate; the rate as such falls short of that fee by rounding only. */
  lemma FeeIsRate(perK: int, size: int, fee: int)
    requires perK >= 0 && size > 0
    ensures fee < GetFee(perK, size) ==> Below(Score(fee, size), perK)
    ensures Below(Score(fee, size), perK) ==> fee <= GetFee(perK, size)
    ensures perK * size % 1000 == 0 ==> (fee < GetFee(perK, size) <==> Below(Score(fee, size), perK))
  {
    if perK > 0 { ProductPositive(perK, size); }
    var x := perK * size;
    assert perK == 0 ==> x == 0;
    assert x == 1000 * (x / 1000) + x % 1000;
  }

  lemma BelowAtMost(a: Score, b: Score, perK: int)
    requires a.size > 0 && b.size > 0 && AtMost(a, b) && Below(b, perK)
    ensures Below(a, perK)
  {
    if !Below(a, perK) {
      Scaled(perK * a.size, 1000 * a.fee, b.size);
      Strictly(1000 * b.fee, perK * b.size, a.size);
      Turned(perK, a.size, b.size);
    }
  }

  lemma Strictly(x: int, y: int, k: int)
    requires x < y && k > 0
    ensures x * k < y * k
  {
  }

  /** The totals of a candidate pass the test of the fee. */
  predicate PaysFee(perK: int, e: Totals) { e.modFees >= GetTotalFee(perK, e.size, e.mweb) }

  /**
   When a candidate without MWEB weight does not pay, the score of every candidate that it is not below is under the
   minimum rate.
   */
  lemma ScoresBelow(p: MemPool, perK: int, t: Tx, e: Totals, u: Tx, f: Totals)
    requires perK >= 0 && At(p.size, t) > 0 && e.size > 0 && At(p.size, u) > 0 && f.size > 0
    requires e.mweb == 0 && !PaysFee(perK, e) && !Higher(ScoreOf(p, u, f), u, ScoreOf(p, t, e), t)
    ensures Below(ScoreOf(p, u, f), perK)
  {
    var a, b, c := ScoreOf(p, u, f), ScoreOf(p, t, e), Score(e.modFees, e.size);
    ScoreIsLower(p, t, e);
    ScoreIsLower(p, u, f);
    HigherIs(a, u, b, t);
    assert AtMost(a, b);
    Chained(a, b, c);
    FeeIsRate(perK, e.size, e.modFees);
    BelowAtMost(a, c, perK);
  }

  /**
   Which candidates whose score is under the minimum rate pay for their packages all the same: of those that reach
   that rate themselves, the ones that only pay by rounding; of the others, whichever have a package that pays.
   */
  lemma PaysAnyway(p: MemPool, perK: int, u: Tx, f: Totals)
    requires perK >= 0 && At(p.size, u) > 0 && f.size > 0 && f.mweb >= 0 && Below(ScoreOf(p, u, f), perK)
    ensures !Below(Score(At(p.modFee, u), At(p.size, u)), perK) ==>
              && (PaysFee(perK, f) <==> f.modFees == GetFee(perK, f.size) && f.mweb == 0)
              && (PaysFee(perK, f) ==> perK * f.size % 1000 != 0)
  {
    ScoreIsLower(p, u, f);
    FeeIsRate(perK, f.size, f.modFees);
  }

  // ----- A package that is missed -----

  /** Four transactions of one size: 1 and 2 spend 0, and 3 spends all of them. */
  ghost function Missed(size: int, fee: map<Tx, int>): MemPool {
    var sizes := map[0 := size, 1 := size, 2 := size, 3 := size];
    var p := MemPool({0, 1, 2, 3}, map[1 := {0}, 2 := {0}, 3 := {0, 1, 2}], sizes,
                     map[0 := 4 * size, 1 := 4 * size, 2 := 4 * size, 3 := 4 * size], map[], map[], fee, fee, map[],
                     {0, 1, 2, 3}, {}, {}, {});
    p.(withAncestors := map t | t in p.txs :: TotalsOf(p, Package(p, t)))
  }

  lemma MissedOk(size: int, fee: map<Tx, int>)
    requires size > 0
    ensures PoolOk(Missed(size, fee))
  {
    var p := Missed(size, fee);
    forall t ensures EntryOk(p, t) {
      assert t in p.txs ==> p.withAncestors[t] == TotalsOf(p, Package(p, t));
    }
  }

  lemma SumOne(t: Tx, f: map<Tx, int>)
    ensures Sum({t}, f) == At(f, t)
  {
    SumRemove({t}, t, f);
    assert {t} - {t} == {};
  }

  lemma SumTwo(t: Tx, u: Tx, f: map<Tx, int>)
    requires t != u
    ensures Sum({t, u}, f) == At(f, t) + At(f, u)
  {
    SumOne(t, f);
    SumAdd({t}, u, f);
    assert {t} + {u} == {t, u};
  }

  lemma SumFour(f: map<Tx, int>)
    ensures Sum({0, 1, 2, 3}, f) == At(f, 0) + At(f, 1) + At(f, 2) + At(f, 3)
  {
    SumTwo(0, 1, f);
    SumAdd({0, 1}, 2, f);
    SumAdd({0, 1} + {2}, 3, f);
    assert {0, 1} + {2} + {3} == {0, 1, 2, 3};
  }

  /** What the fees of a package of it and its size are. */
  lemma MissedTotals(size: int, fee: map<Tx, int>, p: MemPool)
    requires size > 0 && p == Missed(size, fee)
    ensures Cached(p, 0).size == size && Cached(p, 1).size == Cached(p, 2).size == 2 * size
            && Cached(p, 3).size == 4 * size
    ensures Cached(p, 0).modFees == At(fee, 0) && Cached(p, 1).modFees == At(fee, 0) + At(fee, 1)
    ensures Cached(p, 2).modFees == At(fee, 0) + At(fee, 2)
    ensures Cached(p, 3).modFees == At(fee, 0) + At(fee, 1) + At(fee, 2) + At(fee, 3)
  {
    assert Package(p, 0) == {0} && Package(p, 1) == {0, 1} && Package(p, 2) == {0, 2} && Package(p, 3) == {0, 1, 2, 3};
    SumOne(0, p.size);
    SumOne(0, fee);
    SumTwo(0, 1, p.size);
    SumTwo(0, 1, fee);
    SumTwo(0, 2, p.size);
    SumTwo(0, 2, fee);
    SumFour(p.size);
    SumFour(fee);
  }

  lemma {:induction false} SumNothing(s: set<Tx>)
    ensures Sum(s, map[]) == 0
    decreases |s|
  {
    if s != {} {
      var t :| t in s;
      SumRemove(s, t, map[]);
      SumNothing(s - {t});
    }
  }

  /**
   The best candidate need not be the one whose package pays best: here it is 1, which does not pay for 0, while 3
   pays for all the others although it pays little itself.
   */
  lemma PackageMissed(fee: map<Tx, int>, p: MemPool)
    requires fee == map[0 := 0, 1 := 19, 2 := 19, 3 := 5] && p == Missed(10, fee)
    ensures PoolOk(p) && FeesAgree(p)
    ensures forall u | u in p.txs && u != 1 :: Higher(ScoreOf(p, 1, Cached(p, 1)), 1, ScoreOf(p, u, Cached(p, u)), u)
    ensures Cached(p, 1).mweb == 0 && !PaysFee(1000, Cached(p, 1)) && PaysFee(1000, Cached(p, 3))
  {
    MissedOk(10, fee);
    MissedTotals(10, fee, p);
    SumNothing(Package(p, 1));
    SumNothing(Package(p, 3));
    var a := Score(19, 20);
    assert ScoreOf(p, 1, Cached(p, 1)) == a && ScoreOf(p, 2, Cached(p, 2)) == a;
    assert ScoreOf(p, 0, Cached(p, 0)) == Score(0, 10) && ScoreOf(p, 3, Cached(p, 3)) == Score(5, 10);
    forall u | u in p.txs && u != 1 ensures Higher(a, 1, ScoreOf(p, u, Cached(p, u)), u) {
      assert u == 0 || u == 2 || u == 3;
    }
  }
}
