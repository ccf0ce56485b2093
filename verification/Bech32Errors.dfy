/**
 Up to three wrong symbols (`src/bech32.cpp`): the generator of the code has three successive members of a geometric
 progression in the field of 1024 elements among its roots, so no three symbols within a window of 1023 cancel each
 other.
 */
module Bech32Errors {
  import opened Basics
  import opened Bech32
  import opened Bech32Cross
  import opened Field1024

  // ----- Evaluation of a state at a point -----

  function Embed(b: seq<bool>): Element
    requires |b| == 5
  {
    Plus(Part(b[0], 0x1), Plus(Part(b[1], 0x14d), Plus(Part(b[2], 0x283), Plus(Part(b[3], 0x267), Part(b[4], 0x122)))))
  }

  /** The state as a polynomial whose coefficients are its symbols, the lowest first. */
  function Ev(r: Element, b: seq<bool>): Element {
    if |b| < 5 then 0 else Plus(Embed(b[..5]), Mul(r, Ev(r, b[5..])))
  }

  lemma PartChanged(a: bool, b: bool, c: bool, w: Element)
    requires c == (a != b)
    ensures Part(c, w) == Plus(Part(a, w), Part(b, w))
  {
    hide Plus;
    PartDiffers(a, b, w);
  }

  lemma EmbedSum(a: seq<bool>, b: seq<bool>, c: seq<bool>)
    requires |a| == |b| == |c| == 5 && forall i | 0 <= i < 5 :: c[i] == (a[i] != b[i])
    ensures Embed(c) == Plus(Embed(a), Embed(b))
  {
    hide Plus, Part;
    PartChanged(a[0], b[0], c[0], 0x1);
    PartChanged(a[1], b[1], c[1], 0x14d);
    PartChanged(a[2], b[2], c[2], 0x283);
    PartChanged(a[3], b[3], c[3], 0x267);
    PartChanged(a[4], b[4], c[4], 0x122);
    FiveSums(Part(a[0], 0x1), Part(a[1], 0x14d), Part(a[2], 0x283), Part(a[3], 0x267), Part(a[4], 0x122),
             Part(b[0], 0x1), Part(b[1], 0x14d), Part(b[2], 0x283), Part(b[3], 0x267), Part(b[4], 0x122));
  }

  lemma FiveSums(a: Element, b: Element, c: Element, d: Element, e: Element, p: Element, q: Element, r: Element,
                 s: Element, t: Element)
    ensures Plus(Plus(a, p), Plus(Plus(b, q), Plus(Plus(c, r), Plus(Plus(d, s), Plus(e, t))))) ==
            Plus(Plus(a, Plus(b, Plus(c, Plus(d, e)))), Plus(p, Plus(q, Plus(r, Plus(s, t)))))
  {
    hide Plus;
    TwoSums(d, e, s, t);
    TwoSums(c, Plus(d, e), r, Plus(s, t));
    TwoSums(b, Plus(c, Plus(d, e)), q, Plus(r, Plus(s, t)));
    TwoSums(a, Plus(b, Plus(c, Plus(d, e))), p, Plus(q, Plus(r, Plus(s, t))));
  }

  lemma {:induction false} EvSum(r: Element, a: seq<bool>, b: seq<bool>, c: seq<bool>)
    requires |a| == |b| == |c| && forall i | 0 <= i < |c| :: c[i] == (a[i] != b[i])
    ensures Ev(r, c) == Plus(Ev(r, a), Ev(r, b))
    decreases |c|
  {
    hide Plus, Mul, Embed;
    if |c| < 5 {
      NothingAdded(0, 0);
    } else {
      EmbedSum(a[..5], b[..5], c[..5]);
      EvSum(r, a[5..], b[5..], c[5..]);
      var p, q := Ev(r, a[5..]), Ev(r, b[5..]);
      MulSum(r, p, q);
      TwoSums(Embed(a[..5]), Mul(r, p), Embed(b[..5]), Mul(r, q));
    }
  }

  lemma {:induction false} EvZero(r: Element, b: seq<bool>)
    requires forall i | 0 <= i < |b| :: !b[i]
    ensures Ev(r, b) == 0
    decreases |b|
  {
    hide Mul;
    if |b| >= 5 {
      EvZero(r, b[5..]);
      MulZero(r);
    }
  }

  lemma EvTimes(r: Element, t: bool, g: State)
    ensures Ev(r, Times(t, g)) == Part(t, Ev(r, g))
  {
    hide Ev;
    if t {
      assert Times(t, g) == g;
    } else {
      EvZero(r, Times(t, g));
    }
  }

  lemma EvFive(r: Element, b: seq<bool>)
    requires |b| == 5
    ensures Ev(r, b) == Embed(b)
  {
    hide Mul;
    assert b[..5] == b && b[5..] == [];
    MulZero(r);
  }

  lemma {:induction false} EvSplit(r: Element, a: seq<bool>, b: seq<bool>, n: nat)
    requires |a| == 5 * n
    ensures Ev(r, a + b) == Plus(Ev(r, a), Mul(Exp(r, n), Ev(r, b)))
    decreases n
  {
    hide Plus, Mul, Embed;
    if n == 0 {
      assert a + b == b;
      OneMul(Ev(r, b));
      NothingAdded(0, Ev(r, b));
    } else {
      var c := a[5..];
      assert (a + b)[..5] == a[..5] && (a + b)[5..] == c + b;
      EvSplit(r, c, b, n - 1);
      var p, q := Ev(r, c), Mul(Exp(r, n - 1), Ev(r, b));
      MulSum(r, p, q);
      MulAssociates(r, Exp(r, n - 1), Ev(r, b));
      Grouped(Embed(a[..5]), Mul(r, p), Mul(r, q));
    }
  }

  lemma Grouped(a: Element, b: Element, c: Element)
    ensures Plus(a, Plus(b, c)) == Plus(Plus(a, b), c)
  {
  }

  /** At a root of the generator the multiples of the generator are what they stand for. */
  ghost predicate Root(g: Generators, r: Element) {
    var p := Exp(r, 6);
    && Ev(r, g[0]) == Mul(p, 0x1) && Ev(r, g[1]) == Mul(p, 0x14d) && Ev(r, g[2]) == Mul(p, 0x283)
       && Ev(r, g[3]) == Mul(p, 0x267)
    && Ev(r, g[4]) == Mul(p, 0x122)
  }

  lemma EvXor(r: Element, a: State, b: State)
    ensures Ev(r, Xor(a, b)) == Plus(Ev(r, a), Ev(r, b))
  {
    hide Plus, Ev;
    EvSum(r, a, b, Xor(a, b));
  }

  lemma MulPart(k: Element, b: bool, w: Element)
    ensures Mul(k, Part(b, w)) == Part(b, Mul(k, w))
  {
    hide Mul;
    MulZero(k);
  }

  lemma MulEmbed(k: Element, b: seq<bool>)
    requires |b| == 5
    ensures Mul(k, Embed(b)) == Plus(Part(b[0], Mul(k, 0x1)),
                                     Plus(Part(b[1], Mul(k, 0x14d)), Plus(Part(b[2], Mul(k, 0x283)),
                                Plus(Part(b[3], Mul(k, 0x267)), Part(b[4], Mul(k, 0x122))))))
  {
    hide Plus, Part, Mul;
    var d := Plus(Part(b[3], 0x267), Part(b[4], 0x122));
    var c := Plus(Part(b[2], 0x283), d);
    var e := Plus(Part(b[1], 0x14d), c);
    MulSum(k, Part(b[0], 0x1), e);
    MulSum(k, Part(b[1], 0x14d), c);
    MulSum(k, Part(b[2], 0x283), d);
    MulSum(k, Part(b[3], 0x267), Part(b[4], 0x122));
    MulPart(k, b[0], 0x1);
    MulPart(k, b[1], 0x14d);
    MulPart(k, b[2], 0x283);
    MulPart(k, b[3], 0x267);
    MulPart(k, b[4], 0x122);
  }

  lemma EvFeedbackParts(g: Generators, r: Element, c: State)
    ensures Ev(r, Feedback(g, c)) == Plus(Part(c[25], Ev(r, g[0])), Plus(Part(c[26], Ev(r, g[1])),
              Plus(Part(c[27], Ev(r, g[2])), Plus(Part(c[28], Ev(r, g[3])), Part(c[29], Ev(r, g[4]))))))
  {
    hide Plus, Part, Ev;
    EvTimes(r, c[25], g[0]);
    EvTimes(r, c[26], g[1]);
    EvTimes(r, c[27], g[2]);
    EvTimes(r, c[28], g[3]);
    EvTimes(r, c[29], g[4]);
    EvFiveStates(r, Times(c[25], g[0]), Times(c[26], g[1]), Times(c[27], g[2]), Times(c[28], g[3]), Times(c[29], g[4]));
  }

  /** The sum of what the five leaving bits stand for. */
  lemma EvFeedback(g: Generators, r: Element, c: State)
    requires Root(g, r)
    ensures Ev(r, Feedback(g, c)) == Mul(Exp(r, 6), Embed(c[25..]))
  {
    hide Plus, Part, Mul, Exp, Ev;
    EvFeedbackParts(g, r, c);
    MulEmbed(Exp(r, 6), c[25..]);
  }

  lemma EvFiveStates(r: Element, a: State, b: State, c: State, d: State, e: State)
    ensures Ev(r, Xor(Xor(Xor(Xor(a, b), c), d), e)) == Plus(Ev(r, a),
                                                             Plus(Ev(r, b), Plus(Ev(r, c), Plus(Ev(r, d), Ev(r, e)))))
  {
    hide Plus, Ev;
    var x := Xor(a, b);
    var y := Xor(x, c);
    var z := Xor(y, d);
    EvXor(r, a, b);
    EvXor(r, x, c);
    EvXor(r, y, d);
    EvXor(r, z, e);
    Grouped(Ev(r, y), Ev(r, d), Ev(r, e));
    Grouped(Ev(r, x), Ev(r, c), Plus(Ev(r, d), Ev(r, e)));
    Grouped(Ev(r, a), Ev(r, b), Plus(Ev(r, c), Plus(Ev(r, d), Ev(r, e))));
  }

  lemma EvShift(r: Element, c: State, s: Symbol)
    ensures Ev(r, Shift(c, s)) == Plus(Embed(Bits(s, 5)), Mul(r, Ev(r, c[..25])))
  {
    hide Plus, Mul, Embed;
    var b := Shift(c, s);
    assert b[..5] == Bits(s, 5) && b[5..] == c[..25];
  }

  lemma EvTop(r: Element, c: State)
    ensures Mul(r, Ev(r, c)) == Plus(Mul(r, Ev(r, c[..25])), Mul(Exp(r, 6), Embed(c[25..])))
  {
    hide Plus, Mul, Ev, Embed;
    var a, t := c[..25], c[25..];
    assert a + t == c;
    EvSplit(r, a, t, 5);
    EvFive(r, t);
    MulSum(r, Ev(r, a), Mul(Exp(r, 5), Embed(t)));
    MulAssociates(r, Exp(r, 5), Embed(t));
  }

  /** At a root, a step multiplies by the root and adds the symbol: the reduction is not seen. */
  lemma EvStep(g: Generators, r: Element, c: State, s: Symbol)
    requires Root(g, r)
    ensures Ev(r, Step(g, c, s)) == Plus(Mul(r, Ev(r, c)), Embed(Bits(s, 5)))
  {
    hide Plus, Mul, Ev, Embed, Exp;
    EvXor(r, Shift(c, s), Feedback(g, c));
    EvShift(r, c, s);
    EvFeedback(g, r, c);
    EvTop(r, c);
    Exchanged(Embed(Bits(s, 5)), Mul(r, Ev(r, c[..25])), Mul(Exp(r, 6), Embed(c[25..])));
  }

  lemma Exchanged(a: Element, b: Element, c: Element)
    ensures Plus(Plus(a, b), c) == Plus(Plus(b, c), a)
  {
  }

  /** The element that a symbol stands for. */
  function Images(v: seq<Symbol>): (e: seq<Element>)
    ensures |e| == |v|
  {
    seq(|v|, i requires 0 <= i < |v| => Embed(Bits(v[i], 5)))
  }

  /** The polynomial with these coefficients, the highest first. */
  function Poly(r: Element, e: seq<Element>): Element {
    if e == [] then 0 else Plus(Mul(Exp(r, |e| - 1), e[0]), Poly(r, e[1..]))
  }

  lemma Ahead(p: Element, r: Element, x: Element, e: Element, rest: Element)
    ensures Plus(Mul(p, Plus(Mul(r, x), e)), rest) == Plus(Mul(Mul(r, p), x), Plus(Mul(p, e), rest))
  {
    hide Plus, Mul;
    MulSum(p, Mul(r, x), e);
    MulSwap(p, r, x);
    MulAssociates(r, p, x);
    Grouped(Mul(Mul(r, p), x), Mul(p, e), rest);
  }

  lemma {:induction false} EvRun(g: Generators, r: Element, c: State, v: seq<Symbol>)
    requires Root(g, r)
    ensures Ev(r, Run(g, c, v)) == Plus(Mul(Exp(r, |v|), Ev(r, c)), Poly(r, Images(v)))
    decreases |v|
  {
    hide Plus, Mul, Ev, Embed, Bits, Step, Root;
    if v == [] {
      OneMul(Ev(r, c));
      NothingAdded(0, Ev(r, c));
    } else {
      EvStep(g, r, c, v[0]);
      EvRun(g, r, Step(g, c, v[0]), v[1..]);
      assert Images(v)[1..] == Images(v[1..]);
      Ahead(Exp(r, |v| - 1), r, Ev(r, c), Images(v)[0], Poly(r, Images(v[1..])));
    }
  }

  lemma Cancels(a: Element, b: Element, c: Element)
    requires Plus(a, b) == Plus(a, c)
    ensures b == c
  {
  }

  /** Two runs that end alike have polynomials that agree at the roots. */
  lemma SameAtRoot(g: Generators, r: Element, c: State, u: seq<Symbol>, v: seq<Symbol>)
    requires Root(g, r) && |u| == |v| && Run(g, c, u) == Run(g, c, v)
    ensures Poly(r, Images(u)) == Poly(r, Images(v))
  {
    hide Plus, Mul, Ev, Exp, Run, Images, Poly;
    EvRun(g, r, c, u);
    EvRun(g, r, c, v);
    Cancels(Mul(Exp(r, |u|), Ev(r, c)), Poly(r, Images(u)), Poly(r, Images(v)));
  }

  // ----- Where two sequences differ -----

  lemma EmbedZero(b: seq<bool>)
    requires |b| == 5 && Embed(b) == 0
    ensures !b[0] && !b[1] && !b[2] && !b[3] && !b[4]
  {
  }

  /** Different symbols stand for different elements. */
  lemma SameImage(x: Symbol, y: Symbol)
    requires Plus(Embed(Bits(x, 5)), Embed(Bits(y, 5))) == 0
    ensures x == y
  {
    hide Plus, Embed, Bits, Number;
    var a, b := Bits(x, 5), Bits(y, 5);
    var c := [a[0] != b[0], a[1] != b[1], a[2] != b[2], a[3] != b[3], a[4] != b[4]];
    EmbedSum(a, b, c);
    EmbedZero(c);
    assert a == b;
    SymbolIsNumber(x);
    SymbolIsNumber(y);
  }

  lemma SymbolIsNumber(x: Symbol)
    ensures Number(Bits(x, 5)) == x
  {
    hide Bits, Number;
    assert Pow2(5) == 32;
    NumberOfBits(x, 5);
  }

  lemma PolyCons(r: Element, u: seq<Element>, v: seq<Element>)
    requires |u| == |v| > 0
    ensures Plus(Poly(r, u), Poly(r, v)) ==
            Plus(Mul(Exp(r, |u| - 1), Plus(u[0], v[0])), Plus(Poly(r, u[1..]), Poly(r, v[1..])))
  {
    hide Plus, Mul;
    var p := Exp(r, |u| - 1);
    MulSum(p, u[0], v[0]);
    TwoSums(Mul(p, u[0]), Mul(p, v[0]), Poly(r, u[1..]), Poly(r, v[1..]));
  }

  /** Equal coefficients leave nothing of the difference. */
  lemma {:induction false} PolyFrom(r: Element, u: seq<Element>, v: seq<Element>, p: nat)
    requires |u| == |v| && p <= |u| && u[..p] == v[..p]
    ensures Plus(Poly(r, u), Poly(r, v)) == Plus(Poly(r, u[p..]), Poly(r, v[p..]))
    decreases p
  {
    hide Plus, Mul, Exp;
    if p == 0 {
      assert u[0..] == u && v[0..] == v;
    } else {
      assert u[0] == u[..p][0] && v[0] == v[..p][0];
      var a, b := u[1..], v[1..];
      assert a[..p - 1] == u[..p][1..] && b[..p - 1] == v[..p][1..];
      PolyFrom(r, a, b, p - 1);
      assert a[p - 1..] == u[p..] && b[p - 1..] == v[p..];
      PolyCons(r, u, v);
      MulZero(Exp(r, |u| - 1));
      NothingAdded(u[0], Plus(Poly(r, a), Poly(r, b)));
    }
  }

  /** What one place contributes to the difference. */
  function Term(r: Element, u: seq<Element>, v: seq<Element>, p: nat): Element
    requires p < |u| == |v|
  {
    Mul(Exp(r, |u| - 1 - p), Plus(u[p], v[p]))
  }

  /** What is left of the difference from a place on. */
  function Rest(r: Element, u: seq<Element>, v: seq<Element>, p: nat): Element
    requires p <= |u| == |v|
  {
    Plus(Poly(r, u[p..]), Poly(r, v[p..]))
  }

  lemma RestFrom(r: Element, u: seq<Element>, v: seq<Element>, from: nat, p: nat)
    requires from <= p <= |u| == |v| && forall i | from <= i < p :: u[i] == v[i]
    ensures Rest(r, u, v, from) == Rest(r, u, v, p)
  {
    hide Plus, Poly;
    var a, b := u[from..], v[from..];
    assert a[..p - from] == u[from..p] && b[..p - from] == v[from..p];
    PolyFrom(r, a, b, p - from);
    assert a[p - from..] == u[p..] && b[p - from..] == v[p..];
  }

  lemma RestAt(r: Element, u: seq<Element>, v: seq<Element>, p: nat)
    requires p < |u| == |v|
    ensures Rest(r, u, v, p) == Plus(Term(r, u, v, p), Rest(r, u, v, p + 1))
  {
    hide Plus, Mul, Exp;
    PolyCons(r, u[p..], v[p..]);
    assert u[p..][1..] == u[p + 1..] && v[p..][1..] == v[p + 1..];
  }

  /** The sequences differ at most at three places. */
  ghost predicate AlikeBut<T>(u: seq<T>, v: seq<T>, p: nat, q: nat, s: nat) {
    |u| == |v| && p < q < s < |u| && forall i | 0 <= i < |u| && i != p && i != q && i != s :: u[i] == v[i]
  }

  lemma RestEnds(r: Element, u: seq<Element>, v: seq<Element>)
    requires |u| == |v|
    ensures Rest(r, u, v, |u|) == 0 && Rest(r, u, v, 0) == Plus(Poly(r, u), Poly(r, v))
  {
    hide Mul, Exp;
    assert u[0..] == u && v[0..] == v && u[|u|..] == [] && v[|u|..] == [];
  }

  lemma ThreeTerms(r: Element, u: seq<Element>, v: seq<Element>, p: nat, q: nat, s: nat)
    requires AlikeBut(u, v, p, q, s)
    ensures Plus(Poly(r, u), Poly(r, v)) == Plus(Term(r, u, v, p), Plus(Term(r, u, v, q), Term(r, u, v, s)))
  {
    hide Plus, Rest, Term, Poly;
    RestEnds(r, u, v);
    RestFrom(r, u, v, 0, p);
    RestAt(r, u, v, p);
    RestFrom(r, u, v, p + 1, q);
    RestAt(r, u, v, q);
    RestFrom(r, u, v, q + 1, s);
    RestAt(r, u, v, s);
    RestFrom(r, u, v, s + 1, |u|);
    NothingAdded(0, Term(r, u, v, s));
  }

  // ----- The roots of the generator -----

  /** Five bits of a word as an element. */
  function FiveOf(x: bv30, k: nat): Element {
    Plus(Part(On(x, Mask(k)), 0x1), Plus(Part(On(x, Mask(k + 1)), 0x14d), Plus(Part(On(x, Mask(k + 2)), 0x283),
      Plus(Part(On(x, Mask(k + 3)), 0x267), Part(On(x, Mask(k + 4)), 0x122)))))
  }

  /** The generator multiples of the program. */
  function Word(i: nat): bv30 {
    if i == 0 then 0x3b6a57b2 else if i == 1 then 0x26508e6d else if i == 2 then 0x1ea119fa
    else if i == 3 then 0x3d4233dd
    else 0x2a1462b3
  }

  /** Their symbols, six for each, as elements. */
  function Digit(i: nat): Element {
    if i == 0 then 0x6f else if i == 1 then 0x1c7 else if i == 2 then 0x3a0 else if i == 3 then 0x3a1
    else if i == 4 then 0x2ec else if i == 5 then 0x1c7 else if i == 6 then 0xe5 else if i == 7 then 0x6e
    else if i == 8 then 0x14c else if i == 9 then 0x1 else if i == 10 then 0x282 else if i == 11 then 0x6e
    else if i == 12 then 0x208 else if i == 13 then 0x1a8 else if i == 14 then 0x3ce else if i == 15 then 0x14d
    else if i == 16 then 0x32a else if i == 17 then 0x1a8 else if i == 18 then 0x1c7 else if i == 19 then 0x8b
    else if i == 20 then 0xe4 else if i == 21 then 0x283 else if i == 22 then 0x3a1 else if i == 23 then 0x8b
    else if i == 24 then 0x6e else if i == 25 then 0x3a0 else if i == 26 then 0x345 else if i == 27 then 0x267
    else if i == 28 then 0x1
    else 0x3a0
  }

  /** What they are multiples of the first one by. */
  function Factor(i: nat): Element {
    if i == 0 then 0x1 else if i == 1 then 0x14d else if i == 2 then 0x283 else if i == 3 then 0x267
    else 0x122
  }

  /** Three roots, and their powers 1, 2, 4 and 6. */
  function RootPower(i: nat): Element {
    if i == 0 then 0xd else if i == 1 then 0x51 else if i == 2 then 0x3fa else if i == 3 then 0x5f
    else if i == 4 then 0x1a else if i == 5 then 0x144 else if i == 6 then 0x2c2 else if i == 7 then 0x31e
    else if i == 8 then 0x34 else if i == 9 then 0x335 else if i == 10 then 0x3b9
    else 0x320
  }

  /** The first generator multiple at the roots, from its highest symbol down. */
  function Stage(i: nat): Element {
    if i == 0 then 0x5f else if i == 1 then 0x1ab else if i == 2 then 0x1a7 else if i == 3 then 0x141
    else if i == 4 then 0x60 else if i == 5 then 0x1c7 else if i == 6 then 0x31e else if i == 7 then 0x29f
    else if i == 8 then 0x2d1 else if i == 9 then 0x160 else if i == 10 then 0x1d1 else if i == 11 then 0x1c7
    else if i == 12 then 0x320 else if i == 13 then 0xe1 else if i == 14 then 0x2b2 else if i == 15 then 0x2b3
    else if i == 16 then 0x2b3
    else 0x1c7
  }

  lemma Digits0(i: nat, k: nat)
    requires 0 <= i < 6 && k == 0
    ensures FiveOf(Word(k), 5 * (i - 0)) == Digit(i)
  {
    if i == 0 {
    } else if i == 1 {
    } else if i == 2 {
    } else if i == 3 {
    } else if i == 4 {
    }
  }

  lemma Digits1(i: nat, k: nat)
    requires 6 <= i < 12 && k == 1
    ensures FiveOf(Word(k), 5 * (i - 6)) == Digit(i)
  {
    if i == 6 {
    } else if i == 7 {
    } else if i == 8 {
    } else if i == 9 {
    } else if i == 10 {
    }
  }

  lemma Digits2(i: nat, k: nat)
    requires 12 <= i < 18 && k == 2
    ensures FiveOf(Word(k), 5 * (i - 12)) == Digit(i)
  {
    if i == 12 {
    } else if i == 13 {
    } else if i == 14 {
    } else if i == 15 {
    } else if i == 16 {
    }
  }

  lemma Digits3(i: nat, k: nat)
    requires 18 <= i < 24 && k == 3
    ensures FiveOf(Word(k), 5 * (i - 18)) == Digit(i)
  {
    if i == 18 {
    } else if i == 19 {
    } else if i == 20 {
    } else if i == 21 {
    } else if i == 22 {
    }
  }

  lemma Digits4(i: nat, k: nat)
    requires 24 <= i < 30 && k == 4
    ensures FiveOf(Word(k), 5 * (i - 24)) == Digit(i)
  {
    if i == 24 {
    } else if i == 25 {
    } else if i == 26 {
    } else if i == 27 {
    } else if i == 28 {
    }
  }

  lemma DigitOf(i: nat, j: nat)
    requires i < 5 && j < 6
    ensures FiveOf(Word(i), 5 * j) == Digit(6 * i + j)
  {
    hide FiveOf, Word, Digit;
    if i == 0 {
      Digits0(j, i);
    } else if i == 1 {
      Digits1(6 + j, i);
    } else if i == 2 {
      Digits2(12 + j, i);
    } else if i == 3 {
      Digits3(18 + j, i);
    } else {
      Digits4(24 + j, i);
    }
  }

  lemma Multiples1(i: nat, k: nat)
    requires 6 <= i < 12 && k == 1
    ensures Flat(Factor(k), Digit(i - 6)) == Digit(i)
  {
    if i == 6 {
    } else if i == 7 {
    } else if i == 8 {
    } else if i == 9 {
    } else if i == 10 {
    }
  }

  lemma Multiples2(i: nat, k: nat)
    requires 12 <= i < 18 && k == 2
    ensures Flat(Factor(k), Digit(i - 12)) == Digit(i)
  {
    if i == 12 {
    } else if i == 13 {
    } else if i == 14 {
    } else if i == 15 {
    } else if i == 16 {
    }
  }

  lemma Multiples3(i: nat, k: nat)
    requires 18 <= i < 24 && k == 3
    ensures Flat(Factor(k), Digit(i - 18)) == Digit(i)
  {
    if i == 18 {
    } else if i == 19 {
    } else if i == 20 {
    } else if i == 21 {
    } else if i == 22 {
    }
  }

  lemma Multiples4(i: nat, k: nat)
    requires 24 <= i < 30 && k == 4
    ensures Flat(Factor(k), Digit(i - 24)) == Digit(i)
  {
    if i == 24 {
    } else if i == 25 {
    } else if i == 26 {
    } else if i == 27 {
    } else if i == 28 {
    }
  }

  lemma Multiple(k: nat, j: nat)
    requires 0 < k < 5 && j < 6
    ensures Flat(Factor(k), Digit(j)) == Digit(6 * k + j)
  {
    hide Flat, Factor, Digit;
    if k == 1 {
      Multiples1(6 + j, k);
    } else if k == 2 {
      Multiples2(12 + j, k);
    } else if k == 3 {
      Multiples3(18 + j, k);
    } else {
      Multiples4(24 + j, k);
    }
  }

  lemma Stages0(i: nat, k: nat)
    requires 0 <= i < 5 && k == 0
    ensures Plus(Digit(i - 0), Flat(RootPower(k), Stage(i + 1))) == Stage(i)
  {
    if i == 0 {
    } else if i == 1 {
    } else if i == 2 {
    } else if i == 3 {
    }
  }

  lemma Stages1(i: nat, k: nat)
    requires 6 <= i < 11 && k == 4
    ensures Plus(Digit(i - 6), Flat(RootPower(k), Stage(i + 1))) == Stage(i)
  {
    if i == 6 {
    } else if i == 7 {
    } else if i == 8 {
    } else if i == 9 {
    }
  }

  lemma Stages2(i: nat, k: nat)
    requires 12 <= i < 17 && k == 8
    ensures Plus(Digit(i - 12), Flat(RootPower(k), Stage(i + 1))) == Stage(i)
  {
    if i == 12 {
    } else if i == 13 {
    } else if i == 14 {
    } else if i == 15 {
    }
  }

  lemma NextStage(n: nat, j: nat)
    requires n < 3 && j < 5
    ensures Plus(Digit(j), Flat(RootPower(4 * n), Stage(6 * n + j + 1))) == Stage(6 * n + j)
  {
    hide Plus, Digit, Flat, RootPower, Stage;
    if n == 0 {
      Stages0(j, 4 * n);
    } else if n == 1 {
      Stages1(6 + j, 4 * n);
    } else {
      Stages2(12 + j, 4 * n);
    }
  }

  lemma LastStage(n: nat)
    requires n < 3
    ensures Stage(6 * n + 5) == Digit(5) && Stage(6 * n) == RootPower(4 * n + 3)
  {
    if n == 0 {
    } else if n == 1 {
    }
  }

  /** The power that the next one is a multiple by. */
  function Multiplier(i: nat): nat {
    if i == 0 then 0 else if i == 1 then 1 else if i == 2 then 1 else if i == 4 then 4 else if i == 5 then 5
    else if i == 6 then 5 else if i == 8 then 8 else if i == 9 then 9
    else 9
  }

  lemma NextPower(i: nat)
    requires i < 3 || 4 <= i < 7 || 8 <= i < 11
    ensures Flat(RootPower(Multiplier(i)), RootPower(i)) == RootPower(i + 1)
  {
    if i == 0 {
    } else if i == 1 {
    } else if i == 2 {
    } else if i == 4 {
    } else if i == 5 {
    } else if i == 6 {
    } else if i == 8 {
    } else if i == 9 {
    }
  }

  lemma Multipliers(n: nat)
    requires n < 3
    ensures Multiplier(4 * n) == 4 * n && Multiplier(4 * n + 1) == Multiplier(4 * n + 2) == 4 * n + 1
  {
  }

  lemma FirstPower(r: Element)
    ensures Exp(r, 1) == r
  {
    hide Mul;
    assert Exp(r, 0) == 1;
    MulOne(r);
  }

  lemma SixthPower(n: nat)
    requires n < 3
    ensures Exp(RootPower(4 * n), 6) == RootPower(4 * n + 3)
  {
    hide Flat, Exp, RootPower, Multiplier;
    var i := 4 * n;
    Multipliers(n);
    var r := RootPower(i);
    FirstPower(r);
    NextPower(i);
    ExpIs(r, 1, 1, r, r, RootPower(i + 1));
    NextPower(i + 1);
    ExpIs(r, 2, 2, RootPower(i + 1), RootPower(i + 1), RootPower(i + 2));
    NextPower(i + 2);
    ExpIs(r, 2, 4, RootPower(i + 1), RootPower(i + 2), RootPower(i + 3));
  }

  lemma EvFrom(r: Element, c: State, x: bv30, k: nat)
    requires Same(c, x) && k + 5 <= 30
    ensures Ev(r, c[k..]) == Plus(FiveOf(x, k), Mul(r, Ev(r, c[k + 5..])))
  {
    hide Plus, Part, On, Mask, Mul;
    assert c[k..][5..] == c[k + 5..] && |c[k..]| >= 5;
    var b := c[k..][..5];
    assert b[0] == c[k] && b[1] == c[k + 1] && b[2] == c[k + 2] && b[3] == c[k + 3] && b[4] == c[k + 4];
  }

  lemma EvGroup(r: Element, g: Generators, i: nat, j: nat)
    requires i < 5 && j < 6 && Same(g[i], Word(i))
    ensures Ev(r, g[i][5 * j..]) == Plus(Digit(6 * i + j), Mul(r, Ev(r, g[i][5 * (j + 1)..])))
  {
    hide Plus, FiveOf, Word, Digit, Mul, Ev, Same;
    EvFrom(r, g[i], Word(i), 5 * j);
    DigitOf(i, j);
  }

  lemma EvNone(r: Element, c: State)
    ensures Ev(r, c[30..]) == 0
  {
  }

  /** The first generator multiple at a root, from a symbol on. */
  lemma {:induction false} EvStages(g: Generators, n: nat, j: nat)
    requires n < 3 && j < 6 && Same(g[0], Word(0))
    ensures Ev(RootPower(4 * n), g[0][5 * j..]) == Stage(6 * n + j)
    decreases 6 - j
  {
    hide Plus, Word, Digit, Mul, Flat, Ev, Same, Stage, RootPower;
    var r := RootPower(4 * n);
    EvGroup(r, g, 0, j);
    if j == 5 {
      EvNone(r, g[0]);
      MulZero(r);
      NothingAdded(0, Digit(5));
      LastStage(n);
    } else {
      EvStages(g, n, j + 1);
      MulIsFlat(r, Stage(6 * n + j + 1));
      NextStage(n, j);
    }
  }

  /** The other generator multiples are multiples of the first one. */
  lemma {:induction false} EvMultiple(r: Element, g: Generators, i: nat, j: nat)
    requires 0 < i < 5 && j <= 6 && Same(g[0], Word(0)) && Same(g[i], Word(i))
    ensures Ev(r, g[i][5 * j..]) == Mul(Factor(i), Ev(r, g[0][5 * j..]))
    decreases 6 - j
  {
    hide Plus, Word, Digit, Mul, Flat, Ev, Same, Factor;
    var f := Factor(i);
    if j == 6 {
      EvNone(r, g[0]);
      EvNone(r, g[i]);
      MulZero(f);
    } else {
      var e := Ev(r, g[0][5 * (j + 1)..]);
      EvMultiple(r, g, i, j + 1);
      EvGroup(r, g, 0, j);
      EvGroup(r, g, i, j);
      Multiple(i, j);
      MulIsFlat(f, Digit(j));
      MulSum(f, Digit(j), Mul(r, e));
      MulSwap(f, r, e);
    }
  }

  lemma WordIs(g: Generators, i: nat)
    requires Known(g) && i < 5
    ensures Same(g[i], Word(i))
  {
    hide Same;
  }

  lemma RootAt(g: Generators, r: Element, i: nat)
    requires Known(g) && Ev(r, g[0]) == Exp(r, 6) && i < 5
    ensures Ev(r, g[i]) == Mul(Exp(r, 6), Factor(i))
  {
    hide Known, Same, Exp, Mul, Ev;
    if i == 0 {
      MulOne(Exp(r, 6));
    } else {
      WordIs(g, 0);
      WordIs(g, i);
      EvMultiple(r, g, i, 0);
      assert g[0][0..] == g[0] && g[i][0..] == g[i];
      MulCommutes(Factor(i), Exp(r, 6));
    }
  }

  /** The generator of the program has three roots. */
  lemma RootsOf(g: Generators, n: nat)
    requires Known(g) && n < 3
    ensures Root(g, RootPower(4 * n))
  {
    hide Known, Same, Exp, Mul, Ev, RootPower, Stage;
    var r := RootPower(4 * n);
    WordIs(g, 0);
    EvStages(g, n, 0);
    assert g[0][0..] == g[0];
    LastStage(n);
    SixthPower(n);
    RootAt(g, r, 0);
    RootAt(g, r, 1);
    RootAt(g, r, 2);
    RootAt(g, r, 3);
    RootAt(g, r, 4);
  }

  /** The inverses of the roots, and of y. */
  function InverseRoot(n: nat): Element {
    if n == 0 then 0x2f0 else if n == 1 then 0x178 else if n == 2 then 0xbc
    else 0x312
  }

  /** The roots, and y. */
  function RootOrY(n: nat): Element { if n == 3 then 2 else RootPower(4 * n) }

  lemma Invertible(n: nat)
    requires n < 4
    ensures Flat(InverseRoot(n), RootOrY(n)) == 1
  {
    if n == 0 {
    } else if n == 1 {
    } else if n == 2 {
    }
  }

  /** The roots are in geometric progression. */
  lemma Progression(n: nat, y: Element)
    requires n < 2 && y == 2
    ensures Flat(RootPower(4 * n), y) == RootPower(4 * n + 4)
  {
    if n == 0 {
    }
  }

  lemma {:induction false} ExpOfOne(n: nat)
    ensures Exp(1, n) == 1
  {
    hide Mul;
    if n > 0 {
      ExpOfOne(n - 1);
      OneMul(1);
    }
  }

  /** Powers of the roots and of y can be cancelled. */
  lemma NoZeroPower(n: nat, k: nat, w: Element)
    requires n < 4 && Mul(Exp(RootOrY(n), k), w) == 0
    ensures w == 0
  {
    hide Mul, Flat, Exp, RootOrY, InverseRoot;
    var r, i := RootOrY(n), InverseRoot(n);
    Invertible(n);
    MulIsFlat(i, r);
    ExpOfProduct(i, r, k);
    ExpOfOne(k);
    MulAssociates(Exp(i, k), Exp(r, k), w);
    OneMul(w);
    MulZero(Exp(i, k));
  }

  lemma SumZero(v: Element, w: Element)
    ensures Plus(v, w) == 0 <==> v == w
  {
    assert v ^ w == 0 <==> v == w;
  }

  lemma CancelPower(n: nat, k: nat, v: Element, w: Element)
    requires n < 4 && Mul(Exp(RootOrY(n), k), v) == Mul(Exp(RootOrY(n), k), w)
    ensures v == w
  {
    hide Plus, Mul, Exp, RootOrY;
    var p := Exp(RootOrY(n), k);
    MulSum(p, v, w);
    SumZero(Mul(p, v), Mul(p, w));
    NoZeroPower(n, k, Plus(v, w));
    SumZero(v, w);
  }

  // ----- Three terms cannot cancel -----

  lemma Balance(u: Element, v: Element, c: Element, x: Element, z: Element)
    requires Plus(u, Plus(v, c)) == 0 && Plus(x, Plus(z, c)) == 0
    ensures Plus(x, u) == Plus(z, v)
  {
    hide Plus;
    TwoSums(x, Plus(z, c), u, Plus(v, c));
    TwoSums(z, c, v, c);
    NothingAdded(c, Plus(z, v));
    NothingAdded(0, 0);
    SumZero(Plus(x, u), Plus(z, v));
  }

  /** The three equations of the three roots have no solution but 0. */
  lemma NoThreeTerms(y: Element, a: nat, b: nat, u: Element, v: Element, c: Element)
    requires y == 2 && 0 < b < a < 1023
    requires Plus(u, Plus(v, c)) == 0 && Plus(Mul(Exp(y, a), u), Plus(Mul(Exp(y, b), v), c)) == 0
    requires Plus(Mul(Exp(y, a), Mul(Exp(y, a), u)), Plus(Mul(Exp(y, b), Mul(Exp(y, b), v)), c)) == 0
    ensures u == 0 && v == 0 && c == 0
  {
    hide Plus, Mul, Exp;
    var i, j := Exp(y, a), Exp(y, b);
    var p := Plus(Mul(i, u), u);
    Balance(u, v, c, Mul(i, u), Mul(j, v));
    Balance(Mul(i, u), Mul(j, v), c, Mul(i, Mul(i, u)), Mul(j, Mul(j, v)));
    MulSum(i, Mul(i, u), u);
    MulSum(j, Mul(j, v), v);
    assert Mul(i, p) == Mul(j, p);
    Ratio(y, a, b, p);
    SumZero(Mul(i, u), u);
    SumZero(Mul(j, v), v);
    FirstPower(y);
    NoShorterPeriod(y, u, a, 16);
    NoShorterPeriod(y, v, b, 16);
    NothingAdded(0, c);
  }

  lemma Ratio(y: Element, a: nat, b: nat, p: Element)
    requires y == 2 && 0 < b < a < 1023 && Mul(Exp(y, a), p) == Mul(Exp(y, b), p)
    ensures p == 0
  {
    hide Mul, Exp;
    ExpSum(y, b, a - b);
    MulAssociates(Exp(y, b), Exp(y, a - b), p);
    assert y == RootOrY(3);
    CancelPower(3, b, Mul(Exp(y, a - b), p), p);
    FirstPower(y);
    NoShorterPeriod(y, p, a - b, 16);
  }

  lemma Raised(r: Element, s: Element, y: Element, a: nat, w: Element)
    requires s == Mul(r, y)
    ensures Mul(Exp(s, a), w) == Mul(Exp(y, a), Mul(Exp(r, a), w))
  {
    hide Mul, Exp;
    ExpOfProduct(r, y, a);
    MulAssociates(Exp(r, a), Exp(y, a), w);
    MulSwap(Exp(r, a), Exp(y, a), w);
  }

  /** Three terms of a polynomial, the last at the power `k`. */
  function Sum3(r: Element, a: nat, b: nat, k: nat, p: Element, q: Element, s: Element): Element {
    Plus(Mul(Exp(r, a + k), p), Plus(Mul(Exp(r, b + k), q), Mul(Exp(r, k), s)))
  }

  lemma Divided(r: Element, a: nat, b: nat, k: nat, p: Element, q: Element, s: Element)
    ensures Sum3(r, a, b, k, p, q, s) == Mul(Exp(r, k), Plus(Mul(Exp(r, a), p), Plus(Mul(Exp(r, b), q), s)))
  {
    hide Plus, Mul, Exp;
    var x, u, v := Exp(r, k), Mul(Exp(r, a), p), Mul(Exp(r, b), q);
    ExpSum(r, k, a);
    ExpSum(r, k, b);
    MulAssociates(x, Exp(r, a), p);
    MulAssociates(x, Exp(r, b), q);
    MulSum(x, u, Plus(v, s));
    MulSum(x, v, s);
  }

  lemma Vanishes(n: nat, r: Element, a: nat, b: nat, k: nat, p: Element, q: Element, s: Element)
    requires n < 3 && r == RootPower(4 * n) && Sum3(r, a, b, k, p, q, s) == 0
    ensures Plus(Mul(Exp(r, a), p), Plus(Mul(Exp(r, b), q), s)) == 0
  {
    hide Plus, Mul, Exp, RootPower, Sum3;
    Divided(r, a, b, k, p, q, s);
    NoZeroPower(n, k, Plus(Mul(Exp(r, a), p), Plus(Mul(Exp(r, b), q), s)));
  }

  /** A polynomial of three terms within a window of 1023 is 0 at the three roots only if it is 0. */
  lemma ThreeAtRoots(a: nat, b: nat, k: nat, p: Element, q: Element, s: Element)
    requires 0 < b < a < 1023 && forall n | 0 <= n < 3 :: Sum3(RootPower(4 * n), a, b, k, p, q, s) == 0
    ensures p == 0 && q == 0 && s == 0
  {
    hide Plus, Mul, Exp, RootPower, Sum3, Flat;
    var y: Element, r, r1, r2 := 2, RootPower(0), RootPower(4), RootPower(8);
    assert Sum3(RootPower(4 * 0), a, b, k, p, q, s) == 0 && Sum3(RootPower(4 * 1), a, b, k, p, q, s) == 0;
    assert Sum3(RootPower(4 * 2), a, b, k, p, q, s) == 0;
    Vanishes(0, r, a, b, k, p, q, s);
    Vanishes(1, r1, a, b, k, p, q, s);
    Vanishes(2, r2, a, b, k, p, q, s);
    Progression(0, y);
    Progression(1, y);
    MulIsFlat(r, y);
    MulIsFlat(r1, y);
    Raised(r, r1, y, a, p);
    Raised(r, r1, y, b, q);
    Raised(r1, r2, y, a, p);
    Raised(r1, r2, y, b, q);
    NoThreeTerms(y, a, b, Mul(Exp(r, a), p), Mul(Exp(r, b), q), s);
    NoZeroPower(0, a, p);
    NoZeroPower(0, b, q);
  }

  // ----- Errors -----

  lemma ImagesAlike(u: seq<Symbol>, v: seq<Symbol>, p: nat, q: nat, s: nat)
    requires AlikeBut(u, v, p, q, s)
    ensures AlikeBut(Images(u), Images(v), p, q, s)
  {
    hide Embed, Bits;
  }

  lemma TermsAtRoot(g: Generators, c: State, u: seq<Symbol>, v: seq<Symbol>, p: nat, q: nat, s: nat, n: nat)
    requires Known(g) && AlikeBut(u, v, p, q, s) && Run(g, c, u) == Run(g, c, v) && n < 3
    ensures var e, f, k := Images(u), Images(v), |u| - 1 - s;
            Sum3(RootPower(4 * n), s - p, s - q, k, Plus(e[p], f[p]), Plus(e[q], f[q]), Plus(e[s], f[s])) == 0
  {
    hide Plus, Mul, Exp, RootPower, Known, Root, Run, Poly, Images;
    var r, e, f := RootPower(4 * n), Images(u), Images(v);
    RootsOf(g, n);
    SameAtRoot(g, r, c, u, v);
    ImagesAlike(u, v, p, q, s);
    ThreeTerms(r, e, f, p, q, s);
    SumZero(Poly(r, e), Poly(r, f));
  }

  /** Runs over sequences that differ at most at three places within 1023 end alike only if there is no difference. */
  lemma ThreePlaces(g: Generators, c: State, u: seq<Symbol>, v: seq<Symbol>, p: nat, q: nat, s: nat)
    requires Known(g) && AlikeBut(u, v, p, q, s) && s - p < 1023 && Run(g, c, u) == Run(g, c, v)
    ensures u == v
  {
    hide Plus, RootPower, Known, Run, Sum3, Embed, Bits;
    var e, f, k := Images(u), Images(v), |u| - 1 - s;
    var x, z, w := Plus(e[p], f[p]), Plus(e[q], f[q]), Plus(e[s], f[s]);
    forall n | 0 <= n < 3 ensures Sum3(RootPower(4 * n), s - p, s - q, k, x, z, w) == 0 {
      TermsAtRoot(g, c, u, v, p, q, s, n);
    }
    ThreeAtRoots(s - p, s - q, k, x, z, w);
    SameImage(u[p], v[p]);
    SameImage(u[q], v[q]);
    SameImage(u[s], v[s]);
  }

  /** The sequences differ at most at the places given, which need not be different. */
  ghost predicate SameBut<T>(u: seq<T>, v: seq<T>, p: nat, q: nat, s: nat) {
    && |u| == |v| && p <= q <= s < |u|
    && forall i | 0 <= i < |u| && i != p && i != q && i != s :: u[i] == v[i]
  }

  /** Three different places that cover the ones given. */
  lemma ApartPlaces(p: nat, q: nat, s: nat) returns (x: nat, y: nat, z: nat)
    requires p <= q <= s < p + 1023
    ensures x < y < z <= s + 2 && z < x + 1023
    ensures p in {x, y, z} && q in {x, y, z} && s in {x, y, z}
  {
    if p < q < s {
      x, y, z := p, q, s;
    } else if p == s {
      x, y, z := p, p + 1, p + 2;
    } else if s == p + 1 {
      x, y, z := p, s, s + 1;
    } else {
      x, y, z := p, p + 1, s;
    }
  }

  /** Up to three changed symbols within a window of 1023 always change where the run ends. */
  lemma UpToThreePlaces(g: Generators, c: State, u: seq<Symbol>, v: seq<Symbol>, p: nat, q: nat, s: nat)
    requires Known(g) && SameBut(u, v, p, q, s) && s < p + 1023
    ensures Run(g, c, u) == Run(g, c, v) <==> u == v
  {
    hide Known, Run;
    if Run(g, c, u) == Run(g, c, v) {
      var x, y, z := ApartPlaces(p, q, s);
      var e, f := u + [0, 0], v + [0, 0];
      RunAppend(g, c, u, [0, 0]);
      RunAppend(g, c, v, [0, 0]);
      assert forall i | |u| <= i < |e| :: e[i] == f[i];
      ThreePlaces(g, c, e, f, x, y, z);
      assert u == e[..|u|] && v == f[..|u|];
    }
  }

  /** Up to three changed values within a window of 1023 are never verified for the same encoding. */
  lemma ThreeErrorsDetected(k: Code, hrp: string, values: seq<Symbol>, changed: seq<Symbol>, p: nat, q: nat, s: nat)
    requires k == TheCode() && SameBut(values, changed, p, q, s) && s < p + 1023 && values != changed
    ensures Residue(k, hrp, changed) != Residue(k, hrp, values)
    ensures Verified(k, hrp, values) != Invalid ==> Verified(k, hrp, changed) != Verified(k, hrp, values)
  {
    hide Known, Run, Expanded;
    CodeKnown(k);
    var prefix := Expanded(hrp);
    var n := |prefix|;
    var u, v := prefix + values, prefix + changed;
    assert values == u[n..] && changed == v[n..];
    UpToThreePlaces(k.g, k.start, u, v, n + p, n + q, n + s);
  }

  lemma {:induction false} ValueAt(str: string, i: nat)
    requires AllKnown(str) && i < |str|
    ensures Values(str)[i] == Rev(str[i])
  {
    hide Rev;
    if i > 0 { ValueAt(str[1..], i - 1); }
  }

  /** The values of the data parts of two strings that differ only there. */
  lemma ValuesAlike(str: string, other: string, pos: nat, p: nat, q: nat, s: nat)
    requires SameBut(str, other, p, q, s) && pos < p && AllKnown(str[pos + 1..]) && AllKnown(other[pos + 1..])
    requires Rev(other[p]) != Rev(str[p]) || Rev(other[q]) != Rev(str[q]) || Rev(other[s]) != Rev(str[s])
    ensures str[..pos] == other[..pos] && Values(str[pos + 1..]) != Values(other[pos + 1..])
    ensures SameBut(Values(str[pos + 1..]), Values(other[pos + 1..]), p - pos - 1, q - pos - 1, s - pos - 1)
  {
    hide Rev, Values;
    var a, b := str[pos + 1..], other[pos + 1..];
    forall i | pos < i < |str|
      ensures Values(a)[i - pos - 1] == Rev(str[i]) && Values(b)[i - pos - 1] == Rev(other[i])
    {
      ValueAt(a, i - pos - 1);
      ValueAt(b, i - pos - 1);
    }
    assert forall i | 0 <= i < |a| :: a[i] == str[i + (pos + 1)] && b[i] == other[i + (pos + 1)];
    forall i | 0 <= i < |a| && i != p - pos - 1 && i != q - pos - 1 && i != s - pos - 1
      ensures Values(a)[i] == Values(b)[i]
    {
      assert a[i] == b[i];
      ValueAt(a, i);
      ValueAt(b, i);
    }
  }

  /**
   Other characters at up to three places of the data part of a string that decodes, within a window of 1023 and none
   of them the separator: the string no longer decodes as the same encoding.
   */
  lemma ThreeErrorsInString(k: Code, str: string, other: string, extLength: bool, p: nat, q: nat, s: nat)
    requires k == TheCode() && Decoded(k, str, extLength) != Failed && SameBut(str, other, p, q, s) && s < p + 1023
    requires LastOne(str) < p && other[p] != '1' && other[q] != '1' && other[s] != '1'
    requires Rev(other[p]) != Rev(str[p]) || Rev(other[q]) != Rev(str[q]) || Rev(other[s]) != Rev(str[s])
    ensures var r := Decoded(k, other, extLength);
            r == Failed || r.encoding != Decoded(k, str, extLength).encoding
  {
    hide Rev, Verified, Values, Lowered, TheCode;
    if Decoded(k, other, extLength) != Failed {
      DecodedIs(k, str, extLength);
      var pos := LastOne(str);
      LastOneIs(other, pos);
      PartsOf(k, str, extLength, pos);
      PartsOf(k, other, extLength, pos);
      ValuesAlike(str, other, pos, p, q, s);
      ThreeErrorsDetected(k, Lowered(str[..pos]), Values(str[pos + 1..]), Values(other[pos + 1..]), p - pos - 1,
                          q - pos - 1, s - pos - 1);
    }
  }
}
