/** Modular composition over Z_p: tables of powers modulo a polynomial m,
    and poly(point) mod m computed by the Horner scheme and by the
    Brent-Kung chunked scheme. Every polynomial is a canonical coefficient
    list; the fast division by m is plain remainder (PolyDiv.Rem). */
module ModularComposition {
  import opened ModArith
  import opened UPoly
  import opened PolyRing
  import opened PolyDiv
  import opened PolyCoef
  import opened PolyModular

  // ---------------------------------------------------------------------
  // Specification: composition as a polynomial

  /** The sum of c[j] * pt^(j - s) for s <= j < e, gathered by Horner's
      rule from the low end. */
  function ComposeRange(p: int, c: seq<int>, pt: seq<int>, s: nat, e: nat): (r: seq<int>)
    requires IsModulus(p) && IsPoly(p, c) && IsPoly(p, pt) && s <= e <= |c|
    ensures IsPoly(p, r)
    decreases e - s
  {
    if s == e then []
    else Add(p, Const(p, c[s]), Mul(p, pt, ComposeRange(p, c, pt, s + 1, e)))
  }

  /** a(pt): the polynomial a with pt substituted for x. */
  function Compose(p: int, a: seq<int>, pt: seq<int>): (r: seq<int>)
    requires IsModulus(p) && IsPoly(p, a) && IsPoly(p, pt)
    ensures IsPoly(p, r)
  {
    ComposeRange(p, a, pt, 0, |a|)
  }

  /** One step of ComposeRange, with the next start given as s1. */
  lemma ComposeRangeUnfold(p: int, c: seq<int>, pt: seq<int>, s: nat, s1: nat, e: nat)
    requires IsModulus(p) && IsPoly(p, c) && IsPoly(p, pt) && s < e <= |c| && s1 == s + 1
    ensures ComposeRange(p, c, pt, s, e) == Add(p, Const(p, c[s]), Mul(p, pt, ComposeRange(p, c, pt, s1, e)))
  {
  }

  /** One step of Pow, with the smaller exponent given as k1. */
  lemma PowUnfold(p: int, a: seq<int>, k: nat, k1: nat)
    requires IsModulus(p) && IsPoly(p, a) && k1 + 1 == k
    ensures Pow(p, a, k) == Mul(p, a, Pow(p, a, k1))
  {
  }

  /** c + x * t is the polynomial with head c and tail t. */
  lemma ConsByX(p: int, c: int, t: seq<int>)
    requires IsModulus(p) && InRange(c, p) && IsPoly(p, t)
    ensures Add(p, Const(p, c), Mul(p, Shift(p, One(p)), t)) == Cons(p, c, t)
  {
    var r := Add(p, Const(p, c), Mul(p, Shift(p, One(p)), t));
    MulShiftLeft(p, One(p), t);
    MulOne(p, t);
    AddHdTl(p, Const(p, c), Shift(p, t));
    AddZero(p, t);
    Ext(p, r, Cons(p, c, t));
  }

  /** A suffix of a canonical polynomial is its first entry consed onto
      the next suffix. */
  lemma SuffixCons(p: int, a: seq<int>, i: nat, i1: nat)
    requires IsModulus(p) && IsPoly(p, a) && i < |a| && i1 == i + 1
    ensures IsPoly(p, a[i1..]) && InRange(a[i], p) && a[i..] == Cons(p, a[i], a[i1..])
  {
    assert a[i..] == [a[i]] + a[i1..];
  }

  lemma ComposeRangeXStep(p: int, a: seq<int>, i: nat, i1: nat)
    requires IsModulus(p) && IsPoly(p, a) && i < |a| && i1 == i + 1
    requires ComposeRange(p, a, Shift(p, One(p)), i1, |a|) == a[i1..]
    ensures ComposeRange(p, a, Shift(p, One(p)), i, |a|) == a[i..]
  {
    ComposeRangeUnfold(p, a, Shift(p, One(p)), i, i1, |a|);
    SuffixCons(p, a, i, i1);
    ConsByX(p, a[i], a[i1..]);
  }

  lemma {:induction false} ComposeRangeX(p: int, a: seq<int>, i: nat)
    requires IsModulus(p) && IsPoly(p, a) && i <= |a|
    ensures ComposeRange(p, a, Shift(p, One(p)), i, |a|) == a[i..]
    decreases |a| - i
  {
    if i < |a| {
      var i1 := i + 1;
      ComposeRangeX(p, a, i1);
      ComposeRangeXStep(p, a, i, i1);
    }
  }

  /** Substituting x itself gives the polynomial back. */
  lemma ComposeX(p: int, a: seq<int>)
    requires IsModulus(p) && IsPoly(p, a)
    ensures Compose(p, a, Shift(p, One(p))) == a
  {
    ComposeRangeX(p, a, 0);
    assert a[0..] == a;
  }

  /** The ring identity behind ComposeSplit. */
  lemma SplitRing(p: int, k: seq<int>, pt: seq<int>, a: seq<int>, q: seq<int>, b: seq<int>)
    requires IsModulus(p) && IsPoly(p, k) && IsPoly(p, pt) && IsPoly(p, a) && IsPoly(p, q) && IsPoly(p, b)
    ensures Add(p, k, Mul(p, pt, Add(p, a, Mul(p, q, b))))
      == Add(p, Add(p, k, Mul(p, pt, a)), Mul(p, Mul(p, pt, q), b))
  {
    MulDistribLeft(p, pt, a, Mul(p, q, b));
    AddAssoc(p, k, Mul(p, pt, a), Mul(p, pt, Mul(p, q, b)));
    MulAssoc(p, pt, q, b);
  }

  lemma ComposeSplitZero(p: int, c: seq<int>, pt: seq<int>, s: nat, e: nat)
    requires IsModulus(p) && IsPoly(p, c) && IsPoly(p, pt) && s <= e <= |c|
    ensures ComposeRange(p, c, pt, s, e)
      == Add(p, ComposeRange(p, c, pt, s, s), Mul(p, Pow(p, pt, 0), ComposeRange(p, c, pt, s, e)))
  {
    var whole := ComposeRange(p, c, pt, s, e);
    MulOne(p, whole);
    AddZero(p, whole);
  }

  lemma ComposeSplitStep(p: int, c: seq<int>, pt: seq<int>, s: nat, s1: nat, mid: nat, e: nat, k: nat, k1: nat)
    requires IsModulus(p) && IsPoly(p, c) && IsPoly(p, pt) && s < mid <= e <= |c|
    requires s1 == s + 1 && k1 + 1 == k
    requires ComposeRange(p, c, pt, s1, e)
      == Add(p, ComposeRange(p, c, pt, s1, mid), Mul(p, Pow(p, pt, k1), ComposeRange(p, c, pt, mid, e)))
    ensures ComposeRange(p, c, pt, s, e)
      == Add(p, ComposeRange(p, c, pt, s, mid), Mul(p, Pow(p, pt, k), ComposeRange(p, c, pt, mid, e)))
  {
    ComposeRangeUnfold(p, c, pt, s, s1, e);
    ComposeRangeUnfold(p, c, pt, s, s1, mid);
    PowUnfold(p, pt, k, k1);
    SplitRing(p, Const(p, c[s]), pt, ComposeRange(p, c, pt, s1, mid), Pow(p, pt, k1), ComposeRange(p, c, pt, mid, e));
  }

  /** Splitting the coefficients s .. e - 1 at mid = s + k: the low part at
      pt plus pt^k times the high part at pt. */
  lemma {:induction false} ComposeSplit(p: int, c: seq<int>, pt: seq<int>, s: nat, mid: nat, e: nat, k: nat)
    requires IsModulus(p) && IsPoly(p, c) && IsPoly(p, pt) && s <= mid <= e <= |c| && s + k == mid
    ensures ComposeRange(p, c, pt, s, e)
      == Add(p, ComposeRange(p, c, pt, s, mid), Mul(p, Pow(p, pt, k), ComposeRange(p, c, pt, mid, e)))
    decreases k
  {
    if k == 0 {
      ComposeSplitZero(p, c, pt, s, e);
    } else {
      var s1, k1 := s + 1, k - 1;
      ComposeSplit(p, c, pt, s1, mid, e, k1);
      ComposeSplitStep(p, c, pt, s, s1, mid, e, k, k1);
    }
  }

  lemma ComposeRangeZerosStep(p: int, c: seq<int>, pt: seq<int>, s: nat, s1: nat, e: nat)
    requires IsModulus(p) && IsPoly(p, c) && IsPoly(p, pt) && s < e <= |c| && c[s] == 0 && s1 == s + 1
    requires ComposeRange(p, c, pt, s1, e) == []
    ensures ComposeRange(p, c, pt, s, e) == []
  {
    ComposeRangeUnfold(p, c, pt, s, s1, e);
    MulZeroRight(p, pt);
  }

  /** A run of zero coefficients composes to zero. */
  lemma {:induction false} ComposeRangeZeros(p: int, c: seq<int>, pt: seq<int>, s: nat, e: nat)
    requires IsModulus(p) && IsPoly(p, c) && IsPoly(p, pt) && s <= e <= |c|
    requires forall j :: s <= j < e ==> c[j] == 0
    ensures ComposeRange(p, c, pt, s, e) == []
    decreases e - s
  {
    if s < e {
      var s1 := s + 1;
      ComposeRangeZeros(p, c, pt, s1, e);
      ComposeRangeZerosStep(p, c, pt, s, s1, e);
    }
  }

  lemma ComposeRangeAgreeStep(p: int, c: seq<int>, s: nat, s1: nat, e: nat, d: seq<int>, t: nat, t1: nat, f: nat, pt: seq<int>)
    requires IsModulus(p) && IsPoly(p, c) && IsPoly(p, d) && IsPoly(p, pt)
    requires s < e <= |c| && t < f <= |d| && s1 == s + 1 && t1 == t + 1 && c[s] == d[t]
    requires ComposeRange(p, c, pt, s1, e) == ComposeRange(p, d, pt, t1, f)
    ensures ComposeRange(p, c, pt, s, e) == ComposeRange(p, d, pt, t, f)
  {
    ComposeRangeUnfold(p, c, pt, s, s1, e);
    ComposeRangeUnfold(p, d, pt, t, t1, f);
  }

  /** Equal runs of coefficients compose equally. */
  lemma {:induction false} ComposeRangeAgree(p: int, c: seq<int>, s: nat, e: nat, d: seq<int>, t: nat, f: nat, pt: seq<int>)
    requires IsModulus(p) && IsPoly(p, c) && IsPoly(p, d) && IsPoly(p, pt)
    requires s <= e <= |c| && t <= f <= |d| && e - s == f - t
    requires forall j :: s <= j < e ==> c[j] == d[j - s + t]
    ensures ComposeRange(p, c, pt, s, e) == ComposeRange(p, d, pt, t, f)
    decreases e - s
  {
    if s < e {
      var s1, t1 := s + 1, t + 1;
      ComposeRangeAgree(p, c, s1, e, d, t1, f, pt);
      assert c[s] == d[s - s + t];
      ComposeRangeAgreeStep(p, c, s, s1, e, d, t, t1, f, pt);
    }
  }

  /** getRange on values: the coefficients from .. to - 1, moved down to
      index 0 and trimmed. */
  function Range(p: int, c: seq<int>, from: nat, to: nat): (r: seq<int>)
    requires IsPoly(p, c) && from <= to <= |c|
    ensures IsPoly(p, r) && |r| <= to - from
    ensures forall i :: 0 <= i < to - from ==> Coef(r, i) == c[from + i]
  {
    TrimPoly(p, c[from..to]);
    var r := Trim(c[from..to]);
    assert forall i :: 0 <= i < to - from ==> Coef(r, i) == c[from + i] by {
      forall i | 0 <= i < to - from
        ensures Coef(r, i) == c[from + i]
      {
        CoefTrim(c[from..to], i);
      }
    }
    r
  }

  /** The kept coefficients of a Range are the run it was cut from. */
  lemma RangeLow(p: int, c: seq<int>, s: nat, e: nat)
    requires IsPoly(p, c) && s <= e <= |c|
    ensures s + |Range(p, c, s, e)| <= e
    ensures forall j :: 0 <= j < |Range(p, c, s, e)| ==> Range(p, c, s, e)[j] == c[j - 0 + s]
  {
    var g := Range(p, c, s, e);
    forall j | 0 <= j < |g|
      ensures g[j] == c[j - 0 + s]
    {
      assert Coef(g, j) == c[s + j];
    }
  }

  /** The coefficients a Range trims away are zero. */
  lemma RangeHigh(p: int, c: seq<int>, s: nat, e: nat)
    requires IsPoly(p, c) && s <= e <= |c|
    ensures s + |Range(p, c, s, e)| <= e
    ensures forall j :: s + |Range(p, c, s, e)| <= j < e ==> c[j] == 0
  {
    var g := Range(p, c, s, e);
    forall j | s + |g| <= j < e
      ensures c[j] == 0
    {
      assert Coef(g, j - s) == c[s + (j - s)];
    }
  }

  /** a + q * 0 == a. */
  lemma AddMulZero(p: int, a: seq<int>, q: seq<int>)
    requires IsModulus(p) && IsPoly(p, a) && IsPoly(p, q)
    ensures Add(p, a, Mul(p, q, [])) == a
  {
    MulZeroRight(p, q);
    AddZero(p, a);
  }

  /** A chunk cut out with Range composes like the run it was cut from. */
  lemma RangeCompose(p: int, c: seq<int>, pt: seq<int>, s: nat, e: nat)
    requires IsModulus(p) && IsPoly(p, c) && IsPoly(p, pt) && s <= e <= |c|
    ensures Compose(p, Range(p, c, s, e), pt) == ComposeRange(p, c, pt, s, e)
  {
    var g := Range(p, c, s, e);
    var n := |g|;
    var mid := s + n;
    RangeLow(p, c, s, e);
    ComposeRangeAgree(p, g, 0, n, c, s, mid, pt);
    RangeHigh(p, c, s, e);
    ComposeRangeZeros(p, c, pt, mid, e);
    ComposeSplit(p, c, pt, s, mid, e, n);
    AddMulZero(p, ComposeRange(p, c, pt, s, mid), Pow(p, pt, n));
  }

  // ---------------------------------------------------------------------
  // Tables of powers

  /** ps[0] is one and ps[i] is pt^i mod m for i >= 1. */
  predicate PowerTable(p: int, pt: seq<int>, m: seq<int>, ps: seq<seq<int>>)
    requires IsPrime(p) && IsPoly(p, pt) && IsPoly(p, m) && m != []
  {
    |ps| >= 1 && ps[0] == One(p)
    && forall i :: 1 <= i < |ps| ==> ps[i] == Rem(p, Pow(p, pt, i), m)
  }

  /** Every entry of a power table is congruent to its power. */
  lemma PowerTableCongruent(p: int, pt: seq<int>, m: seq<int>, ps: seq<seq<int>>, i: nat)
    requires IsPrime(p) && IsPoly(p, pt) && IsPoly(p, m) && m != []
    requires PowerTable(p, pt, m, ps) && i < |ps|
    ensures AllPoly(p, ps) && Rem(p, ps[i], m) == Rem(p, Pow(p, pt, i), m)
  {
    if i > 0 {
      RemRem(p, Pow(p, pt, i), m);
    }
  }

  lemma PowOne(p: int, a: seq<int>)
    requires IsModulus(p) && IsPoly(p, a)
    ensures Pow(p, a, 1) == a
  {
    MulOne(p, a);
  }

  /** Reducing the base first does not change a power mod m. */
  lemma {:induction false} RemPow(p: int, a: seq<int>, i: nat, m: seq<int>)
    requires IsPrime(p) && IsPoly(p, a) && IsPoly(p, m) && m != []
    ensures Rem(p, Pow(p, Rem(p, a, m), i), m) == Rem(p, Pow(p, a, i), m)
    decreases i
  {
    if i > 0 {
      var ra := Rem(p, a, m);
      var x, y := Pow(p, ra, i - 1), Pow(p, a, i - 1);
      assert Pow(p, ra, i) == Mul(p, ra, x);
      assert Pow(p, a, i) == Mul(p, a, y);
      RemPow(p, a, i - 1, m);
      RemRem(p, a, m);
      calc {
        Rem(p, Mul(p, ra, x), m);
        { RemMulBoth(p, ra, x, m); }
        Rem(p, Mul(p, Rem(p, ra, m), Rem(p, x, m)), m);
        Rem(p, Mul(p, ra, Rem(p, y, m)), m);
        { RemMulBoth(p, a, y, m); }
        Rem(p, Mul(p, a, y), m);
      }
    }
  }

  /** The next power mod m is the previous one times pt, both reduced. */
  lemma PowRemStep(p: int, pt: seq<int>, m: seq<int>, prev: seq<int>, base: seq<int>, k: nat, k1: nat)
    requires IsPrime(p) && IsPoly(p, pt) && IsPoly(p, m) && m != [] && k1 + 1 == k
    requires prev == Rem(p, Pow(p, pt, k1), m) && base == Rem(p, pt, m)
    ensures Rem(p, Mul(p, prev, base), m) == Rem(p, Pow(p, pt, k), m)
  {
    var y := Pow(p, pt, k1);
    PowUnfold(p, pt, k, k1);
    RemMulBoth(p, y, pt, m);
    MulComm(p, y, pt);
  }

  /** Appending the next power keeps a power table. */
  lemma PowerTableAppend(p: int, pt: seq<int>, m: seq<int>, ps: seq<seq<int>>, x: seq<int>, n: nat, n1: nat)
    requires IsPrime(p) && IsPoly(p, pt) && IsPoly(p, m) && m != []
    requires PowerTable(p, pt, m, ps) && n == |ps| && n1 + 1 == n && n1 >= 1
    requires x == Rem(p, Mul(p, ps[n1], ps[1]), m)
    ensures PowerTable(p, pt, m, ps + [x])
  {
    PowOne(p, pt);
    PowRemStep(p, pt, m, ps[n1], ps[1], n, n1);
    var ps' := ps + [x];
    forall i | 1 <= i < |ps'|
      ensures ps'[i] == Rem(p, Pow(p, pt, i), m)
    {
      if i < n {
        assert ps'[i] == ps[i];
      } else {
        assert i == n && ps'[i] == x;
      }
    }
  }

  /** polyPowers: one, poly mod m, and then each entry the previous one
      times poly mod m, reduced; n + 2 entries in all. */
  method PolyPowers(p: int, poly: seq<int>, m: seq<int>, n: nat) returns (exps: seq<seq<int>>)
    requires IsPrime(p) && IsPoly(p, poly) && IsPoly(p, m) && m != []
    ensures |exps| == n + 2 && PowerTable(p, poly, m, exps)
  {
    var base := Rem(p, poly, m);
    PowOne(p, poly);
    exps := [One(p), base];
    var prev := base;
    var i := 0;
    while i < n
      invariant 0 <= i <= n && |exps| == i + 2
      invariant prev == exps[i + 1] && base == exps[1]
      invariant PowerTable(p, poly, m, exps)
    {
      var n0, n1 := |exps|, i + 1;
      PowerTableAppend(p, poly, m, exps, Rem(p, Mul(p, prev, base), m), n0, n1);
      prev := Rem(p, Mul(p, prev, base), m);
      exps := exps + [prev];
      i := i + 1;
    }
  }

  /** One step of Monomial, with the smaller exponent given as a1. */
  lemma MonomialStep(p: int, a: nat, a1: nat)
    requires IsModulus(p) && a1 + 1 == a
    ensures Monomial(p, 1, a) == Shift(p, Monomial(p, 1, a1))
  {
  }

  /** The inductive step of MulMonomials. */
  lemma MulMonomialsStep(p: int, a: nat, a1: nat, b: nat, s: nat, s1: nat)
    requires IsModulus(p) && a1 + 1 == a && s1 + 1 == s && a1 + b == s1
    requires Mul(p, Monomial(p, 1, a1), Monomial(p, 1, b)) == Monomial(p, 1, s1)
    ensures Mul(p, Monomial(p, 1, a), Monomial(p, 1, b)) == Monomial(p, 1, s)
  {
    MonomialStep(p, a, a1);
    MulShiftLeft(p, Monomial(p, 1, a1), Monomial(p, 1, b));
    MonomialStep(p, s, s1);
  }

  /** x^a * x^b = x^(a + b). */
  lemma {:induction false} MulMonomials(p: int, a: nat, b: nat, s: nat)
    requires IsModulus(p) && a + b == s
    ensures Mul(p, Monomial(p, 1, a), Monomial(p, 1, b)) == Monomial(p, 1, s)
    decreases a
  {
    if a == 0 {
      assert b == s && Monomial(p, 1, a) == One(p);
      MulOne(p, Monomial(p, 1, b));
    } else {
      var a1, s1 := a - 1, s - 1;
      MulMonomials(p, a1, b, s1);
      MulMonomialsStep(p, a, a1, b, s, s1);
    }
  }

  /** The inductive step of PowMonomial. */
  lemma PowMonomialStep(p: int, q: nat, i: nat, i1: nat, qi: nat, qi1: nat)
    requires IsModulus(p) && i1 + 1 == i && qi1 + q == qi
    requires Pow(p, Monomial(p, 1, q), i1) == Monomial(p, 1, qi1)
    ensures Pow(p, Monomial(p, 1, q), i) == Monomial(p, 1, qi)
  {
    PowUnfold(p, Monomial(p, 1, q), i, i1);
    MulMonomials(p, q, qi1, qi);
  }

  /** q * (i - 1) + q = q * i, with i - 1 given as i1. */
  lemma MulPred(q: nat, i: nat, i1: nat)
    requires i1 + 1 == i
    ensures q * i1 + q == q * i
  {
  }

  /** (x^q)^i = x^(q * i). */
  lemma {:induction false} PowMonomial(p: int, q: nat, i: nat, qi: nat)
    requires IsModulus(p) && qi == q * i
    ensures Pow(p, Monomial(p, 1, q), i) == Monomial(p, 1, qi)
    decreases i
  {
    if i == 0 {
      assert qi == 0 && Pow(p, Monomial(p, 1, q), i) == One(p);
    } else {
      var i1 := i - 1;
      var qi1 := q * i1;
      MulPred(q, i, i1);
      PowMonomial(p, q, i1, qi1);
      PowMonomialStep(p, q, i, i1, qi, qi1);
    }
  }

  /** A power table of x^p lists x^(i*p) mod m. */
  lemma XPowerEntries(p: int, m: seq<int>, xs: seq<seq<int>>)
    requires IsPrime(p) && IsPoly(p, m) && m != []
    requires PowerTable(p, Monomial(p, 1, p), m, xs)
    ensures forall i :: 1 <= i < |xs| ==> xs[i] == Rem(p, Monomial(p, 1, p * i), m)
  {
    forall i | 1 <= i < |xs|
      ensures xs[i] == Rem(p, Monomial(p, 1, p * i), m)
    {
      PowMonomial(p, p, i, p * i);
    }
  }

  lemma PowerTableReduced(p: int, pt: seq<int>, m: seq<int>, ps: seq<seq<int>>)
    requires IsPrime(p) && IsPoly(p, pt) && IsPoly(p, m) && m != []
    requires PowerTable(p, Rem(p, pt, m), m, ps)
    ensures PowerTable(p, pt, m, ps)
  {
    forall i | 1 <= i < |ps|
      ensures ps[i] == Rem(p, Pow(p, pt, i), m)
    {
      RemPow(p, pt, i, m);
    }
  }

  /** xPowers: the powers of x^q mod m, where q = p is the cardinality of
      the coefficient field, for exponents up to one past the degree of m;
      entry i is (x^q)^i = x^(i*q) mod m. */
  method XPowers(p: int, m: seq<int>) returns (xs: seq<seq<int>>)
    requires IsPrime(p) && IsPoly(p, m) && m != []
    ensures |xs| == Degree(m) + 2 && PowerTable(p, Monomial(p, 1, p), m, xs)
    ensures xs[0] == One(p) && forall i :: 1 <= i < |xs| ==> xs[i] == Rem(p, Monomial(p, 1, p * i), m)
  {
    var xq := Rem(p, Monomial(p, 1, p), m);
    xs := PolyPowers(p, xq, m, Degree(m));
    PowerTableReduced(p, Monomial(p, 1, p), m, xs);
    XPowerEntries(p, m, xs);
  }

  // ---------------------------------------------------------------------
  // Linear combination of a table (powModulusMod0)

  /** The sum of c[j] * P[j] for j from i to the end of c. */
  function CombineFrom(p: int, c: seq<int>, P: seq<seq<int>>, i: nat): (r: seq<int>)
    requires IsModulus(p) && IsPoly(p, c) && AllPoly(p, P) && i <= |c| <= |P|
    ensures IsPoly(p, r)
    decreases |c| - i
  {
    if i == |c| then []
    else Add(p, Scale(p, c[i], P[i]), CombineFrom(p, c, P, i + 1))
  }

  /** pk * (c + pt * rest) == c * pk + (pt * pk) * rest. */
  lemma CombineRing(p: int, c: int, pk: seq<int>, pt: seq<int>, rest: seq<int>)
    requires IsModulus(p) && InRange(c, p) && IsPoly(p, pk) && IsPoly(p, pt) && IsPoly(p, rest)
    ensures Mul(p, pk, Add(p, Const(p, c), Mul(p, pt, rest)))
      == Add(p, Scale(p, c, pk), Mul(p, Mul(p, pt, pk), rest))
  {
    var kc := Const(p, c);
    MulDistribLeft(p, pk, kc, Mul(p, pt, rest));
    MulComm(p, pk, kc);
    MulConstLeft(p, c, pk);
    MulAssoc(p, pk, pt, rest);
    MulComm(p, pk, pt);
  }

  /** The algebra of one combination step: q congruent to pk and t
      congruent to (pt * pk) * rest give c * q + t congruent to
      pk * (c + pt * rest). */
  lemma CombineAlgebra(p: int, m: seq<int>, c: int, q: seq<int>, pk: seq<int>, t: seq<int>, pt: seq<int>, rest: seq<int>)
    requires IsPrime(p) && IsPoly(p, m) && m != [] && InRange(c, p)
    requires IsPoly(p, q) && IsPoly(p, pk) && IsPoly(p, t) && IsPoly(p, pt) && IsPoly(p, rest)
    requires Rem(p, q, m) == Rem(p, pk, m)
    requires Rem(p, t, m) == Rem(p, Mul(p, Mul(p, pt, pk), rest), m)
    ensures Rem(p, Add(p, Scale(p, c, q), t), m) == Rem(p, Mul(p, pk, Add(p, Const(p, c), Mul(p, pt, rest))), m)
  {
    var s, s2 := Scale(p, c, q), Scale(p, c, pk);
    var t2 := Mul(p, Mul(p, pt, pk), rest);
    calc {
      Rem(p, Add(p, s, t), m);
      { RemAddBoth(p, s, t, m); }
      Rem(p, Add(p, Rem(p, s, m), Rem(p, t, m)), m);
      { RemScale(p, c, q, m); RemScale(p, c, pk, m); }
      Rem(p, Add(p, Rem(p, s2, m), Rem(p, t2, m)), m);
      { RemAddBoth(p, s2, t2, m); }
      Rem(p, Add(p, s2, t2), m);
      { CombineRing(p, c, pk, pt, rest); }
      Rem(p, Mul(p, pk, Add(p, Const(p, c), Mul(p, pt, rest))), m);
    }
  }

  /** One step of CombineFrom, with the next index given as i1. */
  lemma CombineFromUnfold(p: int, c: seq<int>, P: seq<seq<int>>, i: nat, i1: nat)
    requires IsModulus(p) && IsPoly(p, c) && AllPoly(p, P) && i < |c| <= |P| && i1 == i + 1
    ensures CombineFrom(p, c, P, i) == Add(p, Scale(p, c[i], P[i]), CombineFrom(p, c, P, i1))
  {
  }

  lemma CombineShiftedStep(p: int, c: seq<int>, P: seq<seq<int>>, pt: seq<int>, m: seq<int>, i: nat, i1: nat)
    requires IsPrime(p) && IsPoly(p, c) && AllPoly(p, P) && i < |c| <= |P| && i1 == i + 1
    requires IsPoly(p, pt) && IsPoly(p, m) && m != []
    requires Rem(p, P[i], m) == Rem(p, Pow(p, pt, i), m)
    requires Rem(p, CombineFrom(p, c, P, i1), m)
      == Rem(p, Mul(p, Pow(p, pt, i1), ComposeRange(p, c, pt, i1, |c|)), m)
    ensures Rem(p, CombineFrom(p, c, P, i), m) == Rem(p, Mul(p, Pow(p, pt, i), ComposeRange(p, c, pt, i, |c|)), m)
  {
    CombineFromUnfold(p, c, P, i, i1);
    ComposeRangeUnfold(p, c, pt, i, i1, |c|);
    PowUnfold(p, pt, i1, i);
    CombineAlgebra(p, m, c[i], P[i], Pow(p, pt, i), CombineFrom(p, c, P, i1), pt,
      ComposeRange(p, c, pt, i1, |c|));
  }

  /** With P[j] congruent to pt^j, the combination from i is pt^i times the
      coefficients from i composed with pt, mod m. */
  lemma {:induction false} CombineShifted(p: int, c: seq<int>, P: seq<seq<int>>, pt: seq<int>, m: seq<int>, i: nat)
    requires IsPrime(p) && IsPoly(p, c) && AllPoly(p, P) && i <= |c| <= |P|
    requires IsPoly(p, pt) && IsPoly(p, m) && m != []
    requires forall j :: 0 <= j < |c| ==> Rem(p, P[j], m) == Rem(p, Pow(p, pt, j), m)
    ensures Rem(p, CombineFrom(p, c, P, i), m) == Rem(p, Mul(p, Pow(p, pt, i), ComposeRange(p, c, pt, i, |c|)), m)
    decreases |c| - i
  {
    if i == |c| {
      MulZeroRight(p, Pow(p, pt, i));
    } else {
      var i1 := i + 1;
      CombineShifted(p, c, P, pt, m, i1);
      CombineShiftedStep(p, c, P, pt, m, i, i1);
    }
  }

  /** The partner of powModulusMod0: over a power table of pt the
      combination is c(pt) mod m. */
  lemma CombinePowers(p: int, c: seq<int>, P: seq<seq<int>>, pt: seq<int>, m: seq<int>)
    requires IsPrime(p) && IsPoly(p, c) && IsPoly(p, pt) && IsPoly(p, m) && m != []
    requires PowerTable(p, pt, m, P) && |c| <= |P|
    ensures AllPoly(p, P) && Rem(p, CombineFrom(p, c, P, 0), m) == Rem(p, Compose(p, c, pt), m)
  {
    PowerTableCongruent(p, pt, m, P, 0);
    forall j | 0 <= j < |c|
      ensures Rem(p, P[j], m) == Rem(p, Pow(p, pt, j), m)
    {
      PowerTableCongruent(p, pt, m, P, j);
    }
    CombineShifted(p, c, P, pt, m, 0);
    MulOne(p, Compose(p, c, pt));
  }

  lemma CombineStep(p: int, c: seq<int>, P: seq<seq<int>>, i: nat, i1: nat, rest: seq<int>)
    requires IsModulus(p) && IsPoly(p, c) && AllPoly(p, P) && i < |c| <= |P| && i1 == i + 1
    requires rest == CombineFrom(p, c, P, i1)
    ensures CombineFrom(p, c, P, i)
      == if c[i] == 0 then rest else Add(p, rest, Scale(p, c[i], P[i]))
  {
    CombineFromUnfold(p, c, P, i, i1);
    if c[i] == 0 {
      ScaleZero(p, P[i]);
      AddZero(p, rest);
    } else {
      AddComm(p, Scale(p, c[i], P[i]), rest);
    }
  }


  /** powModulusMod0: the sum of poly[i] * xPowers[i] over the nonzero
      coefficients, reduced mod m. */
  method PowModulusMod0(p: int, poly: seq<int>, m: seq<int>, xPowers: seq<seq<int>>) returns (r: seq<int>)
    requires IsPrime(p) && IsPoly(p, poly) && IsPoly(p, m) && m != []
    requires AllPoly(p, xPowers) && |poly| <= |xPowers|
    ensures r == Rem(p, CombineFrom(p, poly, xPowers, 0), m)
  {
    var res: seq<int> := [];
    var i := |poly|;
    while i > 0
      invariant 0 <= i <= |poly|
      invariant res == CombineFrom(p, poly, xPowers, i)
    {
      var i1 := i;
      i := i - 1;
      CombineStep(p, poly, xPowers, i, i1, res);
      if poly[i] != 0 {
        res := Add(p, res, Scale(p, poly[i], xPowers[i]));
      }
    }
    r := Rem(p, res, m);
  }

  /** powModulusMod: poly is reduced mod m first, then combined with a
      table of powers of pt that has at least deg(m) + 1 entries; the
      result is the reduced poly composed with pt, mod m. */
  method PowModulusMod(p: int, poly: seq<int>, m: seq<int>, xPowers: seq<seq<int>>, ghost pt: seq<int>)
    returns (r: seq<int>)
    requires IsPrime(p) && IsPoly(p, poly) && IsPoly(p, m) && m != [] && IsPoly(p, pt)
    requires PowerTable(p, pt, m, xPowers) && |m| <= |xPowers|
    ensures r == Rem(p, Compose(p, Rem(p, poly, m), pt), m)
  {
    var reduced := Rem(p, poly, m);
    PowerTableCongruent(p, pt, m, xPowers, 0);
    r := PowModulusMod0(p, reduced, m, xPowers);
    CombinePowers(p, reduced, xPowers, pt, m);
  }

  // ---------------------------------------------------------------------
  // Horner

  /** One Horner step mod m: reducing the accumulated value first does not
      change the result. */
  lemma HornerAlgebra(p: int, rest: seq<int>, pt: seq<int>, k: seq<int>, m: seq<int>)
    requires IsPrime(p) && IsPoly(p, rest) && IsPoly(p, pt) && IsPoly(p, k) && IsPoly(p, m) && m != []
    ensures Rem(p, Add(p, Mul(p, Rem(p, rest, m), pt), k), m) == Rem(p, Add(p, k, Mul(p, pt, rest)), m)
  {
    var x := Mul(p, Rem(p, rest, m), pt);
    calc {
      Rem(p, Add(p, x, k), m);
      { RemAddLeft(p, x, k, m); }
      Rem(p, Add(p, Rem(p, x, m), k), m);
      { RemMulLeft(p, rest, pt, m); }
      Rem(p, Add(p, Rem(p, Mul(p, rest, pt), m), k), m);
      { RemAddLeft(p, Mul(p, rest, pt), k, m); }
      Rem(p, Add(p, Mul(p, rest, pt), k), m);
      { MulComm(p, rest, pt); AddComm(p, Mul(p, pt, rest), k); }
      Rem(p, Add(p, k, Mul(p, pt, rest)), m);
    }
  }

  /** A constant is its own composition, and its own remainder by a
      modulus of positive degree. */
  lemma ComposeConstant(p: int, c: seq<int>, pt: seq<int>, m: seq<int>)
    requires IsPrime(p) && IsPoly(p, c) && IsPoly(p, pt) && IsPoly(p, m) && |m| >= 2 && |c| <= 1
    ensures Rem(p, Compose(p, c, pt), m) == c
  {
    if c != [] {
      MulZeroRight(p, pt);
      AddZero(p, Const(p, c[0]));
    }
    RemSmall(p, c, m);
  }

  /** compositionHorner: a constant is returned as it is; otherwise Horner
      from the top coefficient, reducing mod m at every step. */
  method CompositionHorner(p: int, poly: seq<int>, pt: seq<int>, m: seq<int>) returns (r: seq<int>)
    requires IsPrime(p) && IsPoly(p, poly) && IsPoly(p, pt) && IsPoly(p, m) && m != []
    ensures |poly| <= 1 ==> r == poly
    ensures |poly| > 1 ==> r == Rem(p, Compose(p, poly, pt), m)
  {
    if |poly| <= 1 {
      return poly;
    }
    var res: seq<int> := [];
    var i := |poly|;
    while i > 0
      invariant 0 <= i <= |poly|
      invariant res == Rem(p, ComposeRange(p, poly, pt, i, |poly|), m)
    {
      i := i - 1;
      HornerAlgebra(p, ComposeRange(p, poly, pt, i + 1, |poly|), pt, Const(p, poly[i]), m);
      res := Rem(p, Add(p, Mul(p, res, pt), Const(p, poly[i])), m);
    }
    r := res;
  }

  // ---------------------------------------------------------------------
  // Brent-Kung

  /** Where the chunk that starts at s ends: t coefficients later, or at
      the end of c. */
  function ChunkEnd(c: seq<int>, t: int, s: int): int {
    if s + t <= |c| then s + t else |c|
  }

  /** The chunk starts of Brent-Kung: the first is 0, each next one is the
      end of the previous chunk, min(start + t, |c|), and all lie inside c. */
  predicate ChunkStarts(c: seq<int>, t: int, starts: seq<int>) {
    (starts != [] ==> starts[0] == 0)
    && (forall j :: 0 <= j < |starts| ==> 0 <= starts[j] < |c|)
    && (forall j :: 0 <= j < |starts| - 1 ==> starts[j + 1] == ChunkEnd(c, t, starts[j]))
  }

  /** gj[j] is chunk j composed with pt, mod m. */
  predicate ChunkValues(p: int, c: seq<int>, pt: seq<int>, m: seq<int>, t: int, starts: seq<int>, gj: seq<seq<int>>)
    requires IsPrime(p) && IsPoly(p, c) && IsPoly(p, pt) && IsPoly(p, m) && m != []
    requires ChunkStarts(c, t, starts) && t >= 1
  {
    |gj| == |starts|
    && forall j :: 0 <= j < |gj| ==>
         gj[j] == Rem(p, ComposeRange(p, c, pt, starts[j], ChunkEnd(c, t, starts[j])), m)
  }

  /** One recombination step mod m: the reduced high part times the
      reduced pt^t plus the reduced chunk. */
  lemma BrentKungAlgebra(p: int, m: seq<int>, a: seq<int>, b: seq<int>, pk: seq<int>)
    requires IsPrime(p) && IsPoly(p, m) && m != [] && IsPoly(p, a) && IsPoly(p, b) && IsPoly(p, pk)
    ensures Rem(p, Add(p, Mul(p, Rem(p, b, m), Rem(p, pk, m)), Rem(p, a, m)), m)
      == Rem(p, Add(p, a, Mul(p, pk, b)), m)
  {
    var rb, rk, ra := Rem(p, b, m), Rem(p, pk, m), Rem(p, a, m);
    calc {
      Rem(p, Add(p, Mul(p, rb, rk), ra), m);
      { RemAddBoth(p, Mul(p, rb, rk), ra, m); RemRem(p, a, m); }
      Rem(p, Add(p, Rem(p, Mul(p, rb, rk), m), ra), m);
      { RemMulBoth(p, rb, rk, m); RemRem(p, b, m); RemRem(p, pk, m); RemMulBoth(p, b, pk, m); }
      Rem(p, Add(p, Rem(p, Mul(p, b, pk), m), ra), m);
      { RemAddBoth(p, Mul(p, b, pk), a, m); RemRem(p, Mul(p, b, pk), m); }
      Rem(p, Add(p, Mul(p, b, pk), a), m);
      { MulComm(p, b, pk); AddComm(p, Mul(p, pk, b), a); }
      Rem(p, Add(p, a, Mul(p, pk, b)), m);
    }
  }

  /** A full chunk s .. mid - 1 of t coefficients followed by more. */
  lemma BrentKungFullStep(p: int, c: seq<int>, pt: seq<int>, m: seq<int>, t: nat, s: nat, mid: nat, e: nat)
    requires IsPrime(p) && IsPoly(p, c) && IsPoly(p, pt) && IsPoly(p, m) && m != []
    requires s + t == mid && mid < e && e == |c|
    ensures Rem(p, Add(p, Mul(p, Rem(p, ComposeRange(p, c, pt, mid, e), m), Rem(p, Pow(p, pt, t), m)),
                          Rem(p, ComposeRange(p, c, pt, s, mid), m)), m)
      == Rem(p, ComposeRange(p, c, pt, s, e), m)
  {
    ComposeSplit(p, c, pt, s, mid, e, t);
    BrentKungAlgebra(p, m, ComposeRange(p, c, pt, s, mid), ComposeRange(p, c, pt, mid, e), Pow(p, pt, t));
  }

  /** The last chunk: the accumulated value is still zero. */
  lemma BrentKungLastStep(p: int, m: seq<int>, g: seq<int>, ptT: seq<int>)
    requires IsPrime(p) && IsPoly(p, m) && m != [] && IsPoly(p, g) && IsPoly(p, ptT)
    ensures Rem(p, Add(p, Mul(p, [], ptT), Rem(p, g, m)), m) == Rem(p, g, m)
  {
    AddZero(p, Rem(p, g, m));
    RemRem(p, g, m);
  }

  /** Every chunk but the last is full. */
  lemma ChunkFull(c: seq<int>, t: int, starts: seq<int>, j: nat, j1: nat)
    requires ChunkStarts(c, t, starts) && j + 1 == j1 && j1 < |starts|
    ensures starts[j1] == starts[j] + t && starts[j1] < |c|
  {
  }

  /** Where the last chunk of starts ends; 0 before the first chunk. */
  function LastEnd(c: seq<int>, t: int, starts: seq<int>): int {
    if starts == [] then 0 else ChunkEnd(c, t, starts[|starts| - 1])
  }

  /** Appending the chunk that starts at i keeps the chunk starts. */
  lemma ChunkStartsAppend(c: seq<int>, t: int, starts: seq<int>, i: int, starts': seq<int>)
    requires ChunkStarts(c, t, starts) && 0 <= i < |c| && starts' == starts + [i]
    requires i == LastEnd(c, t, starts)
    ensures ChunkStarts(c, t, starts') && LastEnd(c, t, starts') == ChunkEnd(c, t, i)
  {
    forall j | 0 <= j < |starts'| - 1
      ensures starts'[j + 1] == ChunkEnd(c, t, starts'[j])
    {
      if j + 1 < |starts| {
        assert starts'[j + 1] == starts[j + 1] && starts'[j] == starts[j];
      }
    }
  }

  /** Appending the value of the chunk that starts at i keeps the chunk values. */
  lemma ChunkValuesAppend(p: int, c: seq<int>, pt: seq<int>, m: seq<int>, t: int, starts: seq<int>, gj: seq<seq<int>>,
                          i: int, v: seq<int>, starts': seq<int>, gj': seq<seq<int>>)
    requires IsPrime(p) && IsPoly(p, c) && IsPoly(p, pt) && IsPoly(p, m) && m != [] && t >= 1
    requires ChunkStarts(c, t, starts) && ChunkStarts(c, t, starts') && ChunkValues(p, c, pt, m, t, starts, gj)
    requires starts' == starts + [i] && gj' == gj + [v] && 0 <= i < |c|
    requires v == Rem(p, ComposeRange(p, c, pt, i, ChunkEnd(c, t, i)), m)
    ensures ChunkValues(p, c, pt, m, t, starts', gj')
  {
    forall j | 0 <= j < |gj'|
      ensures gj'[j] == Rem(p, ComposeRange(p, c, pt, starts'[j], ChunkEnd(c, t, starts'[j])), m)
    {
      if j < |gj| {
        assert gj'[j] == gj[j] && starts'[j] == starts[j];
      } else {
        assert gj'[j] == v && starts'[j] == i;
      }
    }
  }

  /** One chunk of poly, combined with the table of powers of pt, is the
      chunk composed with pt, mod m. */
  lemma ChunkValue(p: int, c: seq<int>, pt: seq<int>, m: seq<int>, P: seq<seq<int>>, i: nat, to: nat, v: seq<int>)
    requires IsPrime(p) && IsPoly(p, c) && IsPoly(p, pt) && IsPoly(p, m) && m != []
    requires PowerTable(p, pt, m, P) && i <= to <= |c| && to - i <= |P|
    requires v == Rem(p, CombineFrom(p, Range(p, c, i, to), P, 0), m)
    ensures v == Rem(p, ComposeRange(p, c, pt, i, to), m)
  {
    var g := Range(p, c, i, to);
    CombinePowers(p, g, P, pt, m);
    RangeCompose(p, c, pt, i, to);
  }

  /** One recombination step of Brent-Kung, from chunk k1 down to chunk k:
      the value accumulated so far times pt^t plus chunk k, mod m, is the
      composition of the coefficients from starts[k] on. */
  lemma BrentKungStep(p: int, c: seq<int>, pt: seq<int>, m: seq<int>, t: int, starts: seq<int>, gj: seq<seq<int>>,
                      ptT: seq<int>, k: nat, k1: nat, cur: nat, res: seq<int>)
    requires IsPrime(p) && IsPoly(p, c) && IsPoly(p, pt) && IsPoly(p, m) && m != [] && t >= 1
    requires ChunkStarts(c, t, starts) && ChunkValues(p, c, pt, m, t, starts, gj)
    requires starts != [] && LastEnd(c, t, starts) == |c|
    requires ptT == Rem(p, Pow(p, pt, t), m)
    requires k + 1 == k1 && k1 <= |gj| && cur <= |c|
    requires k1 < |gj| ==> cur == starts[k1]
    requires k1 == |gj| ==> cur == |c| && res == []
    requires res == Rem(p, ComposeRange(p, c, pt, cur, |c|), m)
    ensures IsPoly(p, res) && AllPoly(p, gj)
    ensures Rem(p, Add(p, Mul(p, res, ptT), gj[k]), m) == Rem(p, ComposeRange(p, c, pt, starts[k], |c|), m)
  {
    var s, e := starts[k], |c|;
    if k1 < |gj| {
      ChunkFull(c, t, starts, k, k1);
      assert gj[k] == Rem(p, ComposeRange(p, c, pt, s, cur), m);
      BrentKungFullStep(p, c, pt, m, t, s, cur, e);
    } else {
      assert k == |starts| - 1;
      assert gj[k] == Rem(p, ComposeRange(p, c, pt, s, e), m);
      BrentKungLastStep(p, m, ComposeRange(p, c, pt, s, e), ptT);
    }
  }

  /** One chunk of the first phase: the chunk [i, to) is combined with the
      table of powers, and both chunk invariants extend to it. */
  lemma ChunkAppend(p: int, c: seq<int>, pt: seq<int>, m: seq<int>, P: seq<seq<int>>, t: int,
                    starts: seq<int>, gj: seq<seq<int>>, i: int, to: nat, v: seq<int>)
    requires IsPrime(p) && IsPoly(p, c) && IsPoly(p, pt) && IsPoly(p, m) && m != [] && 1 <= t < |P|
    requires PowerTable(p, pt, m, P)
    requires ChunkStarts(c, t, starts) && ChunkValues(p, c, pt, m, t, starts, gj)
    requires 0 <= i < |c| && i == LastEnd(c, t, starts) && to == ChunkEnd(c, t, i)
    requires v == Rem(p, CombineFrom(p, Range(p, c, i, to), P, 0), m)
    ensures ChunkStarts(c, t, starts + [i]) && ChunkValues(p, c, pt, m, t, starts + [i], gj + [v])
    ensures LastEnd(c, t, starts + [i]) == to
  {
    ChunkValue(p, c, pt, m, P, i, to, v);
    ChunkStartsAppend(c, t, starts, i, starts + [i]);
    ChunkValuesAppend(p, c, pt, m, t, starts, gj, i, v, starts + [i], gj + [v]);
  }

  /** The first phase of compositionBrentKung: the coefficients are cut
      into chunks [i, min(i + t, deg + 1)) that cover 0 .. deg once, and
      each chunk is combined with the table of powers, mod m. */
  method ChunkCompositions(p: int, poly: seq<int>, pointPowers: seq<seq<int>>, m: seq<int>, t: int, ghost pt: seq<int>)
    returns (gj: seq<seq<int>>, ghost starts: seq<int>)
    requires IsPrime(p) && IsPoly(p, poly) && IsPoly(p, m) && m != [] && IsPoly(p, pt)
    requires PowerTable(p, pt, m, pointPowers) && 1 <= t < |pointPowers| && |poly| >= 1
    ensures ChunkStarts(poly, t, starts) && ChunkValues(p, poly, pt, m, t, starts, gj)
    ensures starts != [] && LastEnd(poly, t, starts) == |poly|
  {
    gj := [];
    starts := [];
    var degree := |poly| - 1;
    var i := 0;
    while i <= degree
      invariant 0 <= i <= |poly|
      invariant ChunkStarts(poly, t, starts) && ChunkValues(p, poly, pt, m, t, starts, gj)
      invariant i == LastEnd(poly, t, starts) && (starts == [] ==> i == 0)
      decreases |poly| - i
    {
      var to := i + t;
      if to > degree + 1 {
        to := degree + 1;
      }
      assert to == ChunkEnd(poly, t, i);
      var g := Range(p, poly, i, to);
      var v := PowModulusMod0(p, g, m, pointPowers);
      ChunkAppend(p, poly, pt, m, pointPowers, t, starts, gj, i, to, v);
      gj := gj + [v];
      starts := starts + [i];
      i := to;
    }
  }

  /** The second phase of compositionBrentKung: the chunk values are
      recombined by Horner in ptT = pt^t mod m, from the last chunk down,
      reducing mod m at every step; the result is poly(pt) mod m. */
  method RecombineChunks(p: int, poly: seq<int>, gj: seq<seq<int>>, ptT: seq<int>, m: seq<int>, t: int,
                         ghost pt: seq<int>, ghost starts: seq<int>)
    returns (r: seq<int>)
    requires IsPrime(p) && IsPoly(p, poly) && IsPoly(p, m) && m != [] && IsPoly(p, pt) && t >= 1
    requires ChunkStarts(poly, t, starts) && ChunkValues(p, poly, pt, m, t, starts, gj)
    requires starts != [] && LastEnd(poly, t, starts) == |poly|
    requires ptT == Rem(p, Pow(p, pt, t), m)
    ensures r == Rem(p, Compose(p, poly, pt), m)
  {
    var e := |poly|;
    var res: seq<int> := [];
    var k := |gj|;
    ghost var cur: nat := e;
    while k > 0
      invariant 0 <= k <= |gj| && cur <= e
      invariant res == Rem(p, ComposeRange(p, poly, pt, cur, e), m)
      invariant k < |gj| ==> cur == starts[k]
      invariant k == |gj| ==> cur == e && res == []
    {
      var k1 := k;
      k := k - 1;
      BrentKungStep(p, poly, pt, m, t, starts, gj, ptT, k, k1, cur, res);
      res := Rem(p, Add(p, Mul(p, res, ptT), gj[k]), m);
      cur := starts[k];
    }
    r := res;
  }

  /** compositionBrentKung with an explicit splitting parameter t and a
      table of powers of the point: a constant is returned as it is;
      otherwise the chunk values are computed and recombined, and the
      result is poly(pt) mod m. */
  method CompositionBrentKung(p: int, poly: seq<int>, pointPowers: seq<seq<int>>, m: seq<int>, t: int, ghost pt: seq<int>)
    returns (r: seq<int>)
    requires IsPrime(p) && IsPoly(p, poly) && IsPoly(p, m) && m != [] && IsPoly(p, pt)
    requires PowerTable(p, pt, m, pointPowers) && 1 <= t < |pointPowers|
    ensures |poly| <= 1 ==> r == poly
    ensures |poly| > 1 ==> r == Rem(p, Compose(p, poly, pt), m)
  {
    if |poly| <= 1 {
      return poly;
    }
    var gj, starts := ChunkCompositions(p, poly, pointPowers, m, t, pt);
    r := RecombineChunks(p, poly, gj, pointPowers[t], m, t, pt, starts);
  }
}
