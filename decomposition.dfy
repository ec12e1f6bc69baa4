/** Factor decompositions as values: a constant factor and a list of
    factors with their exponents, together with the operations the
    square-free factorization uses to build them. The decomposition stands
    for the constant times the product of the factors raised to their
    exponents; every operation is paired with a lemma saying what it does
    to that product. */
module Decompositions {
  import opened ModArith
  import opened UPoly
  import opened PolyRing

  /** unit * factors[0]^exponents[0] * ... */
  datatype Decomposition = Decomposition(unit: seq<int>, factors: seq<seq<int>>, exponents: seq<nat>)

  predicate WellFormed(p: int, d: Decomposition) {
    IsPoly(p, d.unit) && AllPoly(p, d.factors) && |d.factors| == |d.exponents|
  }

  /** constantFactor(c): no polynomial factors. */
  function ConstantFactor(c: seq<int>): (d: Decomposition)
    ensures d.unit == c && |d.factors| == 0 && |d.exponents| == 0
  {
    Decomposition(c, [], [])
  }

  /** oneFactor(c, f): the single factor f with exponent one. */
  function OneFactor(c: seq<int>, f: seq<int>): (d: Decomposition)
    ensures d.unit == c && |d.factors| == 1 && d.factors[0] == f && d.exponents == [1]
  {
    Decomposition(c, [f], [1])
  }

  /** addFactor(f, e): f^e is appended after the existing factors. */
  function AddFactor(d: Decomposition, f: seq<int>, e: nat): (r: Decomposition)
    ensures r.unit == d.unit && |r.factors| == |d.factors| + 1 && |r.exponents| == |d.exponents| + 1
    ensures forall i :: 0 <= i < |d.factors| ==> r.factors[i] == d.factors[i]
    ensures forall i :: 0 <= i < |d.exponents| ==> r.exponents[i] == d.exponents[i]
    ensures r.factors[|d.factors|] == f && r.exponents[|d.exponents|] == e
  {
    Decomposition(d.unit, d.factors + [f], d.exponents + [e])
  }

  /** setConstantFactor(c): only the constant changes. */
  function SetConstantFactor(d: Decomposition, c: seq<int>): (r: Decomposition)
    ensures r.unit == c && r.factors == d.factors && r.exponents == d.exponents
  {
    Decomposition(c, d.factors, d.exponents)
  }

  /** Every exponent multiplied by k. */
  function Scaled(es: seq<nat>, k: nat): (r: seq<nat>)
    ensures |r| == |es|
    ensures forall i :: 0 <= i < |es| ==> r[i] == es[i] * k
  {
    seq(|es|, i requires 0 <= i < |es| => es[i] * k)
  }

  /** raiseExponents(k): the factors stay, every exponent is multiplied by k. */
  function RaiseExponents(d: Decomposition, k: nat): (r: Decomposition)
    ensures r.unit == d.unit && r.factors == d.factors
    ensures |r.exponents| == |d.exponents|
    ensures forall i :: 0 <= i < |d.exponents| ==> r.exponents[i] == d.exponents[i] * k
  {
    Decomposition(d.unit, d.factors, Scaled(d.exponents, k))
  }

  /** addAll(o): the factors of o follow those of d and the constants are
      multiplied. */
  function AddAll(p: int, d: Decomposition, o: Decomposition): (r: Decomposition)
    requires IsModulus(p) && IsPoly(p, d.unit) && IsPoly(p, o.unit)
    ensures r.unit == Mul(p, d.unit, o.unit)
    ensures |r.factors| == |d.factors| + |o.factors| && |r.exponents| == |d.exponents| + |o.exponents|
    ensures forall i :: 0 <= i < |d.factors| ==> r.factors[i] == d.factors[i]
    ensures forall i :: 0 <= i < |o.factors| ==> r.factors[|d.factors| + i] == o.factors[i]
    ensures forall i :: 0 <= i < |d.exponents| ==> r.exponents[i] == d.exponents[i]
    ensures forall i :: 0 <= i < |o.exponents| ==> r.exponents[|d.exponents| + i] == o.exponents[i]
  {
    AppendIndex(d.factors, o.factors);
    AppendIndex(d.exponents, o.exponents);
    Decomposition(Mul(p, d.unit, o.unit), d.factors + o.factors, d.exponents + o.exponents)
  }

  /** Where the entries of xs and of ys sit in xs + ys. */
  lemma AppendIndex<T>(xs: seq<T>, ys: seq<T>)
    ensures |xs + ys| == |xs| + |ys|
    ensures forall i :: 0 <= i < |xs| ==> (xs + ys)[i] == xs[i]
    ensures forall i :: 0 <= i < |ys| ==> (xs + ys)[|xs| + i] == ys[i]
  {
  }

  // ---------------------------------------------------------------------
  // The polynomial a decomposition stands for

  /** The product of fs[i]^es[i] over all i, built from the last entry. */
  function Product(p: int, fs: seq<seq<int>>, es: seq<nat>): (r: seq<int>)
    requires IsModulus(p) && AllPoly(p, fs) && |fs| == |es|
    ensures IsPoly(p, r)
    decreases |fs|
  {
    if fs == [] then One(p)
    else
      assert AllPoly(p, fs[..|fs| - 1]);
      Mul(p, Product(p, fs[..|fs| - 1], es[..|es| - 1]), Pow(p, fs[|fs| - 1], es[|es| - 1]))
  }

  /** unit times the product of the factors to their exponents. */
  function Expand(p: int, d: Decomposition): (r: seq<int>)
    requires IsModulus(p) && WellFormed(p, d)
    ensures IsPoly(p, r)
  {
    Mul(p, d.unit, Product(p, d.factors, d.exponents))
  }

  /** Dropping the last entry of xs + [x] gives xs back. */
  lemma InitSnoc<T>(xs: seq<T>, x: T)
    ensures (xs + [x])[..|xs + [x]| - 1] == xs && (xs + [x])[|xs + [x]| - 1] == x
  {
  }

  /** xs + ys is xs + (ys without its last entry), followed by that entry. */
  lemma AppendInit<T>(xs: seq<T>, ys: seq<T>)
    requires ys != []
    ensures (xs + ys[..|ys| - 1]) + [ys[|ys| - 1]] == xs + ys
  {
    assert ys == ys[..|ys| - 1] + [ys[|ys| - 1]];
  }

  /** The product over a list with one more entry gains that entry's power. */
  lemma ProductSnoc(p: int, fs: seq<seq<int>>, es: seq<nat>, f: seq<int>, e: nat)
    requires IsModulus(p) && AllPoly(p, fs) && |fs| == |es| && IsPoly(p, f)
    ensures AllPoly(p, fs + [f])
    ensures Product(p, fs + [f], es + [e]) == Mul(p, Product(p, fs, es), Pow(p, f, e))
  {
    assert AllPoly(p, fs + [f]);
    InitSnoc(fs, f);
    InitSnoc(es, e);
  }

  /** Appending f^e multiplies the expansion by f^e. */
  lemma ExpandAddFactor(p: int, d: Decomposition, f: seq<int>, e: nat)
    requires IsModulus(p) && WellFormed(p, d) && IsPoly(p, f)
    ensures WellFormed(p, AddFactor(d, f, e))
    ensures Expand(p, AddFactor(d, f, e)) == Mul(p, Expand(p, d), Pow(p, f, e))
  {
    ProductSnoc(p, d.factors, d.exponents, f, e);
    MulAssoc(p, d.unit, Product(p, d.factors, d.exponents), Pow(p, f, e));
  }

  /** The product over two concatenated lists is the product of the two
      products. */
  lemma {:induction false} ProductAppend(p: int, fs: seq<seq<int>>, es: seq<nat>, gs: seq<seq<int>>, hs: seq<nat>)
    requires IsModulus(p) && AllPoly(p, fs) && AllPoly(p, gs) && |fs| == |es| && |gs| == |hs|
    ensures AllPoly(p, fs + gs)
    ensures Product(p, fs + gs, es + hs) == Mul(p, Product(p, fs, es), Product(p, gs, hs))
    decreases |gs|
  {
    assert AllPoly(p, fs + gs);
    if gs == [] {
      assert fs + gs == fs && es + hs == es;
      MulOne(p, Product(p, fs, es));
    } else {
      var gs', hs' := gs[..|gs| - 1], hs[..|hs| - 1];
      var g, h := gs[|gs| - 1], hs[|hs| - 1];
      assert AllPoly(p, gs');
      ProductAppend(p, fs, es, gs', hs');
      ProductSnoc(p, fs + gs', es + hs', g, h);
      AppendInit(fs, gs);
      AppendInit(es, hs);
      MulAssoc(p, Product(p, fs, es), Product(p, gs', hs'), Pow(p, g, h));
    }
  }

  /** addAll multiplies the expansions. */
  lemma ExpandAddAll(p: int, d: Decomposition, o: Decomposition)
    requires IsModulus(p) && WellFormed(p, d) && WellFormed(p, o)
    ensures WellFormed(p, AddAll(p, d, o))
    ensures Expand(p, AddAll(p, d, o)) == Mul(p, Expand(p, d), Expand(p, o))
  {
    var r := AddAll(p, d, o);
    ProductAppend(p, d.factors, d.exponents, o.factors, o.exponents);
    var u, v, P, Q := d.unit, o.unit, Product(p, d.factors, d.exponents), Product(p, o.factors, o.exponents);
    MulSwapMiddle(p, u, v, P, Q);
  }

  // ---------------------------------------------------------------------
  // Powers

  /** (w x)(y z) == (w y)(x z). */
  lemma MulSwapMiddle(p: int, w: seq<int>, x: seq<int>, y: seq<int>, z: seq<int>)
    requires IsModulus(p) && IsPoly(p, w) && IsPoly(p, x) && IsPoly(p, y) && IsPoly(p, z)
    ensures Mul(p, Mul(p, w, x), Mul(p, y, z)) == Mul(p, Mul(p, w, y), Mul(p, x, z))
  {
    MulAssoc(p, w, x, Mul(p, y, z));
    MulAssoc(p, x, y, z);
    MulComm(p, x, y);
    MulAssoc(p, y, x, z);
    MulAssoc(p, w, y, Mul(p, x, z));
  }

  /** Pow applied to equal exponents gives equal results; the solver needs
      this bridge from arithmetic to equal terms. */
  lemma PowCong(p: int, a: seq<int>)
    requires IsModulus(p) && IsPoly(p, a)
    ensures forall i: nat, j: nat {:trigger Pow(p, a, i), Pow(p, a, j)} :: i == j ==> Pow(p, a, i) == Pow(p, a, j)
  {
  }

  /** 1^n == 1. */
  lemma {:induction false} PowOneBase(p: int, n: nat)
    requires IsModulus(p)
    ensures Pow(p, One(p), n) == One(p)
  {
    if n > 0 {
      PowOneBase(p, n - 1);
      PowCong(p, One(p));
      MulOne(p, One(p));
    }
  }

  /** a^m a^n == a^(m + n). */
  lemma {:induction false} PowAdd(p: int, a: seq<int>, m: nat, n: nat)
    requires IsModulus(p) && IsPoly(p, a)
    ensures Pow(p, a, m + n) == Mul(p, Pow(p, a, m), Pow(p, a, n))
  {
    PowCong(p, a);
    if m == 0 {
      MulOne(p, Pow(p, a, n));
    } else {
      PowAdd(p, a, m - 1, n);
      MulAssoc(p, a, Pow(p, a, m - 1), Pow(p, a, n));
    }
  }

  /** m (n - 1) == m n - m, with n - 1 and the products given by name. */
  lemma MulPred(m: nat, n: nat, n1: nat, mn: nat, r: int)
    requires n1 + 1 == n && mn == m * n && r == mn - m
    ensures r == m * n1 && r >= 0
  {
  }

  /** (a^m)^n == a^(m n), with m n given as mn. */
  lemma {:induction false} PowPow(p: int, a: seq<int>, m: nat, n: nat, mn: nat)
    requires IsModulus(p) && IsPoly(p, a) && mn == m * n
    ensures Pow(p, Pow(p, a, m), n) == Pow(p, a, mn)
  {
    PowCong(p, a);
    PowCong(p, Pow(p, a, m));
    if n == 0 {
      assert mn == 0;
    } else {
      var n1 := n - 1;
      var r := mn - m;
      MulPred(m, n, n1, mn, r);
      PowPow(p, a, m, n1, r);
      PowAdd(p, a, m, r);
    }
  }

  /** (a b)^n == a^n b^n. */
  lemma {:induction false} PowMulBase(p: int, a: seq<int>, b: seq<int>, n: nat)
    requires IsModulus(p) && IsPoly(p, a) && IsPoly(p, b)
    ensures Pow(p, Mul(p, a, b), n) == Mul(p, Pow(p, a, n), Pow(p, b, n))
  {
    if n == 0 {
      MulOne(p, One(p));
    } else {
      PowMulBase(p, a, b, n - 1);
      PowCong(p, a);
      PowCong(p, b);
      PowCong(p, Mul(p, a, b));
      MulSwapMiddle(p, a, b, Pow(p, a, n - 1), Pow(p, b, n - 1));
    }
  }

  /** Scaled commutes with dropping the last exponent. */
  lemma ScaledInit(es: seq<nat>, k: nat)
    requires es != []
    ensures Scaled(es, k)[..|es| - 1] == Scaled(es[..|es| - 1], k)
    ensures Scaled(es, k)[|es| - 1] == es[|es| - 1] * k
  {
  }

  /** Raising every exponent by k raises the product to the k-th power. */
  lemma {:induction false} ProductRaise(p: int, fs: seq<seq<int>>, es: seq<nat>, k: nat)
    requires IsModulus(p) && AllPoly(p, fs) && |fs| == |es|
    ensures Product(p, fs, Scaled(es, k)) == Pow(p, Product(p, fs, es), k)
    decreases |fs|
  {
    if fs == [] {
      PowOneBase(p, k);
    } else {
      var n := |fs| - 1;
      var fs', es' := fs[..n], es[..n];
      assert AllPoly(p, fs');
      ProductRaise(p, fs', es', k);
      ScaledInit(es, k);
      PowCong(p, fs[n]);
      PowPow(p, fs[n], es[n], k, Scaled(es, k)[n]);
      PowMulBase(p, Product(p, fs', es'), Pow(p, fs[n], es[n]), k);
    }
  }

  /** raiseExponents(k) keeps the constant and raises the rest of the
      expansion to the k-th power. */
  lemma ExpandRaise(p: int, d: Decomposition, k: nat)
    requires IsModulus(p) && WellFormed(p, d)
    ensures WellFormed(p, RaiseExponents(d, k))
    ensures Expand(p, RaiseExponents(d, k)) == Mul(p, d.unit, Pow(p, Product(p, d.factors, d.exponents), k))
  {
    ProductRaise(p, d.factors, d.exponents, k);
  }
}
