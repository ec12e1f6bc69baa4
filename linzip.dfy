/** The deterministic pieces of the sparse interpolation step of the
    multivariate GCD over Z_p: grouping a skeleton by the exponent of the
    first variable, evaluating a skeleton monomial at a point raised to a
    power, the rows appended to the Vandermonde and LinZip systems, the
    Vandermonde shape check, and the layout of the global LinZip matrix. */
module LinZip {
  import opened Wrappers
  import opened ModArith
  import opened Monomials
  import Domain

  // ---------------------------------------------------------------- skeleton

  /** Every term has a first variable. */
  predicate HasFirst(ts: seq<Term>)
  {
    forall k :: 0 <= k < |ts| ==> |ts[k].exponents| >= 1
  }

  /** The exponent vector with its first exponent replaced by e. */
  function WithFirst(exps: seq<nat>, e: nat): (r: seq<nat>)
    requires |exps| >= 1
    ensures |r| == |exps| && r[0] == e && r[1..] == exps[1..]
  {
    [e] + exps[1..]
  }

  /** The terms of ts whose first exponent is e, in their order. */
  function WithFirstExponent(ts: seq<Term>, e: nat): (r: seq<Term>)
    requires HasFirst(ts)
    ensures |r| <= |ts|
    ensures forall t :: t in r ==> t in ts && t.exponents[0] == e
  {
    if ts == [] then []
    else
      var last := ts[|ts| - 1];
      WithFirstExponent(ts[..|ts| - 1], e) + (if last.exponents[0] == e then [last] else [])
  }

  /** The terms with their first exponent set to zero (`setZero(0)`). */
  function LowerFirst(ts: seq<Term>): (r: seq<Term>)
    requires HasFirst(ts)
    ensures |r| == |ts| && HasFirst(r)
  {
    seq(|ts|, k requires 0 <= k < |ts| => Term(WithFirst(ts[k].exponents, 0), ts[k].coef))
  }

  /** The coefficient of x_0^e of a polynomial read as a univariate one in
      x_0: its terms with first exponent e, that exponent set to zero. */
  function CoefficientOf(ts: seq<Term>, e: nat): (r: seq<Term>)
    requires HasFirst(ts)
    ensures |r| == |WithFirstExponent(ts, e)|
  {
    LowerFirst(WithFirstExponent(ts, e))
  }

  /** Multiplying the terms back by x_0^e (`set(0, e)`). */
  function RaiseFirst(ts: seq<Term>, e: nat): (r: seq<Term>)
    requires HasFirst(ts)
    ensures |r| == |ts|
  {
    seq(|ts|, k requires 0 <= k < |ts| => Term(WithFirst(ts[k].exponents, e), ts[k].coef))
  }

  /** Multiplying the coefficient of x_0^e back by x_0^e gives exactly the
      terms of the polynomial with first exponent e. */
  lemma CoefficientRoundTrip(ts: seq<Term>, e: nat)
    requires HasFirst(ts)
    ensures RaiseFirst(CoefficientOf(ts, e), e) == WithFirstExponent(ts, e)
  {
    var w := WithFirstExponent(ts, e);
    forall k | 0 <= k < |w|
      ensures RaiseFirst(CoefficientOf(ts, e), e)[k] == w[k]
    {
      assert w[k] in w;
      assert WithFirst(WithFirst(w[k].exponents, 0), e) == w[k].exponents;
    }
  }

  /** Every term of the polynomial with first exponent e is kept. */
  lemma {:induction false} WithFirstExponentComplete(ts: seq<Term>, e: nat, k: nat)
    requires HasFirst(ts) && k < |ts| && ts[k].exponents[0] == e
    ensures ts[k] in WithFirstExponent(ts, e)
  {
    if k < |ts| - 1 {
      WithFirstExponentComplete(ts[..|ts| - 1], e, k);
    }
  }

  /** The terms kept by `WithFirstExponent` stay in descending order. */
  lemma {:induction false} WithFirstExponentSorted(n: nat, p: int, ts: seq<Term>, e: nat)
    requires n >= 1 && IsPoly(n, p, ts)
    ensures IsPoly(n, p, WithFirstExponent(ts, e))
  {
    if ts != [] {
      var init := ts[..|ts| - 1];
      var last := ts[|ts| - 1];
      WithFirstExponentSorted(n, p, init, e);
      var r := WithFirstExponent(init, e);
      if last.exponents[0] == e {
        forall k | 0 <= k < |r|
          ensures Less(last.exponents, r[k].exponents)
        {
          assert r[k] in r;
          var i :| 0 <= i < |init| && init[i] == r[k];
          assert ts[i] == r[k];
        }
        AppendSmaller(n, p, r, last);
      }
    }
  }

  /** Appending a term below every term of a polynomial keeps it one. */
  lemma AppendSmaller(n: nat, p: int, r: seq<Term>, last: Term)
    requires IsPoly(n, p, r) && IsTerm(n, p, last)
    requires forall k :: 0 <= k < |r| ==> Less(last.exponents, r[k].exponents)
    ensures IsPoly(n, p, r + [last])
  {
    var r2 := r + [last];
    forall k, l | 0 <= k < l < |r2|
      ensures Less(r2[l].exponents, r2[k].exponents)
    {
      if l == |r| {
        assert r2[l] == last && r2[k] == r[k];
      } else {
        assert r2[l] == r[l] && r2[k] == r[k];
      }
    }
  }

  /** Setting both first exponents to zero keeps the order of two
      exponent vectors with the same first exponent. */
  lemma CompareWithFirstZero(x: seq<nat>, y: seq<nat>)
    requires |x| == |y| >= 1 && x[0] == y[0]
    ensures Compare(WithFirst(x, 0), WithFirst(y, 0)) == Compare(x, y)
  {
    assert WithFirst(x, 0)[1..] == x[1..];
    assert WithFirst(y, 0)[1..] == y[1..];
  }

  /** Each coefficient of x_0^e is a polynomial in the same variables, with
      its terms in descending order. */
  lemma CoefficientIsPoly(n: nat, p: int, ts: seq<Term>, e: nat)
    requires n >= 1 && IsPoly(n, p, ts)
    ensures IsPoly(n, p, CoefficientOf(ts, e))
  {
    WithFirstExponentSorted(n, p, ts, e);
    var w := WithFirstExponent(ts, e);
    var c := CoefficientOf(ts, e);
    forall k, l | 0 <= k < l < |c|
      ensures Less(c[l].exponents, c[k].exponents)
    {
      assert w[k] in w && w[l] in w;
      CompareWithFirstZero(w[l].exponents, w[k].exponents);
    }
  }

  /** Appending a term to the polynomial appends its lowered copy to the
      coefficient of its own power of x_0 and leaves the others alone. */
  lemma CoefficientAppend(ts: seq<Term>, t: Term, e: nat)
    requires HasFirst(ts) && |t.exponents| >= 1
    ensures HasFirst(ts + [t])
    ensures CoefficientOf(ts + [t], e) ==
      CoefficientOf(ts, e) + (if t.exponents[0] == e then [Term(WithFirst(t.exponents, 0), t.coef)] else [])
    ensures WithFirstExponent(ts + [t], e) == WithFirstExponent(ts, e) + (if t.exponents[0] == e then [t] else [])
  {
    assert (ts + [t])[..|ts|] == ts;
  }

  /** `getSkeleton`: the map from each exponent e of x_0 that occurs in the
      polynomial to the coefficient of x_0^e. */
  method GetSkeleton(poly: seq<Term>) returns (skeleton: map<nat, seq<Term>>)
    requires HasFirst(poly)
    ensures forall e :: e in skeleton <==> WithFirstExponent(poly, e) != []
    ensures forall e :: e in skeleton ==> skeleton[e] == CoefficientOf(poly, e)
  {
    skeleton := map[];
    for k := 0 to |poly|
      invariant forall e :: e in skeleton <==> WithFirstExponent(poly[..k], e) != []
      invariant forall e :: e in skeleton ==> skeleton[e] == CoefficientOf(poly[..k], e)
    {
      var term := poly[k];
      var newDV := Term(WithFirst(term.exponents, 0), term.coef);
      assert poly[..k + 1] == poly[..k] + [term];
      forall e {
        CoefficientAppend(poly[..k], term, e);
      }
      if term.exponents[0] in skeleton {
        skeleton := skeleton[term.exponents[0] := skeleton[term.exponents[0]] + [newDV]];
      } else {
        skeleton := skeleton[term.exponents[0] := [newDV]];
      }
    }
    assert poly[..|poly|] == poly;
  }

  // ------------------------------------------------------------- evaluation

  /** The product over the evaluation variables k < m of
      point_k^(raise * exps[1 + k]): the monomial without x_0 evaluated at
      the points raised to the power `raise`. */
  function MonomialValue(points: seq<int>, exps: seq<nat>, raise: nat, m: nat): int
    requires m <= |points| && m < |exps|
  {
    if m == 0 then 1
    else MonomialValue(points, exps, raise, m - 1) * Power(points[m - 1], raise * exps[m])
  }

  /** `evaluateExceptFirst`: the coefficient times the monomial without
      x_0, evaluated at the points raised to the power `raiseFactor`, in
      Z_p.  The precomputed power table returns point_k^e reduced mod p. */
  method EvaluateExceptFirst(p: int, points: seq<int>, coefficient: int, exps: seq<nat>,
                             raiseFactor: nat, nVars: nat) returns (tmp: int)
    requires IsModulus(p) && InRange(coefficient, p)
    requires nVars <= |points| && nVars < |exps|
    ensures InRange(tmp, p)
    ensures tmp == (coefficient * MonomialValue(points, exps, raiseFactor, nVars)) % p
  {
    tmp := coefficient;
    ModOfRange(coefficient, p);
    for k := 0 to nVars
      invariant InRange(tmp, p)
      invariant tmp == (coefficient * MonomialValue(points, exps, raiseFactor, k)) % p
    {
      var pw := Power(points[k], raiseFactor * exps[1 + k]);
      ghost var before := MonomialValue(points, exps, raiseFactor, k);
      ModMulBoth(coefficient * before, pw, p);
      ModOfRange(tmp, p);
      assert coefficient * before * pw == coefficient * (before * pw);
      tmp := (tmp * (pw % p)) % p;
    }
  }

  lemma Rearrange(a: int, b: int, c: int, d: int)
    ensures (a * b) * (c * d) == (a * c) * (b * d)
  {
    calc {
      (a * b) * (c * d);
      a * (b * (c * d));
      a * (c * (b * d));
      (a * c) * (b * d);
    }
  }

  lemma {:induction false} PowerOfProduct(x: int, y: int, r: nat)
    ensures Power(x * y, r) == Power(x, r) * Power(y, r)
    decreases r
  {
    if r > 0 {
      PowerOfProduct(x, y, r - 1);
      Rearrange(x, y, Power(x, r - 1), Power(y, r - 1));
    }
  }

  lemma {:induction false} PowerOfOne(r: nat)
    ensures Power(1, r) == 1
  {
    if r > 0 {
      PowerOfOne(r - 1);
    }
  }

  /** Raising the points to the power r raises the monomial's value to r. */
  lemma {:induction false} MonomialValueRaised(points: seq<int>, exps: seq<nat>, r: nat, m: nat)
    requires m <= |points| && m < |exps|
    ensures MonomialValue(points, exps, r, m) == Power(MonomialValue(points, exps, 1, m), r)
    decreases m
  {
    if m > 0 {
      MonomialValueRaised(points, exps, r, m - 1);
      var b, e := points[m - 1], exps[m];
      var u := MonomialValue(points, exps, 1, m - 1);
      assert r * e == e * r && 1 * e == e;
      assert MonomialValue(points, exps, 1, m) == u * Power(b, e);
      assert MonomialValue(points, exps, r, m) == Power(u, r) * Power(b, e * r);
      PowerMul(b, e, r);
      PowerOfProduct(u, Power(b, e), r);
    } else {
      PowerOfOne(r);
    }
  }

  /** The row of evaluations of every skeleton monomial at the points raised
      to the power `raise`. */
  function EvaluationRow(p: int, points: seq<int>, skeleton: seq<seq<nat>>, raise: nat, nVars: nat): (row: seq<int>)
    requires IsModulus(p) && nVars <= |points|
    requires forall j :: 0 <= j < |skeleton| ==> nVars < |skeleton[j]|
    ensures |row| == |skeleton| && forall j :: 0 <= j < |row| ==> InRange(row[j], p)
  {
    seq(|skeleton|, j requires 0 <= j < |skeleton| => MonomialValue(points, skeleton[j], raise, nVars) % p)
  }

  /** Each entry of the row with raise factor r is the r-th power of the
      entry of the row with raise factor one. */
  lemma EvaluationRowPower(p: int, points: seq<int>, skeleton: seq<seq<nat>>, r: nat, nVars: nat)
    requires IsModulus(p) && nVars <= |points|
    requires forall j :: 0 <= j < |skeleton| ==> nVars < |skeleton[j]|
    ensures forall j :: 0 <= j < |skeleton| ==>
      EvaluationRow(p, points, skeleton, r, nVars)[j] == Power(EvaluationRow(p, points, skeleton, 1, nVars)[j], r) % p
  {
    forall j | 0 <= j < |skeleton|
      ensures EvaluationRow(p, points, skeleton, r, nVars)[j] == Power(EvaluationRow(p, points, skeleton, 1, nVars)[j], r) % p
    {
      var v := MonomialValue(points, skeleton[j], 1, nVars);
      MonomialValueRaised(points, skeleton[j], r, nVars);
      PowerModBase(v, r, p);
    }
  }

  /** The loop of `oneMoreEquation` that fills a new row: one evaluation per
      skeleton monomial, with the given raise factor and coefficient one. */
  method NewRow(p: int, points: seq<int>, skeleton: seq<seq<nat>>, raiseFactor: nat, nVars: nat)
    returns (row: seq<int>)
    requires IsModulus(p) && nVars <= |points|
    requires forall j :: 0 <= j < |skeleton| ==> nVars < |skeleton[j]|
    ensures row == EvaluationRow(p, points, skeleton, raiseFactor, nVars)
  {
    var a := new int[|skeleton|];
    for i := 0 to |skeleton|
      invariant forall j :: 0 <= j < i ==> a[j] == EvaluationRow(p, points, skeleton, raiseFactor, nVars)[j]
    {
      ModOfRange(1, p);
      a[i] := EvaluateExceptFirst(p, points, 1, skeleton[i], raiseFactor, nVars);
    }
    row := a[..];
  }

  // ----------------------------------------------------------- Vandermonde

  /** Every row i >= 1 is row 0 raised entry-wise to the power i + 1. */
  predicate IsVandermonde(lhs: seq<seq<int>>, p: int)
    requires IsModulus(p)
  {
    forall i, j :: 1 <= i < |lhs| && 0 <= j < |lhs[0]| ==>
      j < |lhs[i]| && lhs[i][j] == Power(lhs[0][j], i + 1) % p
  }

  /** The rows appended with raise factors 1, 2, 3, ... form a Vandermonde
      matrix. */
  lemma EvaluationRowsVandermonde(p: int, points: seq<int>, skeleton: seq<seq<nat>>, nVars: nat,
                                  matrix: seq<seq<int>>)
    requires IsModulus(p) && nVars <= |points|
    requires forall j :: 0 <= j < |skeleton| ==> nVars < |skeleton[j]|
    requires forall i :: 0 <= i < |matrix| ==> matrix[i] == EvaluationRow(p, points, skeleton, i + 1, nVars)
    ensures IsVandermonde(matrix, p)
  {
    forall i | 1 <= i < |matrix|
      ensures forall j :: 0 <= j < |matrix[0]| ==> j < |matrix[i]| && matrix[i][j] == Power(matrix[0][j], i + 1) % p
    {
      EvaluationRowPower(p, points, skeleton, i + 1, nVars);
    }
  }

  /** `isVandermonde`: compares every entry of rows 1.. with the matching
      power of row 0, using the domain's `pow`.  Rows are as long as row 0. */
  method CheckVandermonde(lhs: seq<seq<int>>, p: int) returns (b: bool)
    requires IsModulus(p)
    requires forall i :: 0 <= i < |lhs| ==> |lhs[i]| == |lhs[0]|
    requires |lhs| > 0 ==> forall j :: 0 <= j < |lhs[0]| ==> InRange(lhs[0][j], p)
    ensures b <==> IsVandermonde(lhs, p)
  {
    var i := 1;
    while i < |lhs|
      invariant 1 <= i && (|lhs| > 0 ==> i <= |lhs|)
      invariant forall i', j :: 1 <= i' < i && i' < |lhs| && 0 <= j < |lhs[0]| ==> lhs[i'][j] == Power(lhs[0][j], i' + 1) % p
    {
      for j := 0 to |lhs[0]|
        invariant forall j' :: 0 <= j' < j ==> lhs[i][j'] == Power(lhs[0][j'], i + 1) % p
      {
        var pw := Domain.Pow(lhs[0][j], i + 1, p);
        if lhs[i][j] != pw.value {
          return false;
        }
      }
      i := i + 1;
    }
    return true;
  }

  /** Z_p's `negate`. */
  function Negate(v: int, p: int): (r: int)
    requires IsModulus(p)
    ensures InRange(r, p) && (r + v) % p == 0
  {
    var r := if v % p == 0 then 0 else p - v % p;
    assert r + v == 0 + (if v % p == 0 then v / p else v / p + 1) * p;
    ModAddMultiple(0, if v % p == 0 then v / p else v / p + 1, p);
    r
  }

  /** `VandermondeSystem`: the rows of evaluations with raise factors
      1, 2, 3, ... and their right-hand sides.  The skeleton is held as the
      exponent vectors of its terms, the precomputed powers as the points. */
  class VandermondeSystem {
    const univarDegree: nat
    const p: int
    const skeleton: seq<seq<nat>>
    const points: seq<int>
    const nVars: nat
    var matrix: seq<seq<int>>
    var rhs: seq<int>

    ghost predicate Valid()
      reads this
    {
      IsModulus(p) && nVars <= |points| &&
      (forall j :: 0 <= j < |skeleton| ==> nVars < |skeleton[j]|) &&
      |matrix| == |rhs| &&
      forall i :: 0 <= i < |matrix| ==> matrix[i] == EvaluationRow(p, points, skeleton, i + 1, nVars)
    }

    constructor (univarDegree: nat, p: int, skeleton: seq<seq<nat>>, points: seq<int>, nVars: nat)
      requires IsModulus(p) && nVars <= |points|
      requires forall j :: 0 <= j < |skeleton| ==> nVars < |skeleton[j]|
      ensures Valid() && matrix == [] && rhs == []
      ensures this.univarDegree == univarDegree && this.p == p && this.skeleton == skeleton
      ensures this.points == points && this.nVars == nVars
    {
      this.univarDegree := univarDegree;
      this.p := p;
      this.skeleton := skeleton;
      this.points := points;
      this.nVars := nVars;
      matrix := [];
      rhs := [];
    }

    /** `oneMoreEquation`: appends the row with the next raise factor. */
    method OneMoreEquation(rhsVal: int)
      requires Valid()
      modifies this
      ensures Valid()
      ensures matrix == old(matrix) + [EvaluationRow(p, points, skeleton, |old(matrix)| + 1, nVars)]
      ensures rhs == old(rhs) + [rhsVal]
    {
      var row := NewRow(p, points, skeleton, |matrix| + 1, nVars);
      matrix := matrix + [row];
      rhs := rhs + [rhsVal];
    }
  }

  // ---------------------------------------------------------------- LinZip

  /** `LinZipSystem`: like the Vandermonde system, plus one scaling entry
      per equation.  The ghost fields record the values handed in and
      whether each introduced a new scaling unknown. */
  class LinZipSystem {
    const univarDegree: nat
    const p: int
    const skeleton: seq<seq<nat>>
    const points: seq<int>
    const nVars: nat
    var matrix: seq<seq<int>>
    var rhs: seq<int>
    var scalingMatrix: seq<int>
    ghost var values: seq<int>
    ghost var scaled: seq<bool>

    ghost predicate Valid()
      reads this
    {
      IsModulus(p) && nVars <= |points| &&
      (forall j :: 0 <= j < |skeleton| ==> nVars < |skeleton[j]| && |skeleton[j]| >= 1) &&
      |matrix| == |rhs| == |scalingMatrix| == |values| == |scaled| &&
      (forall i :: 0 <= i < |matrix| ==> matrix[i] == EvaluationRow(p, points, skeleton, i + 1, nVars)) &&
      forall i :: 0 <= i < |matrix| ==>
        scalingMatrix[i] == (if scaled[i] then Negate(values[i], p) else 0) &&
        rhs[i] == (if scaled[i] then 0 else values[i])
    }

    constructor (univarDegree: nat, p: int, skeleton: seq<seq<nat>>, points: seq<int>, nVars: nat)
      requires IsModulus(p) && nVars <= |points|
      requires forall j :: 0 <= j < |skeleton| ==> nVars < |skeleton[j]| && |skeleton[j]| >= 1
      ensures Valid() && matrix == [] && rhs == [] && scalingMatrix == []
      ensures this.univarDegree == univarDegree && this.p == p && this.skeleton == skeleton
      ensures this.points == points && this.nVars == nVars
    {
      this.univarDegree := univarDegree;
      this.p := p;
      this.skeleton := skeleton;
      this.points := points;
      this.nVars := nVars;
      matrix, rhs, scalingMatrix := [], [], [];
      values, scaled := [], [];
    }

    /** `oneMoreEquation`: appends the row with the next raise factor; with
        a new scaling unknown the value moves, negated, into the scaling
        entry and the right-hand side becomes zero. */
    method OneMoreEquation(rhsVal: int, newScalingIntroduced: bool)
      requires Valid()
      modifies this
      ensures Valid()
      ensures matrix == old(matrix) + [EvaluationRow(p, points, skeleton, |old(matrix)| + 1, nVars)]
      ensures scalingMatrix == old(scalingMatrix) + [if newScalingIntroduced then Negate(rhsVal, p) else 0]
      ensures rhs == old(rhs) + [if newScalingIntroduced then 0 else rhsVal]
      ensures values == old(values) + [rhsVal] && scaled == old(scaled) + [newScalingIntroduced]
    {
      var row := NewRow(p, points, skeleton, |matrix| + 1, nVars);
      matrix := matrix + [row];
      var value := rhsVal;
      if newScalingIntroduced {
        scalingMatrix := scalingMatrix + [Negate(value, p)];
        value := 0;
      } else {
        scalingMatrix := scalingMatrix + [0];
      }
      rhs := rhs + [value];
      values := values + [rhsVal];
      scaled := scaled + [newScalingIntroduced];
    }
  }

  /** The scalar product of a row with the unknowns. */
  function Dot(row: seq<int>, x: seq<int>): int
    requires |row| == |x|
  {
    if row == [] then 0 else Dot(row[..|row| - 1], x[..|x| - 1]) + row[|row| - 1] * x[|x| - 1]
  }

  /** An equation: the row times the unknowns c, plus the scaling entry
      times the scaling unknown m, equals the right-hand side in Z_p. */
  predicate EquationHolds(row: seq<int>, scaling: int, rhs: int, c: seq<int>, m: int, p: int)
    requires |row| == |c| && p > 0
  {
    (Dot(row, c) + scaling * m) % p == rhs % p
  }

  /** Two integers are congruent modulo p exactly when their difference
      is a multiple of p. */
  lemma CongruentIffDifference(a: int, b: int, p: int)
    requires p > 0
    ensures (a - b) % p == 0 <==> a % p == b % p
  {
    var x, y := a % p, b % p;
    var qa, qb := a / p, b / p;
    assert a == qa * p + x && b == qb * p + y;
    assert (qa - qb) * p == qa * p - qb * p;
    assert a - b == (x - y) + (qa - qb) * p;
    ModAddMultiple(x - y, qa - qb, p);
    if x > y {
      ModOfRange(x - y, p);
    } else if x < y {
      ModUnique(x - y, p, -1, x - y + p);
    } else {
      ModOfRange(0, p);
    }
  }

  /** The equation appended for a value v: with a new scaling it says the
      row's value is v times the scaling unknown, without one that it is v. */
  lemma LinZipEquationMeaning(row: seq<int>, v: int, c: seq<int>, m: int, p: int)
    requires IsModulus(p) && |row| == |c|
    ensures EquationHolds(row, Negate(v, p), 0, c, m, p) <==> Dot(row, c) % p == (v * m) % p
    ensures EquationHolds(row, 0, v, c, m, p) <==> Dot(row, c) % p == v % p
  {
    var d := Dot(row, c);
    var nv := Negate(v, p);
    var k := (nv + v) / p;
    assert nv + v == k * p;
    assert nv * m == k * p * m - v * m;
    assert d + nv * m == (d - v * m) + (k * m) * p;
    ModAddMultiple(d - v * m, k * m, p);
    ModOfRange(0, p);
    CongruentIffDifference(d, v * m, p);
  }

  // ------------------------------------------------- global LinZip system

  /** What `solveLinZip` reads of one LinZip system. */
  datatype SubSystem = SubSystem(univarDegree: nat, skeleton: seq<seq<nat>>, matrix: seq<seq<int>>,
                                 scalingMatrix: seq<int>, rhs: seq<int>)

  /** A sub-system as the LinZip system builds it: one scaling entry and one
      right-hand side per equation, rows as wide as the skeleton, and every
      skeleton monomial with a first variable. */
  predicate WellFormed(sub: SubSystem)
  {
    |sub.scalingMatrix| == |sub.matrix| && |sub.rhs| == |sub.matrix| &&
    (forall i :: 0 <= i < |sub.matrix| ==> |sub.matrix[i]| == |sub.skeleton|) &&
    (forall j :: 0 <= j < |sub.skeleton| ==> |sub.skeleton[j]| >= 1)
  }

  /** The skeleton monomials of the first s systems: the column where the
      unknowns of system s start. */
  function MonomialsBefore(subs: seq<SubSystem>, s: nat): nat
    requires s <= |subs|
  {
    if s == 0 then 0 else MonomialsBefore(subs, s - 1) + |subs[s - 1].skeleton|
  }

  /** The equations of the first s systems: the row where the equations of
      system s start. */
  function EquationsBefore(subs: seq<SubSystem>, s: nat): nat
    requires s <= |subs|
  {
    if s == 0 then 0 else EquationsBefore(subs, s - 1) + |subs[s - 1].matrix|
  }

  /** The rows of an earlier system lie before the rows of a later one. */
  lemma {:induction false} EquationsBeforeGrow(subs: seq<SubSystem>, t: nat, s: nat)
    requires t < s <= |subs|
    ensures EquationsBefore(subs, t) + |subs[t].matrix| <= EquationsBefore(subs, s)
    decreases s
  {
    if t < s - 1 {
      EquationsBeforeGrow(subs, t, s - 1);
    }
  }

  /** The columns of an earlier system lie before those of a later one. */
  lemma {:induction false} MonomialsBeforeGrow(subs: seq<SubSystem>, t: nat, s: nat)
    requires t < s <= |subs|
    ensures MonomialsBefore(subs, t) + |subs[t].skeleton| <= MonomialsBefore(subs, s)
    decreases s
  {
    if t < s - 1 {
      MonomialsBeforeGrow(subs, t, s - 1);
    }
  }

  predicate AllWellFormed(subs: seq<SubSystem>)
  {
    forall s :: 0 <= s < |subs| ==> WellFormed(subs[s])
  }

  /** The unknown monomials of system s: each skeleton monomial with the
      power of x_0 set to the system's univariate degree. */
  function SystemUnknowns(sub: SubSystem): (r: seq<seq<nat>>)
    requires WellFormed(sub)
    ensures |r| == |sub.skeleton|
  {
    seq(|sub.skeleton|, j requires 0 <= j < |sub.skeleton| => WithFirst(sub.skeleton[j], sub.univarDegree))
  }

  /** The unknown monomials of the first s systems, in order. */
  function Unknowns(subs: seq<SubSystem>, s: nat): (r: seq<seq<nat>>)
    requires s <= |subs| && AllWellFormed(subs)
    ensures |r| == MonomialsBefore(subs, s)
  {
    if s == 0 then [] else Unknowns(subs, s - 1) + SystemUnknowns(subs[s - 1])
  }

  /** The unknown monomials of system t sit, in skeleton order, from its
      column offset on, and carry x_0 to its univariate degree. */
  lemma {:induction false} UnknownsOfSystem(subs: seq<SubSystem>, s: nat, t: nat, j: nat)
    requires AllWellFormed(subs) && t < s <= |subs| && j < |subs[t].skeleton|
    ensures MonomialsBefore(subs, t) + j < MonomialsBefore(subs, s)
    ensures Unknowns(subs, s)[MonomialsBefore(subs, t) + j] ==
      WithFirst(subs[t].skeleton[j], subs[t].univarDegree)
    decreases s
  {
    MonomialsBeforeGrow(subs, t, s);
    if t < s - 1 {
      UnknownsOfSystem(subs, s - 1, t, j);
    }
  }

  /** A row of the global system: the sub-row in the columns of its system,
      for an equation j > 0 the scaling entry in the column of scaling
      unknown j - 1, and zero elsewhere. */
  function GlobalRow(nMonomials: nat, nScalings: nat, offset: nat, subRow: seq<int>, j: nat, scaling: int): (row: seq<int>)
    ensures |row| == nMonomials + nScalings
  {
    seq(nMonomials + nScalings, c =>
      if j > 0 && c == nMonomials + j - 1 then scaling
      else if offset <= c < offset + |subRow| then subRow[c - offset]
      else 0)
  }

  /** One row of `solveLinZip`: zeros, the sub-row copied in at the offset,
      and the scaling entry of equations after the first. */
  method LayoutRow(nMonomials: nat, nScalings: nat, offset: nat, subRow: seq<int>, j: nat, scaling: int)
    returns (row: seq<int>)
    requires offset + |subRow| <= nMonomials + nScalings
    requires j > 0 ==> j - 1 < nScalings
    ensures row == GlobalRow(nMonomials, nScalings, offset, subRow, j, scaling)
  {
    var a := Domain.CreateZeroesArray(nMonomials + nScalings);
    for c := 0 to |subRow|
      invariant forall k :: 0 <= k < a.Length ==> a[k] == (if offset <= k < offset + c then subRow[k - offset] else 0)
    {
      a[offset + c] := subRow[c];
    }
    if j > 0 {
      a[nMonomials + j - 1] := scaling;
    }
    row := a[..];
  }

  function ZerosInt(n: nat): (z: seq<int>)
    ensures |z| == n && forall i :: 0 <= i < n ==> z[i] == 0
  {
    seq(n, i => 0)
  }

  lemma {:induction false} DotZeros(x: seq<int>)
    ensures Dot(ZerosInt(|x|), x) == 0
  {
    if x != [] {
      assert ZerosInt(|x|)[..|x| - 1] == ZerosInt(|x| - 1);
      DotZeros(x[..|x| - 1]);
    }
  }

  lemma {:induction false} DotConcat(a: seq<int>, b: seq<int>, x: seq<int>, y: seq<int>)
    requires |a| == |x| && |b| == |y|
    ensures Dot(a + b, x + y) == Dot(a, x) + Dot(b, y)
    decreases |b|
  {
    if b != [] {
      assert (a + b)[..|a + b| - 1] == a + b[..|b| - 1];
      assert (x + y)[..|x + y| - 1] == x + y[..|y| - 1];
      DotConcat(a, b[..|b| - 1], x, y[..|y| - 1]);
    } else {
      assert a + b == a && x + y == x;
    }
  }

  /** The part of a global row after its sub-row is the row of a system with
      no monomials of its own. */
  lemma GlobalRowSplit(nMonomials: nat, nScalings: nat, offset: nat, subRow: seq<int>, j: nat, scaling: int, m: nat)
    requires m == nMonomials - (offset + |subRow|) >= 0
    ensures GlobalRow(nMonomials, nScalings, offset, subRow, j, scaling) ==
      ZerosInt(offset) + subRow + GlobalRow(m, nScalings, 0, [], j, scaling)
  {
  }

  /** A row holding only a scaling entry contributes that entry times its
      scaling unknown. */
  lemma ScalingRowDot(m: nat, nScalings: nat, j: nat, scaling: int, y: seq<int>)
    requires (j > 0 ==> j - 1 < nScalings) && |y| == m + nScalings
    ensures Dot(GlobalRow(m, nScalings, 0, [], j, scaling), y) == (if j > 0 then scaling * y[m + j - 1] else 0)
  {
    var row := GlobalRow(m, nScalings, 0, [], j, scaling);
    if j == 0 {
      assert row == ZerosInt(|y|);
      DotZeros(y);
    } else {
      var c := m + j - 1;
      assert row == ZerosInt(c) + [scaling] + ZerosInt(|y| - c - 1);
      assert y == y[..c] + [y[c]] + y[c + 1..];
      DotConcat(ZerosInt(c) + [scaling], ZerosInt(|y| - c - 1), y[..c] + [y[c]], y[c + 1..]);
      DotConcat(ZerosInt(c), [scaling], y[..c], [y[c]]);
      DotZeros(y[..c]);
      DotZeros(y[c + 1..]);
      assert Dot([scaling], [y[c]]) == scaling * y[c] by {
        assert [scaling][..0] == [] && [y[c]][..0] == [];
      }
    }
  }

  /** The global row holds the sub-row's equation on its system's unknowns
      plus, after the first equation, the scaling entry times its scaling
      unknown. */
  lemma GlobalRowMeaning(nMonomials: nat, nScalings: nat, offset: nat, subRow: seq<int>, j: nat,
                         scaling: int, x: seq<int>)
    requires offset + |subRow| <= nMonomials && (j > 0 ==> j - 1 < nScalings)
    requires |x| == nMonomials + nScalings
    ensures Dot(GlobalRow(nMonomials, nScalings, offset, subRow, j, scaling), x) ==
      Dot(subRow, x[offset..offset + |subRow|]) + (if j > 0 then scaling * x[nMonomials + j - 1] else 0)
  {
    var e := offset + |subRow|;
    var m := nMonomials - e;
    var tail := GlobalRow(m, nScalings, 0, [], j, scaling);
    GlobalRowSplit(nMonomials, nScalings, offset, subRow, j, scaling, m);
    var row := GlobalRow(nMonomials, nScalings, offset, subRow, j, scaling);
    var x0, x1, x2 := x[..offset], x[offset..e], x[e..];
    DotThreeParts(ZerosInt(offset), subRow, tail, x0, x1, x2);
    assert x == x0 + x1 + x2;
    DotZeros(x0);
    ScalingRowDot(m, nScalings, j, scaling, x2);
    if j > 0 {
      assert x2[m + j - 1] == x[nMonomials + j - 1];
    }
  }

  /** The scalar product of rows in three parts. */
  lemma DotThreeParts(a: seq<int>, b: seq<int>, c: seq<int>, x: seq<int>, y: seq<int>, z: seq<int>)
    requires |a| == |x| && |b| == |y| && |c| == |z|
    ensures Dot(a + b + c, x + y + z) == Dot(a, x) + Dot(b, y) + Dot(c, z)
  {
    DotConcat(a + b, c, x + y, z);
    DotConcat(a, b, x, y);
  }

  /** The rows `solveLinZip` assembles for the first s systems. */
  predicate RowsLaidOut(subs: seq<SubSystem>, s: nat, nMonomials: nat, nScalings: nat,
                        lhs: seq<seq<int>>, rhs: seq<int>)
    requires s <= |subs| && AllWellFormed(subs)
  {
    |lhs| == |rhs| == EquationsBefore(subs, s) &&
    forall t, j :: 0 <= t < s && 0 <= j < |subs[t].matrix| ==>
      EquationsBefore(subs, t) + j < |lhs| &&
      lhs[EquationsBefore(subs, t) + j] ==
        GlobalRow(nMonomials, nScalings, MonomialsBefore(subs, t), subs[t].matrix[j], j, subs[t].scalingMatrix[j]) &&
      rhs[EquationsBefore(subs, t) + j] == subs[t].rhs[j]
  }

  /** The first loop of `solveLinZip`: every skeleton monomial of every
      system, with x_0 raised to the system's univariate degree. */
  method CollectUnknowns(subSystems: seq<SubSystem>) returns (unknowns: seq<seq<nat>>)
    requires AllWellFormed(subSystems)
    ensures unknowns == Unknowns(subSystems, |subSystems|)
  {
    unknowns := [];
    for s := 0 to |subSystems|
      invariant unknowns == Unknowns(subSystems, s)
    {
      var sys := subSystems[s];
      ghost var before := unknowns;
      for i := 0 to |sys.skeleton|
        invariant unknowns == before + SystemUnknowns(sys)[..i]
      {
        assert SystemUnknowns(sys)[..i + 1] == SystemUnknowns(sys)[..i] + [WithFirst(sys.skeleton[i], sys.univarDegree)];
        unknowns := unknowns + [WithFirst(sys.skeleton[i], sys.univarDegree)];
      }
      assert SystemUnknowns(sys)[..|sys.skeleton|] == SystemUnknowns(sys);
    }
  }

  /** The rows one system contributes to the global matrix, each sub-row
      at the system's column offset, and its right-hand sides. */
  method SystemRows(nMonomials: nat, nScalings: nat, offset: nat, sys: SubSystem)
    returns (rows: seq<seq<int>>, values: seq<int>)
    requires WellFormed(sys) && offset + |sys.skeleton| <= nMonomials
    requires |sys.matrix| <= nScalings + 1
    ensures |rows| == |sys.matrix| && values == sys.rhs
    ensures forall i :: 0 <= i < |rows| ==>
      rows[i] == GlobalRow(nMonomials, nScalings, offset, sys.matrix[i], i, sys.scalingMatrix[i])
  {
    rows, values := [], [];
    for j := 0 to |sys.matrix|
      invariant |rows| == j && values == sys.rhs[..j]
      invariant forall i :: 0 <= i < j ==>
        rows[i] == GlobalRow(nMonomials, nScalings, offset, sys.matrix[i], i, sys.scalingMatrix[i])
    {
      var row := LayoutRow(nMonomials, nScalings, offset, sys.matrix[j], j, sys.scalingMatrix[j]);
      rows := rows + [row];
      values := values + [sys.rhs[j]];
    }
  }

  /** The matrix assembly of `solveLinZip`: the unknown monomials of all
      systems in order, then one global row per equation of every system
      (its sub-row at the system's column offset, its scaling entry in the
      column of scaling unknown j - 1) with the matching right-hand side. */
  method SolveLinZipLayout(subSystems: seq<SubSystem>, nUnknownScalings: nat)
    returns (unknowns: seq<seq<nat>>, lhs: seq<seq<int>>, rhs: seq<int>)
    requires AllWellFormed(subSystems)
    requires forall s :: 0 <= s < |subSystems| ==> |subSystems[s].matrix| <= nUnknownScalings + 1
    ensures unknowns == Unknowns(subSystems, |subSystems|)
    ensures RowsLaidOut(subSystems, |subSystems|, |unknowns|, nUnknownScalings, lhs, rhs)
  {
    unknowns := CollectUnknowns(subSystems);
    var nMonomials := |unknowns|;
    lhs, rhs := [], [];
    var offset := 0;
    for s := 0 to |subSystems|
      invariant offset == MonomialsBefore(subSystems, s)
      invariant RowsLaidOut(subSystems, s, nMonomials, nUnknownScalings, lhs, rhs)
    {
      var sys := subSystems[s];
      MonomialsBeforeGrow(subSystems, s, |subSystems|);
      var rows, values := SystemRows(nMonomials, nUnknownScalings, offset, sys);
      RowsLaidOutNext(subSystems, s, nMonomials, nUnknownScalings, lhs, rhs, rows, values);
      lhs, rhs := lhs + rows, rhs + values;
      offset := offset + |sys.skeleton|;
    }
  }

  /** Adding the rows of system s to those of the systems before it. */
  lemma RowsLaidOutNext(subs: seq<SubSystem>, s: nat, nMonomials: nat, nScalings: nat,
                        lhs: seq<seq<int>>, rhs: seq<int>, rows: seq<seq<int>>, values: seq<int>)
    requires s < |subs| && AllWellFormed(subs)
    requires RowsLaidOut(subs, s, nMonomials, nScalings, lhs, rhs)
    requires |rows| == |subs[s].matrix| && values == subs[s].rhs
    requires forall i :: 0 <= i < |rows| ==>
      rows[i] == GlobalRow(nMonomials, nScalings, MonomialsBefore(subs, s), subs[s].matrix[i], i, subs[s].scalingMatrix[i])
    ensures RowsLaidOut(subs, s + 1, nMonomials, nScalings, lhs + rows, rhs + values)
  {
    var b := EquationsBefore(subs, s);
    var l1, r1 := lhs + rows, rhs + values;
    assert EquationsBefore(subs, s + 1) == b + |subs[s].matrix|;
    assert |l1| == |r1| == EquationsBefore(subs, s + 1);
    forall t, j | 0 <= t < s + 1 && 0 <= j < |subs[t].matrix|
      ensures EquationsBefore(subs, t) + j < |l1|
      ensures l1[EquationsBefore(subs, t) + j] ==
        GlobalRow(nMonomials, nScalings, MonomialsBefore(subs, t), subs[t].matrix[j], j, subs[t].scalingMatrix[j])
      ensures r1[EquationsBefore(subs, t) + j] == subs[t].rhs[j]
    {
      if t < s {
        EquationsBeforeGrow(subs, t, s);
        assert l1[EquationsBefore(subs, t) + j] == lhs[EquationsBefore(subs, t) + j];
        assert r1[EquationsBefore(subs, t) + j] == rhs[EquationsBefore(subs, t) + j];
      } else {
        assert l1[b + j] == rows[j];
        assert r1[b + j] == values[j];
      }
    }
  }
}
