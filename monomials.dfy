/** Exponent vectors (the degree vectors of multivariate monomials), terms and
    sparse multivariate polynomials over Z_p stored as lists of terms in
    descending monomial order.  The monomial order is the lexicographic one. */
module Monomials {
  import opened ModArith

  /** The monomial with exponents d divides the one with exponents e. */
  predicate Divides(d: seq<nat>, e: seq<nat>)
  {
    |d| == |e| && forall i :: 0 <= i < |d| ==> d[i] <= e[i]
  }

  function Zeros(n: nat): (z: seq<nat>)
    ensures |z| == n && forall i :: 0 <= i < n ==> z[i] == 0
  {
    seq(n, i => 0)
  }

  predicate IsZeroVector(e: seq<nat>)
  {
    forall i :: 0 <= i < |e| ==> e[i] == 0
  }

  function MinNat(x: nat, y: nat): nat { if x <= y then x else y }

  function MaxNat(x: nat, y: nat): nat { if x <= y then y else x }

  /** Component-wise minimum: the exponents of the gcd of two monomials. */
  function Min(a: seq<nat>, b: seq<nat>): (m: seq<nat>)
    requires |a| == |b|
    ensures |m| == |a| && forall i :: 0 <= i < |a| ==> m[i] == MinNat(a[i], b[i])
  {
    seq(|a|, i requires 0 <= i < |a| => MinNat(a[i], b[i]))
  }

  /** Component-wise maximum: the exponents of the lcm of two monomials. */
  function Max(a: seq<nat>, b: seq<nat>): (m: seq<nat>)
    requires |a| == |b|
    ensures |m| == |a| && forall i :: 0 <= i < |a| ==> m[i] == MaxNat(a[i], b[i])
  {
    seq(|a|, i requires 0 <= i < |a| => MaxNat(a[i], b[i]))
  }

  /** The monomial quotient e / d (exponents subtracted). */
  function Sub(e: seq<nat>, d: seq<nat>): (q: seq<nat>)
    requires Divides(d, e)
    ensures |q| == |e| && forall i :: 0 <= i < |e| ==> q[i] + d[i] == e[i]
  {
    seq(|e|, i requires 0 <= i < |e| => e[i] - d[i])
  }

  /** The monomial product (exponents added). */
  function Add(e: seq<nat>, d: seq<nat>): (s: seq<nat>)
    requires |e| == |d|
    ensures |s| == |e| && forall i :: 0 <= i < |e| ==> s[i] == e[i] + d[i]
  {
    seq(|e|, i requires 0 <= i < |e| => e[i] + d[i])
  }

  /** The component-wise minimum is the greatest common divisor of two monomials. */
  lemma MinIsGcd(a: seq<nat>, b: seq<nat>)
    requires |a| == |b|
    ensures Divides(Min(a, b), a) && Divides(Min(a, b), b)
    ensures forall d :: Divides(d, a) && Divides(d, b) ==> Divides(d, Min(a, b))
  {
  }

  /** The component-wise maximum is the least common multiple of two monomials. */
  lemma MaxIsLcm(a: seq<nat>, b: seq<nat>)
    requires |a| == |b|
    ensures Divides(a, Max(a, b)) && Divides(b, Max(a, b))
    ensures forall m :: Divides(a, m) && Divides(b, m) ==> Divides(Max(a, b), m)
  {
  }

  lemma DividesTrans(a: seq<nat>, b: seq<nat>, c: seq<nat>)
    requires Divides(a, b) && Divides(b, c)
    ensures Divides(a, c)
  {
  }

  /** Lexicographic comparison of two exponent vectors of the same length:
      negative, zero or positive as `x` is smaller than, equal to or greater
      than `y`. */
  function Compare(x: seq<nat>, y: seq<nat>): (c: int)
    requires |x| == |y|
    ensures -1 <= c <= 1
    ensures c == 0 <==> x == y
    decreases |x|
  {
    if |x| == 0 then 0
    else if x[0] < y[0] then -1
    else if x[0] > y[0] then 1
    else
      var c := Compare(x[1..], y[1..]);
      assert c == 0 ==> x == [x[0]] + x[1..] == [y[0]] + y[1..] == y;
      c
  }

  predicate Less(x: seq<nat>, y: seq<nat>)
    requires |x| == |y|
  {
    Compare(x, y) < 0
  }

  /** Swapping the arguments negates the comparison. */
  lemma {:induction false} CompareAntisymmetric(x: seq<nat>, y: seq<nat>)
    requires |x| == |y|
    ensures Compare(y, x) == -Compare(x, y)
    decreases |x|
  {
    if |x| > 0 && x[0] == y[0] {
      CompareAntisymmetric(x[1..], y[1..]);
    }
  }

  /** The lexicographic order is transitive. */
  lemma {:induction false} LessTransitive(x: seq<nat>, y: seq<nat>, z: seq<nat>)
    requires |x| == |y| == |z|
    requires Less(x, y) && Less(y, z)
    ensures Less(x, z)
    decreases |x|
  {
    if x[0] == y[0] && y[0] == z[0] {
      LessTransitive(x[1..], y[1..], z[1..]);
    }
  }

  /** The zero vector (the constant monomial) is the smallest one. */
  lemma {:induction false} ZerosLeast(x: seq<nat>)
    ensures Compare(Zeros(|x|), x) <= 0
    ensures Compare(Zeros(|x|), x) == 0 <==> IsZeroVector(x)
    decreases |x|
  {
    if |x| > 0 && x[0] == 0 {
      assert Zeros(|x|)[1..] == Zeros(|x| - 1);
      ZerosLeast(x[1..]);
    }
  }

  /** Multiplying by a common monomial keeps the order (the order is admissible). */
  lemma {:induction false} CompareAdd(x: seq<nat>, y: seq<nat>, d: seq<nat>)
    requires |x| == |y| == |d|
    ensures Compare(Add(x, d), Add(y, d)) == Compare(x, y)
    decreases |x|
  {
    if |x| > 0 {
      assert Add(x, d)[1..] == Add(x[1..], d[1..]);
      assert Add(y, d)[1..] == Add(y[1..], d[1..]);
      CompareAdd(x[1..], y[1..], d[1..]);
    }
  }

  /** Dividing by a common monomial keeps the order. */
  lemma CompareSub(x: seq<nat>, y: seq<nat>, d: seq<nat>)
    requires Divides(d, x) && Divides(d, y)
    ensures Compare(Sub(x, d), Sub(y, d)) == Compare(x, y)
  {
    CompareAdd(Sub(x, d), Sub(y, d), d);
    assert Add(Sub(x, d), d) == x;
    assert Add(Sub(y, d), d) == y;
  }

  /** A monomial term: exponent vector and coefficient. */
  datatype Term = Term(exponents: seq<nat>, coef: int)

  /** A term of a polynomial in n variables over Z_p: nonzero coefficient. */
  predicate IsTerm(n: nat, p: int, t: Term)
  {
    |t.exponents| == n && 0 < t.coef < p
  }

  /** A polynomial in n variables over Z_p: its terms in strictly descending
      order, so the leading term comes first and no monomial repeats. */
  predicate IsPoly(n: nat, p: int, ts: seq<Term>)
  {
    (forall k :: 0 <= k < |ts| ==> IsTerm(n, p, ts[k])) &&
    (forall k, l :: 0 <= k < l < |ts| ==> Less(ts[l].exponents, ts[k].exponents))
  }

  /** Every nonzero polynomial's terms lie below its leading term. */
  lemma LeadingTermGreatest(n: nat, p: int, ts: seq<Term>, k: nat)
    requires IsPoly(n, p, ts) && 0 < k < |ts|
    ensures Less(ts[k].exponents, ts[0].exponents)
  {
  }

  /** The zero term that marks an absent term. */
  function ZeroTerm(n: nat): Term
  {
    Term(Zeros(n), 0)
  }

  /** A constant polynomial: no term, or one term of the zero monomial. */
  predicate IsConstant(ts: seq<Term>)
  {
    |ts| == 0 || (|ts| == 1 && IsZeroVector(ts[0].exponents))
  }

  /** The polynomial one in n variables. */
  function One(n: nat): (r: seq<Term>)
    ensures |r| == 1 && r[0].coef == 1 && IsZeroVector(r[0].exponents)
  {
    [Term(Zeros(n), 1)]
  }
}
