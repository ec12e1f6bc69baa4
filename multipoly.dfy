/** Sparse multivariate polynomials over Z_p (p prime) as lists of terms in
    descending lexicographic order: coefficient lookup, negation,
    subtraction by merging the two term lists, multiplication by a term and
    the monic associate.  These stand in for the polynomial arithmetic the
    Groebner-basis helpers call. */
module MultiPoly {
  import opened ModArith
  import opened Monomials

  /** The exponents of the leading term; the zero polynomial has the zero
      vector, as its leading term is the zero term. */
  function Lt(n: nat, f: seq<Term>): (e: seq<nat>)
    requires forall k :: 0 <= k < |f| ==> |f[k].exponents| == n
    ensures |e| == n
  {
    if f == [] then Zeros(n) else f[0].exponents
  }

  /** The coefficient of the monomial e (zero when absent). */
  function CoefAt(ts: seq<Term>, e: seq<nat>): int
  {
    if ts == [] then 0
    else if ts[0].exponents == e then ts[0].coef
    else CoefAt(ts[1..], e)
  }

  /** Compare(x, y) <= 0 followed by a strict step is a strict step. */
  lemma LeqLess(x: seq<nat>, y: seq<nat>, z: seq<nat>)
    requires |x| == |y| == |z| && Compare(x, y) <= 0 && Less(y, z)
    ensures Less(x, z)
  {
    if x != y {
      LessTransitive(x, y, z);
    }
  }

  lemma TailIsPoly(n: nat, p: int, ts: seq<Term>)
    requires IsPoly(n, p, ts) && ts != []
    ensures IsPoly(n, p, ts[1..])
  {
    forall k, l | 0 <= k < l < |ts| - 1
      ensures Less(ts[1..][l].exponents, ts[1..][k].exponents)
    {
      assert ts[1..][l] == ts[l + 1] && ts[1..][k] == ts[k + 1];
    }
  }

  /** A term above the head of a polynomial can be put in front of it. */
  lemma ConsIsPoly(n: nat, p: int, h: Term, r: seq<Term>)
    requires IsTerm(n, p, h) && IsPoly(n, p, r)
    requires r == [] || Less(r[0].exponents, h.exponents)
    ensures IsPoly(n, p, [h] + r)
  {
    var s := [h] + r;
    forall k, l | 0 <= k < l < |s|
      ensures Less(s[l].exponents, s[k].exponents)
    {
      if k == 0 {
        if l > 1 {
          LeadingTermGreatest(n, p, r, l - 1);
          LessTransitive(r[l - 1].exponents, r[0].exponents, h.exponents);
        }
      } else {
        assert s[k] == r[k - 1] && s[l] == r[l - 1];
      }
    }
  }

  /** A monomial above the leading term of a polynomial is absent from it. */
  lemma {:induction false} CoefAbove(n: nat, p: int, ts: seq<Term>, e: seq<nat>)
    requires IsPoly(n, p, ts) && |e| == n
    requires ts != [] ==> Less(ts[0].exponents, e)
    ensures CoefAt(ts, e) == 0
    decreases |ts|
  {
    if ts != [] {
      assert ts[0].exponents != e;
      TailIsPoly(n, p, ts);
      if |ts| > 1 {
        LeadingTermGreatest(n, p, ts, 1);
        LessTransitive(ts[1].exponents, ts[0].exponents, e);
      }
      CoefAbove(n, p, ts[1..], e);
    }
  }

  /** Every coefficient of a polynomial is a residue. */
  lemma {:induction false} CoefInRange(n: nat, p: int, ts: seq<Term>, e: seq<nat>)
    requires IsPoly(n, p, ts) && IsModulus(p)
    ensures InRange(CoefAt(ts, e), p)
    decreases |ts|
  {
    if ts != [] && ts[0].exponents != e {
      TailIsPoly(n, p, ts);
      CoefInRange(n, p, ts[1..], e);
    }
  }

  /** The additive inverse, term by term. */
  function Negate(p: int, ts: seq<Term>): (r: seq<Term>)
    ensures |r| == |ts|
  {
    seq(|ts|, k requires 0 <= k < |ts| => Term(ts[k].exponents, p - ts[k].coef))
  }

  lemma NegateIsPoly(n: nat, p: int, ts: seq<Term>)
    requires IsPoly(n, p, ts)
    ensures IsPoly(n, p, Negate(p, ts))
    ensures Negate(p, ts) != [] ==> Negate(p, ts)[0].exponents == ts[0].exponents
  {
  }

  /** Each coefficient of the negation is minus the original one modulo p. */
  lemma {:induction false} NegateCoef(n: nat, p: int, ts: seq<Term>, e: seq<nat>)
    requires IsPoly(n, p, ts) && IsModulus(p)
    ensures InRange(CoefAt(ts, e), p)
    ensures CoefAt(Negate(p, ts), e) == SubMod(0, CoefAt(ts, e), p)
    decreases |ts|
  {
    CoefInRange(n, p, ts, e);
    if ts != [] && ts[0].exponents != e {
      assert Negate(p, ts)[1..] == Negate(p, ts[1..]);
      TailIsPoly(n, p, ts);
      NegateCoef(n, p, ts[1..], e);
    }
  }

  /** a - b by merging the two descending term lists: the greater head goes
      first, equal heads combine and vanish when their difference is zero. */
  function Subtract(n: nat, p: int, a: seq<Term>, b: seq<Term>): (r: seq<Term>)
    requires IsModulus(p) && IsPoly(n, p, a) && IsPoly(n, p, b)
    ensures IsPoly(n, p, r)
    ensures r != [] ==>
      (a != [] && Compare(r[0].exponents, a[0].exponents) <= 0) ||
      (b != [] && Compare(r[0].exponents, b[0].exponents) <= 0)
    decreases |a| + |b|
  {
    if a == [] then
      NegateIsPoly(n, p, b);
      Negate(p, b)
    else if b == [] then a
    else
      TailIsPoly(n, p, a);
      TailIsPoly(n, p, b);
      var c := Compare(a[0].exponents, b[0].exponents);
      if c > 0 then
        var rest := Subtract(n, p, a[1..], b);
        CompareAntisymmetric(a[0].exponents, b[0].exponents);
        SubtractHeadBelow(n, p, a[1..], b, rest, a[0].exponents);
        ConsIsPoly(n, p, a[0], rest);
        [a[0]] + rest
      else if c < 0 then
        var rest := Subtract(n, p, a, b[1..]);
        SubtractHeadBelow(n, p, a, b[1..], rest, b[0].exponents);
        var h := Term(b[0].exponents, p - b[0].coef);
        ConsIsPoly(n, p, h, rest);
        [h] + rest
      else
        var rest := Subtract(n, p, a[1..], b[1..]);
        SubtractHeadBelow(n, p, a[1..], b[1..], rest, a[0].exponents);
        var d := SubMod(a[0].coef, b[0].coef, p);
        if d == 0 then rest
        else
          ConsIsPoly(n, p, Term(a[0].exponents, d), rest);
          [Term(a[0].exponents, d)] + rest
  }

  /** The head of a merge lies below any monomial both heads lie below. */
  lemma SubtractHeadBelow(n: nat, p: int, a: seq<Term>, b: seq<Term>, r: seq<Term>, x: seq<nat>)
    requires IsPoly(n, p, a) && IsPoly(n, p, b) && IsPoly(n, p, r) && |x| == n
    requires a != [] ==> Less(a[0].exponents, x)
    requires b != [] ==> Less(b[0].exponents, x)
    requires r != [] ==>
      (a != [] && Compare(r[0].exponents, a[0].exponents) <= 0) ||
      (b != [] && Compare(r[0].exponents, b[0].exponents) <= 0)
    ensures r != [] ==> Less(r[0].exponents, x)
  {
    if r != [] {
      if a != [] && Compare(r[0].exponents, a[0].exponents) <= 0 {
        LeqLess(r[0].exponents, a[0].exponents, x);
      } else {
        LeqLess(r[0].exponents, b[0].exponents, x);
      }
    }
  }

  /** The merge subtracts coefficient by coefficient modulo p. */
  lemma {:induction false} SubtractCoef(n: nat, p: int, a: seq<Term>, b: seq<Term>, e: seq<nat>)
    requires IsModulus(p) && IsPoly(n, p, a) && IsPoly(n, p, b) && |e| == n
    ensures InRange(CoefAt(a, e), p) && InRange(CoefAt(b, e), p)
    ensures CoefAt(Subtract(n, p, a, b), e) == SubMod(CoefAt(a, e), CoefAt(b, e), p)
    decreases |a| + |b|
  {
    CoefInRange(n, p, a, e);
    CoefInRange(n, p, b, e);
    var r := Subtract(n, p, a, b);
    if a == [] {
      NegateCoef(n, p, b, e);
    } else if b == [] {
    } else {
      TailIsPoly(n, p, a);
      TailIsPoly(n, p, b);
      CoefInRange(n, p, a[1..], e);
      CoefInRange(n, p, b[1..], e);
      var c := Compare(a[0].exponents, b[0].exponents);
      if c > 0 {
        var rest := Subtract(n, p, a[1..], b);
        assert r == [a[0]] + rest;
        if e != a[0].exponents {
          SubtractCoef(n, p, a[1..], b, e);
        }
        CompareAntisymmetric(a[0].exponents, b[0].exponents);
        SubtractCoefFirst(n, p, a, b, e, rest);
      } else if c < 0 {
        var rest := Subtract(n, p, a, b[1..]);
        assert r == [Term(b[0].exponents, p - b[0].coef)] + rest;
        if e != b[0].exponents {
          SubtractCoef(n, p, a, b[1..], e);
        }
        SubtractCoefSecond(n, p, a, b, e, rest);
      } else {
        var rest := Subtract(n, p, a[1..], b[1..]);
        var d := SubMod(a[0].coef, b[0].coef, p);
        if e != a[0].exponents {
          SubtractCoef(n, p, a[1..], b[1..], e);
        } else if d == 0 {
          SubtractHeadBelow(n, p, a[1..], b[1..], rest, a[0].exponents);
          CoefAbove(n, p, rest, e);
        }
        SubtractCoefBoth(n, p, a, b, e, rest);
      }
    }
  }

  /** The merge step that emits the head of a. */
  lemma SubtractCoefFirst(n: nat, p: int, a: seq<Term>, b: seq<Term>, e: seq<nat>, rest: seq<Term>)
    requires IsModulus(p) && IsPoly(n, p, a) && IsPoly(n, p, b) && |e| == n && a != [] && b != []
    requires Less(b[0].exponents, a[0].exponents)
    requires InRange(CoefAt(a[1..], e), p) && InRange(CoefAt(b, e), p)
    requires e != a[0].exponents ==> CoefAt(rest, e) == SubMod(CoefAt(a[1..], e), CoefAt(b, e), p)
    ensures CoefAt([a[0]] + rest, e) == SubMod(CoefAt(a, e), CoefAt(b, e), p)
  {
    var r := [a[0]] + rest;
    assert r[0] == a[0] && r[1..] == rest;
    if e == a[0].exponents {
      CoefAbove(n, p, b, e);
    }
  }

  /** The merge step that emits the negated head of b. */
  lemma SubtractCoefSecond(n: nat, p: int, a: seq<Term>, b: seq<Term>, e: seq<nat>, rest: seq<Term>)
    requires IsModulus(p) && IsPoly(n, p, a) && IsPoly(n, p, b) && |e| == n && a != [] && b != []
    requires Less(a[0].exponents, b[0].exponents)
    requires InRange(CoefAt(a, e), p) && InRange(CoefAt(b[1..], e), p)
    requires e != b[0].exponents ==> CoefAt(rest, e) == SubMod(CoefAt(a, e), CoefAt(b[1..], e), p)
    ensures CoefAt([Term(b[0].exponents, p - b[0].coef)] + rest, e) == SubMod(CoefAt(a, e), CoefAt(b, e), p)
  {
    var r := [Term(b[0].exponents, p - b[0].coef)] + rest;
    assert r[1..] == rest;
    if e == b[0].exponents {
      CoefAbove(n, p, a, e);
    }
  }

  /** The merge step that combines two equal heads. */
  lemma SubtractCoefBoth(n: nat, p: int, a: seq<Term>, b: seq<Term>, e: seq<nat>, rest: seq<Term>)
    requires IsModulus(p) && IsPoly(n, p, a) && IsPoly(n, p, b) && |e| == n && a != [] && b != []
    requires a[0].exponents == b[0].exponents
    requires InRange(CoefAt(a[1..], e), p) && InRange(CoefAt(b[1..], e), p)
    requires e != a[0].exponents ==> CoefAt(rest, e) == SubMod(CoefAt(a[1..], e), CoefAt(b[1..], e), p)
    requires e == a[0].exponents && SubMod(a[0].coef, b[0].coef, p) == 0 ==> CoefAt(rest, e) == 0
    ensures var d := SubMod(a[0].coef, b[0].coef, p);
      CoefAt(if d == 0 then rest else [Term(a[0].exponents, d)] + rest, e) == SubMod(CoefAt(a, e), CoefAt(b, e), p)
  {
    var d := SubMod(a[0].coef, b[0].coef, p);
    if d != 0 {
      assert ([Term(a[0].exponents, d)] + rest)[1..] == rest;
    }
  }

  /** Multiplication by the term c * x^d: exponents shifted by d,
      coefficients multiplied by c. */
  function ScaleMonomial(p: int, f: seq<Term>, d: seq<nat>, c: int): (r: seq<Term>)
    requires InRange(c, p)
    requires forall k :: 0 <= k < |f| ==> |f[k].exponents| == |d| && InRange(f[k].coef, p)
    ensures |r| == |f|
  {
    seq(|f|, k requires 0 <= k < |f| => Term(Add(f[k].exponents, d), MulMod(c, f[k].coef, p)))
  }

  lemma ScaleMonomialIsPoly(n: nat, p: int, f: seq<Term>, d: seq<nat>, c: int)
    requires IsPrime(p) && IsPoly(n, p, f) && |d| == n && InRange(c, p) && c != 0
    ensures IsPoly(n, p, ScaleMonomial(p, f, d, c))
  {
    var r := ScaleMonomial(p, f, d, c);
    forall k | 0 <= k < |r|
      ensures IsTerm(n, p, r[k])
    {
      MulModNonzero(c, f[k].coef, p);
    }
    forall k, l | 0 <= k < l < |r|
      ensures Less(r[l].exponents, r[k].exponents)
    {
      CompareAdd(f[l].exponents, f[k].exponents, d);
    }
  }

  /** Adding exponents is injective. */
  lemma AddInjective(x: seq<nat>, y: seq<nat>, d: seq<nat>)
    requires |x| == |y| == |d| && Add(x, d) == Add(y, d)
    ensures x == y
  {
    forall i | 0 <= i < |x|
      ensures x[i] == y[i]
    {
      assert Add(x, d)[i] == Add(y, d)[i];
    }
  }

  /** The coefficient of x^(e + d) in c * x^d * f is c times that of x^e in f. */
  lemma {:induction false} ScaleMonomialCoef(n: nat, p: int, f: seq<Term>, d: seq<nat>, c: int, e: seq<nat>)
    requires IsModulus(p) && IsPoly(n, p, f) && |d| == n && |e| == n && InRange(c, p)
    ensures InRange(CoefAt(f, e), p)
    ensures CoefAt(ScaleMonomial(p, f, d, c), Add(e, d)) == MulMod(c, CoefAt(f, e), p)
    decreases |f|
  {
    CoefInRange(n, p, f, e);
    if f != [] {
      var r := ScaleMonomial(p, f, d, c);
      if f[0].exponents == e {
      } else {
        if Add(f[0].exponents, d) == Add(e, d) {
          AddInjective(f[0].exponents, e, d);
        }
        assert r[1..] == ScaleMonomial(p, f[1..], d, c);
        TailIsPoly(n, p, f);
        ScaleMonomialCoef(n, p, f[1..], d, c, e);
      }
    }
  }

  /** Adding the zero vector changes nothing. */
  lemma AddZeros(e: seq<nat>)
    ensures Add(e, Zeros(|e|)) == e
  {
  }

  /** `monic`: the polynomial divided by its leading coefficient (zero stays zero). */
  function Monic(n: nat, p: int, f: seq<Term>): (r: seq<Term>)
    requires IsPrime(p) && IsPoly(n, p, f)
    ensures IsPoly(n, p, r) && |r| == |f|
    ensures f != [] ==> r[0].coef == 1 && r[0].exponents == f[0].exponents
    ensures Lt(n, r) == Lt(n, f)
  {
    if f == [] then []
    else
      var lc := f[0].coef;
      ModOfRange(lc, p);
      var inv := Inverse(lc, p);
      MulModInverse(1, lc, p);
      ScaleMonomialIsPoly(n, p, f, Zeros(n), inv);
      AddZeros(f[0].exponents);
      MulModComm(inv, lc, p);
      MulModOne(inv, p);
      ScaleMonomial(p, f, Zeros(n), inv)
  }

  /** Each coefficient of the monic associate is the original one divided by
      the leading coefficient. */
  lemma MonicCoef(n: nat, p: int, f: seq<Term>, e: seq<nat>)
    requires IsPrime(p) && IsPoly(n, p, f) && f != [] && |e| == n
    ensures f[0].coef % p != 0 && InRange(CoefAt(f, e), p)
    ensures CoefAt(Monic(n, p, f), e) == MulMod(Inverse(f[0].coef, p), CoefAt(f, e), p)
  {
    ModOfRange(f[0].coef, p);
    CoefInRange(n, p, f, e);
    ScaleMonomialCoef(n, p, f, Zeros(n), Inverse(f[0].coef, p), e);
    AddZeros(e);
  }
}
