/** The deterministic bookkeeping that prepares two multivariate polynomials
    for the modular GCD algorithms: the trivial cases, removal of the
    monomial content, degree bounds for the gcd, the reordering of the
    variables by descending degree bound, the inverse of that reordering and
    the degree of the field extension needed over a small field. */
module MultivariateGcd {
  import opened Wrappers
  import opened ModArith
  import opened Monomials

  // ---------------------------------------------------------------------
  // Permutations

  /** perm lists each of 0 .. |perm|-1 exactly once. */
  predicate IsPermutation(perm: seq<int>)
  {
    (forall i :: 0 <= i < |perm| ==> 0 <= perm[i] < |perm|) &&
    (forall i, j :: 0 <= i < j < |perm| ==> perm[i] != perm[j])
  }

  /** No repetition-free sequence fits more values than there are slots. */
  lemma {:induction false} Pigeonhole(s: seq<int>, m: nat)
    requires forall i :: 0 <= i < |s| ==> 0 <= s[i] < m
    requires forall i, j :: 0 <= i < j < |s| ==> s[i] != s[j]
    ensures |s| <= m
    decreases |s|
  {
    if |s| > 0 {
      var v := s[|s| - 1];
      var t := seq(|s| - 1, k requires 0 <= k < |s| - 1 => if s[k] > v then s[k] - 1 else s[k]);
      forall k | 0 <= k < |t|
        ensures 0 <= t[k] < m - 1
      {
        assert s[k] != v;
      }
      forall k, l | 0 <= k < l < |t|
        ensures t[k] != t[l]
      {
        assert s[k] != s[l] && s[k] != v && s[l] != v;
      }
      Pigeonhole(t, m - 1);
    }
  }

  /** A permutation reaches every position. */
  lemma PermutationOnto(perm: seq<int>, j: int)
    requires IsPermutation(perm) && 0 <= j < |perm|
    ensures exists i :: 0 <= i < |perm| && perm[i] == j
  {
    if forall i :: 0 <= i < |perm| ==> perm[i] != j {
      var t := seq(|perm|, i requires 0 <= i < |perm| => if perm[i] > j then perm[i] - 1 else perm[i]);
      forall k, l | 0 <= k < l < |t|
        ensures t[k] != t[l]
      {
        assert perm[k] != perm[l];
      }
      Pigeonhole(t, |perm| - 1);
      assert false;
    }
  }

  /** `inversePermutation`: fills the inverse table from the last position
      down; the result undoes perm on both sides. */
  method InversePermutation(perm: array<int>) returns (inv: array<int>)
    requires IsPermutation(perm[..])
    ensures fresh(inv) && inv.Length == perm.Length
    ensures forall i :: 0 <= i < perm.Length ==> 0 <= perm[i] < inv.Length && inv[perm[i]] == i
    ensures forall j :: 0 <= j < inv.Length ==> 0 <= inv[j] < perm.Length && perm[inv[j]] == j
    ensures IsPermutation(inv[..])
  {
    inv := new int[perm.Length];
    var i := perm.Length - 1;
    while i >= 0
      invariant -1 <= i < perm.Length
      invariant forall k :: i < k < perm.Length ==> inv[perm[k]] == k
      decreases i
    {
      assert forall k :: i < k < perm.Length ==> perm[k] != perm[i];
      inv[perm[i]] := i;
      i := i - 1;
    }
    forall j | 0 <= j < inv.Length
      ensures 0 <= inv[j] < perm.Length && perm[inv[j]] == j
    {
      PermutationOnto(perm[..], j);
      var k :| 0 <= k < perm.Length && perm[k] == j;
    }
    forall k, l | 0 <= k < l < inv.Length
      ensures inv[k] != inv[l]
    {
      assert perm[inv[k]] == k && perm[inv[l]] == l;
    }
  }

  // ---------------------------------------------------------------------
  // Monomial content and the trivial cases

  /** d divides every monomial of ts. */
  predicate CommonDivisor(d: seq<nat>, ts: seq<Term>)
  {
    forall k :: 0 <= k < |ts| ==> Divides(d, ts[k].exponents)
  }

  /** g is the greatest common divisor of the monomials of ts: a common
      divisor that every other common divisor divides. */
  ghost predicate IsMonomialGcd(g: seq<nat>, ts: seq<Term>)
  {
    CommonDivisor(g, ts) &&
    forall d :: |d| == |g| && CommonDivisor(d, ts) ==> Divides(d, g)
  }

  predicate SameArity(n: nat, ts: seq<Term>)
  {
    forall k :: 0 <= k < |ts| ==> |ts[k].exponents| == n
  }

  /** Component-wise minimum of e and of every exponent vector of ts, taken
      term by term (`setMin` over the terms in `commonContent`). */
  function ContentFrom(e: seq<nat>, ts: seq<Term>): (c: seq<nat>)
    requires SameArity(|e|, ts)
    ensures |c| == |e|
    decreases |ts|
  {
    if ts == [] then e else ContentFrom(Min(e, ts[0].exponents), ts[1..])
  }

  /** The content is the gcd of e and all monomials of ts. */
  lemma {:induction false} ContentFromIsGcd(e: seq<nat>, ts: seq<Term>)
    requires SameArity(|e|, ts)
    ensures Divides(ContentFrom(e, ts), e) && CommonDivisor(ContentFrom(e, ts), ts)
    ensures forall d :: Divides(d, e) && CommonDivisor(d, ts) ==> Divides(d, ContentFrom(e, ts))
    decreases |ts|
  {
    if ts != [] {
      var m := Min(e, ts[0].exponents);
      ContentFromIsGcd(m, ts[1..]);
      var c := ContentFrom(m, ts[1..]);
      assert c == ContentFrom(e, ts);
      forall k | 0 <= k < |ts|
        ensures Divides(c, ts[k].exponents)
      {
        if k > 0 {
          assert ts[k] == ts[1..][k - 1];
        }
      }
      forall d | Divides(d, e) && CommonDivisor(d, ts)
        ensures Divides(d, c)
      {
        assert Divides(d, ts[0].exponents);
        assert CommonDivisor(d, ts[1..]) by {
          forall k | 0 <= k < |ts| - 1
            ensures Divides(d, ts[1..][k].exponents)
          {
            assert ts[1..][k] == ts[k + 1];
          }
        }
      }
    }
  }

  /** `monomialContent`: the gcd of all monomials of a nonzero polynomial. */
  function MonomialContent(ts: seq<Term>): (c: seq<nat>)
    requires ts != [] && SameArity(|ts[0].exponents|, ts)
    ensures |c| == |ts[0].exponents|
  {
    ContentFrom(ts[0].exponents, ts[1..])
  }

  lemma MonomialContentIsGcd(ts: seq<Term>)
    requires ts != [] && SameArity(|ts[0].exponents|, ts)
    ensures IsMonomialGcd(MonomialContent(ts), ts)
  {
    var c := MonomialContent(ts);
    ContentFromIsGcd(ts[0].exponents, ts[1..]);
    forall k | 0 <= k < |ts|
      ensures Divides(c, ts[k].exponents)
    {
      if k > 0 {
        assert ts[k] == ts[1..][k - 1];
      }
    }
    forall d | |d| == |c| && CommonDivisor(d, ts)
      ensures Divides(d, c)
    {
      assert Divides(d, ts[0].exponents);
      assert CommonDivisor(d, ts[1..]) by {
        forall k | 0 <= k < |ts| - 1
          ensures Divides(d, ts[1..][k].exponents)
        {
          assert ts[1..][k] == ts[k + 1];
        }
      }
    }
  }

  /** `gcdWithMonomial`: the gcd of a single term and a polynomial is the
      common content, a monomial with unit coefficient. */
  function GcdWithMonomial(monomial: Term, poly: seq<Term>): (g: seq<Term>)
    requires SameArity(|monomial.exponents|, poly)
    ensures |g| == 1 && g[0].coef == 1 && |g[0].exponents| == |monomial.exponents|
  {
    [Term(ContentFrom(monomial.exponents, poly), 1)]
  }

  /** The gcd of a term and a polynomial is the monomial gcd of all their
      monomials. */
  lemma GcdWithMonomialIsGcd(monomial: Term, poly: seq<Term>)
    requires SameArity(|monomial.exponents|, poly)
    ensures IsMonomialGcd(GcdWithMonomial(monomial, poly)[0].exponents, [monomial] + poly)
  {
    var e := monomial.exponents;
    var c := ContentFrom(e, poly);
    var ts := [monomial] + poly;
    ContentFromIsGcd(e, poly);
    forall k | 0 <= k < |ts|
      ensures Divides(c, ts[k].exponents)
    {
      if k > 0 {
        assert ts[k] == poly[k - 1];
      }
    }
    forall d | |d| == |c| && CommonDivisor(d, ts)
      ensures Divides(d, c)
    {
      assert ts[0] == monomial;
      assert CommonDivisor(d, poly) by {
        forall k | 0 <= k < |poly|
          ensures Divides(d, poly[k].exponents)
        {
          assert poly[k] == ts[k + 1];
        }
      }
    }
  }

  /** `trivialGCD`: a zero input gives the other one, a constant input gives
      one, a single term gives its common content with the other input, and
      otherwise there is no trivial answer (None stands for null). */
  function TrivialGcd(n: nat, p: int, a: seq<Term>, b: seq<Term>): (r: Option<seq<Term>>)
    requires IsPoly(n, p, a) && IsPoly(n, p, b)
    ensures a == [] ==> r == Some(b)
    ensures a != [] && b == [] ==> r == Some(a)
    ensures a != [] && b != [] && (IsConstant(a) || IsConstant(b)) ==> r == Some(One(n))
    ensures r.None? <==> |a| >= 2 && |b| >= 2
  {
    if a == [] then Some(b)
    else if b == [] then Some(a)
    else if IsConstant(a) || IsConstant(b) then Some(One(n))
    else if |a| == 1 then Some(GcdWithMonomial(a[0], b))
    else if |b| == 1 then Some(GcdWithMonomial(b[0], a))
    else None
  }

  /** A trivial answer for two nonzero inputs is a single monomial with unit
      coefficient, the monomial gcd of all terms of both inputs; every
      trivial answer is a polynomial. */
  lemma TrivialGcdIsGcd(n: nat, p: int, a: seq<Term>, b: seq<Term>)
    requires IsModulus(p) && IsPoly(n, p, a) && IsPoly(n, p, b)
    ensures TrivialGcd(n, p, a, b).Some? ==> IsPoly(n, p, TrivialGcd(n, p, a, b).value)
    ensures TrivialGcd(n, p, a, b).Some? && a != [] && b != [] ==>
      var g := TrivialGcd(n, p, a, b).value;
      |g| == 1 && g[0].coef == 1 && IsMonomialGcd(g[0].exponents, a + b)
  {
    if a == [] || b == [] {
    } else if IsConstant(a) || IsConstant(b) {
      ConstantGcd(n, a, b);
    } else if |a| == 1 {
      GcdWithMonomialIsGcd(a[0], b);
      assert [a[0]] + b == a + b;
    } else if |b| == 1 {
      GcdWithMonomialIsGcd(b[0], a);
      SwapGcd(b[0], a, b);
    }
  }

  /** With a constant among the inputs the monomial gcd is one. */
  lemma ConstantGcd(n: nat, a: seq<Term>, b: seq<Term>)
    requires a != [] && b != [] && (IsConstant(a) || IsConstant(b))
    requires SameArity(n, a) && SameArity(n, b)
    ensures IsMonomialGcd(One(n)[0].exponents, a + b)
  {
    var z := One(n)[0].exponents;
    var ts := a + b;
    var k0 := if IsConstant(a) then 0 else |a|;
    assert IsZeroVector(ts[k0].exponents);
    forall d | |d| == n && CommonDivisor(d, ts)
      ensures Divides(d, z)
    {
      assert Divides(d, ts[k0].exponents);
    }
  }

  /** Moving the single term of b in front of a does not change the monomial gcd. */
  lemma SwapGcd(t: Term, a: seq<Term>, b: seq<Term>)
    requires b == [t]
    ensures forall g :: IsMonomialGcd(g, [t] + a) ==> IsMonomialGcd(g, a + b)
  {
    forall g: seq<nat>, d: seq<nat> | |d| == |g|
      ensures CommonDivisor(d, [t] + a) <==> CommonDivisor(d, a + b)
    {
      if CommonDivisor(d, a + b) {
        assert (a + b)[|a|] == t;
        forall k | 0 <= k < |a| + 1
          ensures Divides(d, ([t] + a)[k].exponents)
        {
          if k > 0 {
            assert ([t] + a)[k] == (a + b)[k - 1];
          }
        }
      }
      if CommonDivisor(d, [t] + a) {
        forall k | 0 <= k < |a| + 1
          ensures Divides(d, (a + b)[k].exponents)
        {
          if k < |a| {
            assert (a + b)[k] == ([t] + a)[k + 1];
          } else {
            assert (a + b)[k] == ([t] + a)[0];
          }
        }
      }
    }
  }

  // ---------------------------------------------------------------------
  // Removal of the monomial content

  /** Every monomial of ts divided by the common divisor d. */
  function DivideAll(ts: seq<Term>, d: seq<nat>): (r: seq<Term>)
    requires CommonDivisor(d, ts)
    ensures |r| == |ts|
    ensures forall k :: 0 <= k < |ts| ==> r[k] == Term(Sub(ts[k].exponents, d), ts[k].coef)
  {
    seq(|ts|, k requires 0 <= k < |ts| => Term(Sub(ts[k].exponents, d), ts[k].coef))
  }

  /** Dividing by a common monomial keeps the terms in order, and multiplying
      the quotient back gives the original polynomial. */
  lemma DivideAllPoly(n: nat, p: int, ts: seq<Term>, d: seq<nat>)
    requires IsPoly(n, p, ts) && CommonDivisor(d, ts)
    ensures IsPoly(n, p, DivideAll(ts, d))
    ensures forall k :: 0 <= k < |ts| ==> Add(DivideAll(ts, d)[k].exponents, d) == ts[k].exponents
  {
    var r := DivideAll(ts, d);
    forall k, l | 0 <= k < l < |ts|
      ensures Less(r[l].exponents, r[k].exponents)
    {
      CompareSub(ts[l].exponents, ts[k].exponents, d);
    }
    forall k | 0 <= k < |ts|
      ensures Add(r[k].exponents, d) == ts[k].exponents
    {
      assert Add(r[k].exponents, d) == ts[k].exponents;
    }
  }

  /** The result of `reduceMonomialContent`: both inputs divided by their
      monomial gcd, and that gcd as a term with unit coefficient. */
  datatype Reduced = Reduced(a: seq<Term>, b: seq<Term>, monomialGcd: Term)

  /** `reduceMonomialContent`: the monomial gcd is the component-wise minimum
      of the two monomial contents, with unit coefficient; both inputs are
      divided by it. */
  function ReduceMonomialContent(n: nat, p: int, a: seq<Term>, b: seq<Term>): (r: Reduced)
    requires IsPoly(n, p, a) && IsPoly(n, p, b) && a != [] && b != []
    ensures |r.monomialGcd.exponents| == n && r.monomialGcd.coef == 1
    ensures |r.a| == |a| && |r.b| == |b|
  {
    var g := Min(MonomialContent(a), MonomialContent(b));
    MinOfContents(n, a, b);
    Reduced(DivideAll(a, g), DivideAll(b, g), Term(g, 1))
  }

  /** The monomial gcd found is the gcd of all monomials of both inputs, it
      divides both exactly (the quotients times it give the inputs back),
      the quotients are polynomials, and no variable divides both of them. */
  lemma ReduceMonomialContentSound(n: nat, p: int, a: seq<Term>, b: seq<Term>)
    requires IsPoly(n, p, a) && IsPoly(n, p, b) && a != [] && b != []
    ensures var r := ReduceMonomialContent(n, p, a, b);
      IsMonomialGcd(r.monomialGcd.exponents, a + b) &&
      IsPoly(n, p, r.a) && IsPoly(n, p, r.b) &&
      (forall k :: 0 <= k < |a| ==>
        r.a[k].coef == a[k].coef && Add(r.a[k].exponents, r.monomialGcd.exponents) == a[k].exponents) &&
      (forall k :: 0 <= k < |b| ==>
        r.b[k].coef == b[k].coef && Add(r.b[k].exponents, r.monomialGcd.exponents) == b[k].exponents) &&
      IsZeroVector(Min(MonomialContent(r.a), MonomialContent(r.b)))
  {
    var r := ReduceMonomialContent(n, p, a, b);
    var g := r.monomialGcd.exponents;
    MinOfContents(n, a, b);
    DivideAllPoly(n, p, a, g);
    DivideAllPoly(n, p, b, g);
    NothingLeft(n, a, b, g, r.a, r.b);
  }

  /** The minimum of the two monomial contents is the monomial gcd of both. */
  lemma MinOfContents(n: nat, a: seq<Term>, b: seq<Term>)
    requires a != [] && b != [] && SameArity(n, a) && SameArity(n, b)
    ensures IsMonomialGcd(Min(MonomialContent(a), MonomialContent(b)), a + b)
    ensures CommonDivisor(Min(MonomialContent(a), MonomialContent(b)), a)
    ensures CommonDivisor(Min(MonomialContent(a), MonomialContent(b)), b)
  {
    var ca, cb := MonomialContent(a), MonomialContent(b);
    var g := Min(ca, cb);
    MonomialContentIsGcd(a);
    MonomialContentIsGcd(b);
    MinIsGcd(ca, cb);
    forall k | 0 <= k < |a + b|
      ensures Divides(g, (a + b)[k].exponents)
    {
      if k < |a| {
        assert (a + b)[k] == a[k];
        DividesTrans(g, ca, a[k].exponents);
      } else {
        assert (a + b)[k] == b[k - |a|];
        DividesTrans(g, cb, b[k - |a|].exponents);
      }
    }
    forall d | |d| == |g| && CommonDivisor(d, a + b)
      ensures Divides(d, g)
    {
      assert CommonDivisor(d, a) by {
        forall k | 0 <= k < |a|
          ensures Divides(d, a[k].exponents)
        {
          assert a[k] == (a + b)[k];
        }
      }
      assert CommonDivisor(d, b) by {
        forall k | 0 <= k < |b|
          ensures Divides(d, b[k].exponents)
        {
          assert b[k] == (a + b)[|a| + k];
        }
      }
    }
    forall k | 0 <= k < |a|
      ensures Divides(g, a[k].exponents)
    {
      DividesTrans(g, ca, a[k].exponents);
    }
    forall k | 0 <= k < |b|
      ensures Divides(g, b[k].exponents)
    {
      DividesTrans(g, cb, b[k].exponents);
    }
  }

  /** After division by the monomial gcd no variable divides both quotients. */
  lemma NothingLeft(n: nat, a: seq<Term>, b: seq<Term>, g: seq<nat>, ra: seq<Term>, rb: seq<Term>)
    requires a != [] && b != [] && SameArity(n, a) && SameArity(n, b) && |g| == n
    requires IsMonomialGcd(g, a + b)
    requires |ra| == |a| && |rb| == |b| && SameArity(n, ra) && SameArity(n, rb)
    requires forall k :: 0 <= k < |a| ==> Add(ra[k].exponents, g) == a[k].exponents
    requires forall k :: 0 <= k < |b| ==> Add(rb[k].exponents, g) == b[k].exponents
    ensures IsZeroVector(Min(MonomialContent(ra), MonomialContent(rb)))
  {
    var h := Min(MonomialContent(ra), MonomialContent(rb));
    MinOfContents(n, ra, rb);
    var hg := Add(h, g);
    forall k | 0 <= k < |a + b|
      ensures Divides(hg, (a + b)[k].exponents)
    {
      if k < |a| {
        assert (a + b)[k] == a[k];
        assert Divides(h, ra[k].exponents);
      } else {
        assert (a + b)[k] == b[k - |a|];
        assert Divides(h, rb[k - |a|].exponents);
      }
    }
    assert Divides(hg, g);
  }

  // ---------------------------------------------------------------------
  // Degree bounds

  /** Component-wise maximum of e and of every exponent vector of ts. */
  function DegreesFrom(e: seq<nat>, ts: seq<Term>): (c: seq<nat>)
    requires SameArity(|e|, ts)
    ensures |c| == |e|
    decreases |ts|
  {
    if ts == [] then e else DegreesFrom(Max(e, ts[0].exponents), ts[1..])
  }

  /** `degrees()`: the largest exponent of each variable in the polynomial. */
  function Degrees(n: nat, ts: seq<Term>): (c: seq<nat>)
    requires SameArity(n, ts)
    ensures |c| == n
  {
    DegreesFrom(Zeros(n), ts)
  }

  /** m is a multiple of every monomial of ts. */
  predicate CommonMultiple(m: seq<nat>, ts: seq<Term>)
  {
    forall k :: 0 <= k < |ts| ==> Divides(ts[k].exponents, m)
  }

  lemma {:induction false} DegreesFromIsLcm(e: seq<nat>, ts: seq<Term>)
    requires SameArity(|e|, ts)
    ensures Divides(e, DegreesFrom(e, ts)) && CommonMultiple(DegreesFrom(e, ts), ts)
    ensures forall m :: Divides(e, m) && CommonMultiple(m, ts) ==> Divides(DegreesFrom(e, ts), m)
    decreases |ts|
  {
    if ts != [] {
      var m := Max(e, ts[0].exponents);
      DegreesFromIsLcm(m, ts[1..]);
      var c := DegreesFrom(m, ts[1..]);
      assert c == DegreesFrom(e, ts);
      forall k | 0 <= k < |ts|
        ensures Divides(ts[k].exponents, c)
      {
        if k > 0 {
          assert ts[k] == ts[1..][k - 1];
        }
      }
      forall d | Divides(e, d) && CommonMultiple(d, ts)
        ensures Divides(c, d)
      {
        assert Divides(ts[0].exponents, d);
        assert CommonMultiple(d, ts[1..]) by {
          forall k | 0 <= k < |ts| - 1
            ensures Divides(ts[1..][k].exponents, d)
          {
            assert ts[1..][k] == ts[k + 1];
          }
        }
      }
    }
  }

  /** The degree vector is the least common multiple of all monomials: entry
      i is the largest exponent of variable i. */
  lemma DegreesIsLcm(n: nat, ts: seq<Term>)
    requires SameArity(n, ts)
    ensures CommonMultiple(Degrees(n, ts), ts)
    ensures forall m :: |m| == n && CommonMultiple(m, ts) ==> Divides(Degrees(n, ts), m)
  {
    DegreesFromIsLcm(Zeros(n), ts);
  }

  /** Number of nonzero entries. */
  function CountNonzero(s: seq<nat>): (c: nat)
    ensures c <= |s|
  {
    if s == [] then 0 else CountNonzero(s[..|s| - 1]) + (if s[|s| - 1] != 0 then 1 else 0)
  }

  /** No nonzero entry counted exactly when all entries are zero. */
  lemma {:induction false} CountNonzeroZero(s: seq<nat>)
    ensures CountNonzero(s) == 0 <==> IsZeroVector(s)
  {
    if s != [] {
      var t := s[..|s| - 1];
      CountNonzeroZero(t);
      if IsZeroVector(s) {
        assert IsZeroVector(t) by {
          forall i | 0 <= i < |t|
            ensures t[i] == 0
          {
            assert t[i] == s[i];
          }
        }
      }
    }
  }

  /** The degree-bound loop of `preparedGCDInput`: bound i is the smaller of
      the two degrees in variable i; it counts the variables with a nonzero
      bound and remembers the last of them (-1 when there is none). */
  method DegreeBounds(aDegrees: seq<nat>, bDegrees: seq<nat>) returns (bounds: array<nat>, nUsed: nat, last: int)
    requires |aDegrees| == |bDegrees|
    ensures fresh(bounds) && bounds[..] == Min(aDegrees, bDegrees)
    ensures nUsed == CountNonzero(bounds[..])
    ensures -1 <= last < bounds.Length && (last >= 0 ==> bounds[last] != 0)
    ensures forall i :: last < i < bounds.Length ==> bounds[i] == 0
    ensures last == -1 <==> nUsed == 0
  {
    var n := |aDegrees|;
    bounds := new nat[n];
    nUsed := 0;
    last := -1;
    for i := 0 to n
      invariant forall k :: 0 <= k < i ==> bounds[k] == MinNat(aDegrees[k], bDegrees[k])
      invariant nUsed == CountNonzero(bounds[..i])
      invariant -1 <= last < i && (last >= 0 ==> bounds[last] != 0)
      invariant forall k :: last < k < i ==> bounds[k] == 0
    {
      bounds[i] := MinNat(aDegrees[i], bDegrees[i]);
      assert bounds[..i + 1][..i] == bounds[..i];
      if bounds[i] != 0 {
        nUsed := nUsed + 1;
        last := i;
      }
    }
    assert bounds[..] == bounds[..n];
    CountNonzeroZero(bounds[..]);
    if last >= 0 {
      assert !IsZeroVector(bounds[..]) by {
        assert bounds[..][last] != 0;
      }
    }
  }

  // ---------------------------------------------------------------------
  // Reordering the variables by descending degree bound

  predicate NonIncreasing(s: seq<nat>)
  {
    forall i, j :: 0 <= i < j < |s| ==> s[i] >= s[j]
  }

  /** Exchanging two entries of a permutation leaves a permutation. */
  lemma SwapPermutation(s: seq<int>, k: int, m: int)
    requires IsPermutation(s) && 0 <= k < |s| && 0 <= m < |s|
    ensures IsPermutation(s[k := s[m]][m := s[k]])
  {
    var t := s[k := s[m]][m := s[k]];
    forall i, j | 0 <= i < j < |t|
      ensures t[i] != t[j]
    {
      var i0 := if i == m then k else if i == k then m else i;
      var j0 := if j == m then k else if j == k then m else j;
      assert t[i] == s[i0] && t[j] == s[j0] && i0 != j0;
      if i0 < j0 {
        assert s[i0] != s[j0];
      } else {
        assert s[j0] != s[i0];
      }
    }
  }

  /** The reordering in `preparedGCDInput`: sorting the negated bounds
      together with the identity permutation `variables`, then negating the
      bounds back, leaves the bounds in descending order and records in
      `variables` where each bound came from.  ArraysUtil.quickSort is not
      part of this model: a selection sort with the same contract stands in
      for it. */
  method SortDescending(bounds: array<nat>) returns (variables: seq<int>)
    modifies bounds
    ensures IsSortedPermutation(old(bounds[..]), bounds[..], variables)
  {
    ghost var orig := bounds[..];
    var n := bounds.Length;
    var vars := new int[n](i => i);
    var k := 0;
    while k < n
      invariant 0 <= k <= n
      invariant Selected(bounds[..], vars[..], orig, k)
    {
      var m := LargestFrom(bounds, k);
      SwapBoth(bounds, vars, k, m, orig);
      k := k + 1;
    }
    variables := vars[..];
    SelectedDone(bounds[..], variables, orig);
  }

  /** b is b0 sorted into descending order, and v tells where each entry
      of b came from in b0. */
  predicate IsSortedPermutation(b0: seq<nat>, b: seq<nat>, v: seq<int>)
  {
    |v| == |b| == |b0| && IsPermutation(v) &&
    (forall i :: 0 <= i < |b| ==> 0 <= v[i] < |b| && b[i] == b0[v[i]]) &&
    NonIncreasing(b)
  }

  lemma SelectedDone(b: seq<nat>, v: seq<int>, orig: seq<nat>)
    requires Selected(b, v, orig, |b|)
    ensures IsSortedPermutation(orig, b, v)
  {
  }

  /** The state of the selection sort after k steps: v is a permutation
      telling where each bound of b came from in orig, the first k bounds
      are in descending order and none of the rest is larger. */
  predicate Selected(b: seq<nat>, v: seq<int>, orig: seq<nat>, k: int)
  {
    |b| == |v| == |orig| && 0 <= k <= |b| && IsPermutation(v) &&
    (forall i :: 0 <= i < |b| ==> 0 <= v[i] < |b| && b[i] == orig[v[i]]) &&
    (forall i, j :: 0 <= i < j < k ==> b[i] >= b[j]) &&
    (forall i, j :: 0 <= i < k <= j < |b| ==> b[i] >= b[j])
  }

  /** Swapping a largest remaining bound into position k extends the
      sorted prefix. */
  lemma SelectionStep(b: seq<nat>, v: seq<int>, orig: seq<nat>, k: int, m: int)
    requires Selected(b, v, orig, k) && k <= m < |b|
    requires forall t :: k <= t < |b| ==> b[m] >= b[t]
    ensures Selected(b[k := b[m]][m := b[k]], v[k := v[m]][m := v[k]], orig, k + 1)
  {
    SwapPermutation(v, k, m);
  }

  /** Position of a largest bound at or after k. */
  method LargestFrom(bounds: array<nat>, k: int) returns (m: int)
    requires 0 <= k < bounds.Length
    ensures k <= m < bounds.Length
    ensures forall t :: k <= t < bounds.Length ==> bounds[m] >= bounds[t]
  {
    m := k;
    var j := k + 1;
    while j < bounds.Length
      invariant k <= m < bounds.Length && k + 1 <= j <= bounds.Length
      invariant forall t :: k <= t < j ==> bounds[m] >= bounds[t]
    {
      if bounds[j] > bounds[m] {
        m := j;
      }
      j := j + 1;
    }
  }

  /** One selection step: exchange positions k and m in the bounds and in
      the permutation alike, which extends the sorted prefix. */
  method SwapBoth(bounds: array<nat>, variables: array<int>, k: int, m: int, ghost orig: seq<nat>)
    requires k < bounds.Length && Selected(bounds[..], variables[..], orig, k)
    requires k <= m < bounds.Length && forall t :: k <= t < bounds.Length ==> bounds[m] >= bounds[t]
    modifies bounds, variables
    ensures Selected(bounds[..], variables[..], orig, k + 1)
  {
    ghost var b, v := bounds[..], variables[..];
    bounds[k], bounds[m] := bounds[m], bounds[k];
    variables[k], variables[m] := variables[m], variables[k];
    assert bounds[..] == b[k := b[m]][m := b[k]];
    assert variables[..] == v[k := v[m]][m := v[k]];
    SelectionStep(b, v, orig, k, m);
  }

  /** last is the position before the first zero of b (or its last
      position when b has no zero). */
  predicate IsLastPresent(b: seq<nat>, last: int)
  {
    -1 <= last < |b| &&
    (forall i :: 0 <= i <= last ==> b[i] != 0) &&
    (last + 1 < |b| ==> b[last + 1] == 0)
  }

  /** The recomputation of `lastPresentVariable` after the reordering: the
      position before the first zero bound. */
  method LastPresentVariable(bounds: array<nat>) returns (last: int)
    ensures IsLastPresent(bounds[..], last)
  {
    var k := 0;
    while k < bounds.Length && bounds[k] != 0
      invariant 0 <= k <= bounds.Length
      invariant forall i :: 0 <= i < k ==> bounds[i] != 0
    {
      k := k + 1;
    }
    last := k - 1;
  }

  /** On descending bounds the position before the first zero is the last
      nonzero bound: every bound after it is zero. */
  lemma LastPresentTail(b: seq<nat>, last: int)
    requires IsLastPresent(b, last) && NonIncreasing(b)
    ensures forall i :: last < i < |b| ==> b[i] == 0
  {
    forall i | last < i < |b|
      ensures b[i] == 0
    {
      assert b[last + 1] >= b[i];
    }
  }

  // ---------------------------------------------------------------------
  // Size of the coefficient field

  /** `evaluationStackLimit`: the domain cardinality when it is known and
      fits in an int, -1 otherwise. */
  function EvaluationStackLimit(domainSize: Option<nat>): (r: int)
    ensures r == -1 <==> domainSize.None? || domainSize.value > MaxInt
    ensures r != -1 ==> r == domainSize.value
  {
    if domainSize.Some? && domainSize.value <= MaxInt then domainSize.value else -1
  }

  /** The field is too small for the random evaluations: its cardinality is
      known, fits in an int and is below the bound. */
  predicate SmallField(domainSize: Option<nat>, cardinalityBound: int)
  {
    domainSize.Some? && domainSize.value <= MaxInt && domainSize.value < cardinalityBound
  }

  lemma {:induction false} PowerPositive(b: int, e: nat)
    requires b >= 1
    ensures Power(b, e) >= 1
  {
    if e > 0 {
      PowerPositive(b, e - 1);
    }
  }

  /** One more round of the extension-degree loop: tmp grows to the next
      power of ds, and the power it replaces was still below the bound. */
  lemma ExtensionStep(ds: nat, e: nat, tmp: int, bound: int)
    requires ds >= 2 && tmp == Power(ds, e) && 1 <= tmp < bound
    requires forall k: nat :: k < e ==> Power(ds, k) < bound
    ensures tmp * ds == Power(ds, e + 1) && tmp * ds > tmp
    ensures forall k: nat :: k < e + 1 ==> Power(ds, k) < bound
  {
  }

  /** The extension-degree choice of `preparedGCDInput`: degree 1 when the
      field has at least 5 times the largest degree bound elements;
      otherwise the loop starts at degree 2 with tmp = ds and multiplies tmp
      by ds until it reaches the bound, so the result is one more than the
      least power of ds that reaches the bound. */
  method ExtensionDegree(domainSize: Option<nat>, maxBound: nat) returns (fed: nat)
    requires domainSize.Some? ==> domainSize.value >= 2
    ensures !SmallField(domainSize, 5 * maxBound) ==> fed == 1
    ensures SmallField(domainSize, 5 * maxBound) ==>
      fed >= 2 && Power(domainSize.value, fed - 1) >= 5 * maxBound &&
      forall k: nat :: k < fed - 1 ==> Power(domainSize.value, k) < 5 * maxBound
    ensures IsExtensionDegree(domainSize, maxBound, fed)
  {
    var cardinalityBound := 5 * maxBound;
    fed := 1;
    if SmallField(domainSize, cardinalityBound) {
      var ds := domainSize.value;
      fed := 2;
      var tmp := ds;
      while tmp < cardinalityBound
        invariant fed >= 2 && tmp == Power(ds, fed - 1) && tmp >= 1
        invariant forall k: nat :: k < fed - 1 ==> Power(ds, k) < cardinalityBound
        decreases cardinalityBound - tmp
      {
        ExtensionStep(ds, fed - 1, tmp, cardinalityBound);
        tmp := tmp * ds;
        fed := fed + 1;
      }
    }
  }

  // ---------------------------------------------------------------------
  // The bookkeeping of `preparedGCDInput`

  /** Largest entry (0 for an empty sequence), as `ArraysUtil.max`. */
  function MaxOf(s: seq<nat>): (m: nat)
    ensures forall i :: 0 <= i < |s| ==> s[i] <= m
    ensures s != [] ==> exists i :: 0 <= i < |s| && s[i] == m
  {
    if s == [] then 0
    else
      var m := MaxOf(s[..|s| - 1]);
      if s[|s| - 1] <= m then
        assert |s| == 1 || s[..|s| - 1] != [];
        m
      else s[|s| - 1]
  }

  /** What `preparedGCDInput` hands on: a trivial gcd, a switch to univariate
      gcd in the one variable both inputs share, or the data for the modular
      algorithms.  The polynomials themselves (with their redundant variables
      evaluated and their variables renamed) are not part of this model. */
  datatype GcdInput =
    | Trivial(gcd: seq<Term>)
    | Univariate(monomialGcd: Term, variable: int)
    | Prepared(monomialGcd: Term, evaluationStackLimit: int, degreeBounds: seq<nat>,
               variables: seq<int>, lastPresentVariable: int, finiteExtensionDegree: nat)

  /** The degree bounds before the reordering: the smaller of the two degrees
      in each variable, once the monomial content is removed. */
  function InitialBounds(n: nat, p: int, a: seq<Term>, b: seq<Term>): (bounds: seq<nat>)
    requires IsPoly(n, p, a) && IsPoly(n, p, b) && a != [] && b != []
    ensures |bounds| == n
  {
    var red := ReduceMonomialContent(n, p, a, b);
    ReduceMonomialContentSound(n, p, a, b);
    Min(Degrees(n, red.a), Degrees(n, red.b))
  }

  /** degreeBounds is bounds0 reordered descending by the permutation
      variables, and last is the position of its last nonzero entry. */
  predicate IsReordering(bounds0: seq<nat>, degreeBounds: seq<nat>, variables: seq<int>, last: int)
  {
    IsSortedPermutation(bounds0, degreeBounds, variables) &&
    IsLastPresent(degreeBounds, last) &&
    (forall i :: last < i < |degreeBounds| ==> degreeBounds[i] == 0)
  }

  /** fed is the extension degree the loop of `preparedGCDInput` picks for
      the cardinality bound 5 * maxBound. */
  predicate IsExtensionDegree(domainSize: Option<nat>, maxBound: nat, fed: nat)
  {
    var bound := 5 * maxBound;
    (!SmallField(domainSize, bound) ==> fed == 1) &&
    (SmallField(domainSize, bound) ==>
      fed >= 2 && Power(domainSize.value, fed - 1) >= bound &&
      forall k: nat :: k < fed - 1 ==> Power(domainSize.value, k) < bound)
  }

  /** The tail of `preparedGCDInput` once two or more variables are used:
      reorder the bounds, recompute the last present variable and choose
      the extension degree. */
  method Reorder(bounds: array<nat>, domainSize: Option<nat>)
    returns (degreeBounds: seq<nat>, variables: seq<int>, last: int, fed: nat)
    requires domainSize.Some? ==> domainSize.value >= 2
    modifies bounds
    ensures IsReordering(old(bounds[..]), degreeBounds, variables, last)
    ensures IsExtensionDegree(domainSize, MaxOf(degreeBounds), fed)
  {
    variables := SortDescending(bounds);
    degreeBounds := bounds[..];
    last := LastPresentVariable(bounds);
    LastPresentTail(degreeBounds, last);
    fed := ExtensionDegree(domainSize, MaxOf(degreeBounds));
  }

  /** The deterministic part of `preparedGCDInput`: the trivial cases, the
      monomial gcd, the degree bounds, the switch to a univariate gcd, the
      descending reordering with its permutation and last present variable,
      and the extension degree for a small field. */
  method PreparedGcdInput(n: nat, p: int, a: seq<Term>, b: seq<Term>, domainSize: Option<nat>)
    returns (r: GcdInput)
    requires IsModulus(p) && IsPoly(n, p, a) && IsPoly(n, p, b)
    requires domainSize.Some? ==> domainSize.value >= 2
    ensures TrivialGcd(n, p, a, b).Some? ==> r == Trivial(TrivialGcd(n, p, a, b).value)
    ensures TrivialGcd(n, p, a, b).None? ==>
      var bounds := InitialBounds(n, p, a, b);
      var g := ReduceMonomialContent(n, p, a, b).monomialGcd;
      (r.Trivial? <==> IsZeroVector(bounds)) &&
      (r.Trivial? ==> r.gcd == [g]) &&
      (r.Univariate? <==> CountNonzero(bounds) == 1) &&
      (r.Univariate? ==> r.monomialGcd == g && 0 <= r.variable < n && bounds[r.variable] != 0) &&
      (r.Prepared? ==>
        r.monomialGcd == g && CountNonzero(bounds) >= 2 &&
        r.evaluationStackLimit == EvaluationStackLimit(domainSize) &&
        IsReordering(bounds, r.degreeBounds, r.variables, r.lastPresentVariable) &&
        IsExtensionDegree(domainSize, MaxOf(r.degreeBounds), r.finiteExtensionDegree))
  {
    var trivial := TrivialGcd(n, p, a, b);
    if trivial.Some? {
      return Trivial(trivial.value);
    }
    var stackLimit := EvaluationStackLimit(domainSize);
    var red := ReduceMonomialContent(n, p, a, b);
    var bounds, nUsed, last := DegreeBounds(Degrees(n, red.a), Degrees(n, red.b));
    assert bounds[..] == InitialBounds(n, p, a, b);
    CountNonzeroZero(bounds[..]);
    if nUsed == 0 {
      return Trivial([red.monomialGcd]);
    }
    if nUsed == 1 {
      return Univariate(red.monomialGcd, last);
    }
    var degreeBounds, variables, lastPresent, fed := Reorder(bounds, domainSize);
    r := Prepared(red.monomialGcd, stackLimit, degreeBounds, variables, lastPresent, fed);
  }
}
