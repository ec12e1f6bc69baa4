/** Square-free factorization of univariate polynomials over Z_p: Musser's
    and Yun's loops, the p-th root of a polynomial whose derivative
    vanishes, the stripping of the power of x, and the square-freeness
    test. Every decomposition is built with the operations of the
    Decompositions module, and every loop is proved to keep the product of
    what it has recorded in step with its input. */
module SquareFree {
  import opened Wrappers
  import opened ModArith
  import opened UPoly
  import opened PolyRing
  import opened PolyDiv
  import opened PolyCoef
  import opened UnivariateGcd
  import opened Decompositions
  import opened ModularComposition
  import opened Binomial

  /** A nonzero polynomial with leading coefficient one. */
  predicate IsMonic(a: seq<int>) {
    a != [] && Lc(a) == 1
  }

  // ---------------------------------------------------------------------
  // Exact division

  /** Dividing by an exact divisor leaves no remainder. */
  lemma QuotExact(p: int, a: seq<int>, b: seq<int>)
    requires IsPrime(p) && IsPoly(p, a) && IsPoly(p, b) && b != [] && Divides(p, b, a)
    ensures a == Mul(p, Quot(p, a, b), b)
  {
    DividesIffRem(p, b, a);
    DivRemIdentity(p, a, b);
    AddZero(p, Mul(p, Quot(p, a, b), b));
  }

  /** The exact quotient of two monic polynomials is monic and its length
      is the difference of the degrees plus one. */
  lemma QuotMonic(p: int, a: seq<int>, b: seq<int>)
    requires IsPrime(p) && IsPoly(p, a) && IsPoly(p, b) && IsMonic(a) && IsMonic(b) && Divides(p, b, a)
    ensures a == Mul(p, Quot(p, a, b), b)
    ensures IsMonic(Quot(p, a, b)) && |Quot(p, a, b)| == |a| - |b| + 1
  {
    var q := Quot(p, a, b);
    QuotExact(p, a, b);
    MulNonzero(p, q, b);
    MulLen(p, q, b);
    MulModOne(Lc(q), p);
  }

  /** Division by one changes nothing. */
  lemma QuotOne(p: int, a: seq<int>)
    requires IsPrime(p) && IsPoly(p, a)
    ensures Quot(p, a, One(p)) == a
  {
    DividesRefl(p, a);
    MulOne(p, a);
    DividesIffRem(p, One(p), a);
    QuotExact(p, a, One(p));
    MulOne(p, Quot(p, a, One(p)));
  }

  /** The monic GCD of two polynomials, not both zero, is monic and
      divides both. */
  lemma GcdFacts(p: int, a: seq<int>, b: seq<int>)
    requires IsPrime(p) && IsPoly(p, a) && IsPoly(p, b) && (a != [] || b != [])
    ensures IsMonic(MonicGcd(p, a, b))
    ensures Divides(p, MonicGcd(p, a, b), a) && Divides(p, MonicGcd(p, a, b), b)
  {
    var g := MonicGcd(p, a, b);
    DividesRefl(p, g);
    MonicGcdIsGcd(p, a, b, g);
  }

  /** A monic polynomial of length at most one is the constant one. */
  lemma MonicConstant(a: seq<int>)
    requires IsMonic(a) && |a| <= 1
    ensures a == [1]
  {
  }

  // ---------------------------------------------------------------------
  // Shape of a square-free decomposition

  /** Every factor is monic and not constant; every exponent is positive. */
  predicate Positive(d: Decomposition) {
    (forall k :: 0 <= k < |d.factors| ==> IsMonic(d.factors[k]) && |d.factors[k]| > 1)
    && (forall k :: 0 <= k < |d.exponents| ==> 1 <= d.exponents[k])
  }

  /** Positive, with strictly increasing exponents: what one run of
      Musser's or Yun's loop records. */
  predicate Shape(d: Decomposition) {
    Positive(d) && forall k, l :: 0 <= k < l < |d.exponents| ==> d.exponents[k] < d.exponents[l]
  }

  /** The shape, with every exponent at most bound. */
  predicate ShapeUpTo(d: Decomposition, bound: nat) {
    Shape(d) && forall k :: 0 <= k < |d.exponents| ==> d.exponents[k] <= bound
  }

  /** Appending a monic factor with an exponent above the bound keeps the
      shape. */
  lemma ShapeAddFactor(d: Decomposition, bound: nat, f: seq<int>, e: nat)
    requires ShapeUpTo(d, bound) && |d.factors| == |d.exponents|
    requires IsMonic(f) && |f| > 1 && bound < e
    ensures ShapeUpTo(AddFactor(d, f, e), e)
  {
  }

  /** A decomposition's shape holds for any larger bound. */
  lemma ShapeWeaken(d: Decomposition, bound: nat, bound': nat)
    requires ShapeUpTo(d, bound) && bound <= bound'
    ensures ShapeUpTo(d, bound')
  {
  }

  // ---------------------------------------------------------------------
  // Musser's loop

  /** (A B)(G N) == A ((N B) G). */
  lemma MusserRearrange(p: int, a: seq<int>, b: seq<int>, g: seq<int>, n: seq<int>)
    requires IsModulus(p) && IsPoly(p, a) && IsPoly(p, b) && IsPoly(p, g) && IsPoly(p, n)
    ensures Mul(p, Mul(p, a, b), Mul(p, g, n)) == Mul(p, a, Mul(p, Mul(p, n, b), g))
  {
    MulAssoc(p, a, b, Mul(p, g, n));
    MulComm(p, g, n);
    MulAssoc(p, b, n, g);
    MulComm(p, b, n);
  }

  /** One round of Musser's loop: with n the monic GCD of the remaining
      gcd g and quot q, f == q / n and g1 == g / n are exact quotients, and
      the product E q^j g becomes (E f^j) n^(j+1) g1. */
  lemma MusserStep(p: int, u: seq<int>, e: seq<int>, q: seq<int>, g: seq<int>, j: nat)
    requires IsPrime(p) && IsPoly(p, u) && IsPoly(p, e) && IsPoly(p, q) && IsPoly(p, g)
    requires IsMonic(q) && IsMonic(g)
    requires u == Mul(p, e, Mul(p, Pow(p, q, j), g))
    ensures IsMonic(MonicGcd(p, g, q))
    ensures IsMonic(Quot(p, q, MonicGcd(p, g, q))) && IsMonic(Quot(p, g, MonicGcd(p, g, q)))
    ensures |Quot(p, g, MonicGcd(p, g, q))| == |g| - |MonicGcd(p, g, q)| + 1
    ensures u == Mul(p, Mul(p, e, Pow(p, Quot(p, q, MonicGcd(p, g, q)), j)),
                        Mul(p, Pow(p, MonicGcd(p, g, q), j + 1), Quot(p, g, MonicGcd(p, g, q))))
  {
    var n := MonicGcd(p, g, q);
    GcdFacts(p, g, q);
    var f, g1 := Quot(p, q, n), Quot(p, g, n);
    QuotMonic(p, q, n);
    QuotMonic(p, g, n);
    PowMulBase(p, f, n, j);
    var a, b := Pow(p, f, j), Pow(p, n, j);
    MusserRearrange(p, a, b, g1, n);
    MulAssoc(p, e, a, Mul(p, Mul(p, n, b), g1));
  }

  /** Multiplying by f^j changes nothing when f is one. */
  lemma MulPowOne(p: int, e: seq<int>, j: nat)
    requires IsModulus(p) && IsPoly(p, e)
    ensures Mul(p, e, Pow(p, One(p), j)) == e
  {
    PowOneBase(p, j);
    MulOne(p, e);
  }

  /** The factor a round records: f with exponent j when f is not
      constant (made monic first when makeMonic is set), nothing otherwise. */
  function Record(p: int, d: Decomposition, f: seq<int>, j: nat, makeMonic: bool): (r: Decomposition)
    requires IsPrime(p) && IsPoly(p, f)
    ensures |f| <= 1 ==> r == d
  {
    if |f| > 1 then AddFactor(d, if makeMonic then Monic(p, f) else f, j) else d
  }

  /** Recording a monic factor f at round j multiplies the expansion by
      f^j and keeps the shape. */
  lemma RecordFacts(p: int, d: Decomposition, f: seq<int>, j0: nat, j: nat, makeMonic: bool)
    requires IsPrime(p) && WellFormed(p, d) && IsPoly(p, f) && IsMonic(f)
    requires ShapeUpTo(d, j0) && j == j0 + 1
    ensures WellFormed(p, Record(p, d, f, j, makeMonic)) && Record(p, d, f, j, makeMonic).unit == d.unit
    ensures ShapeUpTo(Record(p, d, f, j, makeMonic), j)
    ensures Expand(p, Record(p, d, f, j, makeMonic)) == Mul(p, Expand(p, d), Pow(p, f, j))
  {
    if |f| > 1 {
      MonicLc(p, f);
      ExpandAddFactor(p, d, f, j);
      ShapeAddFactor(d, j0, f, j);
    } else {
      MonicConstant(f);
      MulPowOne(p, Expand(p, d), j);
      ShapeWeaken(d, j0, j);
    }
  }

  /** A round of Musser's loop keeps the loop invariant: the new recorded
      decomposition times nextQuot^(j+1) times the new gcd is still u, and
      the new gcd divides the old one and is shorter unless nextQuot is
      constant. */
  lemma MusserRound(p: int, u: seq<int>, d: Decomposition, q: seq<int>, g: seq<int>, j0: nat, j: nat, makeMonic: bool)
    requires IsPrime(p) && IsPoly(p, u) && WellFormed(p, d) && IsPoly(p, q) && IsPoly(p, g)
    requires IsMonic(q) && IsMonic(g) && ShapeUpTo(d, j0) && j == j0 + 1
    requires u == Mul(p, Expand(p, d), Mul(p, Pow(p, q, j), g))
    ensures IsMonic(MonicGcd(p, g, q)) && IsMonic(Quot(p, g, MonicGcd(p, g, q)))
    ensures Divides(p, Quot(p, g, MonicGcd(p, g, q)), g)
    ensures |Quot(p, g, MonicGcd(p, g, q))| == |g| - |MonicGcd(p, g, q)| + 1
    ensures WellFormed(p, Record(p, d, Quot(p, q, MonicGcd(p, g, q)), j, makeMonic))
    ensures Record(p, d, Quot(p, q, MonicGcd(p, g, q)), j, makeMonic).unit == d.unit
    ensures ShapeUpTo(Record(p, d, Quot(p, q, MonicGcd(p, g, q)), j, makeMonic), j)
    ensures u == Mul(p, Expand(p, Record(p, d, Quot(p, q, MonicGcd(p, g, q)), j, makeMonic)),
                        Mul(p, Pow(p, MonicGcd(p, g, q), j + 1), Quot(p, g, MonicGcd(p, g, q))))
  {
    var n := MonicGcd(p, g, q);
    GcdFacts(p, g, q);
    var f, g1 := Quot(p, q, n), Quot(p, g, n);
    MusserStep(p, u, Expand(p, d), q, g, j);
    QuotExact(p, g, n);
    MulComm(p, g1, n);
    RecordFacts(p, d, f, j0, j, makeMonic);
  }

  /** The loop of Musser's algorithm (Musser0 and the private Musser
      routine): starting from quot == poly / gcd, each round takes
      nextQuot == gcd(gcd, quot), records quot / nextQuot with the round
      number as exponent when it is not constant, and divides gcd by
      nextQuot, until nextQuot is constant. What it records times what is
      left of gcd is unit times poly; the recorded factors are monic and
      not constant, with strictly increasing exponents. makeMonic says
      whether the factor is made monic before it is recorded (Musser0)
      or not (Musser); it is monic either way. */
  method MusserLoop(p: int, unit: seq<int>, poly: seq<int>, gcd: seq<int>, makeMonic: bool)
    returns (result: Decomposition, rest: seq<int>)
    requires IsPrime(p) && IsPoly(p, unit) && IsPoly(p, poly) && IsPoly(p, gcd)
    requires IsMonic(poly) && IsMonic(gcd) && Divides(p, gcd, poly)
    ensures WellFormed(p, result) && result.unit == unit && Shape(result)
    ensures IsPoly(p, rest) && IsMonic(rest) && Divides(p, rest, gcd)
    ensures Mul(p, Expand(p, result), rest) == Mul(p, unit, poly)
  {
    var g := gcd;
    var quot := Quot(p, poly, g);
    result := ConstantFactor(unit);
    var i: nat := 0;
    MusserStart(p, unit, poly, g);
    DividesRefl(p, g);
    while true
      invariant WellFormed(p, result) && result.unit == unit && ShapeUpTo(result, i)
      invariant IsPoly(p, quot) && IsPoly(p, g) && IsMonic(quot) && IsMonic(g)
      invariant Divides(p, g, gcd)
      invariant Mul(p, unit, poly) == Mul(p, Expand(p, result), Mul(p, Pow(p, quot, i + 1), g))
      decreases |g|
    {
      var i0, old_result := i, result;
      i := i + 1;
      var nextQuot := PolynomialGcd(p, g, quot);
      PowCong(p, quot);
      MusserRound(p, Mul(p, unit, poly), result, quot, g, i0, i, makeMonic);
      var factor := Quot(p, quot, nextQuot);
      var g1 := Quot(p, g, nextQuot);
      DividesTrans(p, g1, g, gcd);
      if |factor| > 1 {
        result := AddFactor(result, if makeMonic then Monic(p, factor) else factor, i);
      }
      assert result == Record(p, old_result, factor, i, makeMonic);
      g := g1;
      if |nextQuot| <= 1 {
        rest := g;
        MusserFinish(p, Mul(p, unit, poly), Expand(p, result), nextQuot, g, i + 1);
        return;
      }
      quot := nextQuot;
    }
  }

  /** Before the first round: poly == 1 * quot^1 * gcd. */
  lemma MusserStart(p: int, unit: seq<int>, poly: seq<int>, g: seq<int>)
    requires IsPrime(p) && IsPoly(p, unit) && IsPoly(p, poly) && IsPoly(p, g)
    requires IsMonic(poly) && IsMonic(g) && Divides(p, g, poly)
    ensures IsMonic(Quot(p, poly, g)) && WellFormed(p, ConstantFactor(unit))
    ensures Mul(p, unit, poly) == Mul(p, Expand(p, ConstantFactor(unit)), Mul(p, Pow(p, Quot(p, poly, g), 0 + 1), g))
  {
    var quot := Quot(p, poly, g);
    QuotMonic(p, poly, g);
    PowCong(p, quot);
    MulOne(p, quot);
    assert Pow(p, quot, 1) == quot;
    MulComm(p, quot, g);
    MulOne(p, unit);
  }

  /** After the last round, nextQuot is one and what is left is the gcd. */
  lemma MusserFinish(p: int, u: seq<int>, e: seq<int>, n: seq<int>, g: seq<int>, k: nat)
    requires IsPrime(p) && IsPoly(p, u) && IsPoly(p, e) && IsPoly(p, n) && IsPoly(p, g)
    requires IsMonic(n) && |n| <= 1 && u == Mul(p, e, Mul(p, Pow(p, n, k), g))
    ensures u == Mul(p, e, g)
  {
    MonicConstant(n);
    PowOneBase(p, k);
    MulOne(p, g);
  }

  // ---------------------------------------------------------------------
  // Yun's loop

  /** gcd(a, a'), made monic: for a nonzero a it is monic and divides both
      a and its derivative. */
  function DerivGcd(p: int, a: seq<int>): (g: seq<int>)
    requires IsPrime(p) && IsPoly(p, a)
    ensures IsPoly(p, g)
    ensures a != [] ==> IsMonic(g) && Divides(p, g, a) && Divides(p, g, Deriv(p, a))
  {
    if a != [] then
      GcdFacts(p, a, Deriv(p, a));
      MonicGcd(p, a, Deriv(p, a))
    else MonicGcd(p, a, Deriv(p, a))
  }

  /** The product of the polynomials of a list, each to the first power. */
  function FactorProduct(p: int, fs: seq<seq<int>>): (r: seq<int>)
    requires IsModulus(p) && AllPoly(p, fs)
    ensures IsPoly(p, r)
    decreases |fs|
  {
    if fs == [] then One(p)
    else
      assert AllPoly(p, fs[..|fs| - 1]);
      Mul(p, FactorProduct(p, fs[..|fs| - 1]), fs[|fs| - 1])
  }

  /** Appending f multiplies the product by f. */
  lemma FactorProductSnoc(p: int, fs: seq<seq<int>>, f: seq<int>)
    requires IsModulus(p) && AllPoly(p, fs) && IsPoly(p, f)
    ensures AllPoly(p, fs + [f])
    ensures FactorProduct(p, fs + [f]) == Mul(p, FactorProduct(p, fs), f)
  {
    assert AllPoly(p, fs + [f]);
    InitSnoc(fs, f);
  }

  /** Recording n, where quot == q1 * n, keeps q0 == (product of the
      recorded factors) * quot with q1 for quot. */
  lemma YunProduct(p: int, q0: seq<int>, d: Decomposition, n: seq<int>, q: seq<int>, q1: seq<int>, j: nat)
    requires IsPrime(p) && IsPoly(p, q0) && WellFormed(p, d) && IsPoly(p, n) && IsPoly(p, q) && IsPoly(p, q1)
    requires IsMonic(n) && q == Mul(p, q1, n) && q0 == Mul(p, FactorProduct(p, d.factors), q)
    ensures AllPoly(p, Record(p, d, n, j, false).factors)
    ensures q0 == Mul(p, FactorProduct(p, Record(p, d, n, j, false).factors), q1)
  {
    var fp := FactorProduct(p, d.factors);
    if |n| > 1 {
      FactorProductSnoc(p, d.factors, n);
      MulComm(p, q1, n);
      MulAssoc(p, fp, n, q1);
    } else {
      MonicConstant(n);
      MulOne(p, q1);
    }
  }

  /** A round of Yun's loop: with factor the monic GCD of quot and dQuot,
      quot == (quot / factor) * factor, and recording factor when it is not
      one keeps q0 == (product of the recorded factors) * quot. */
  lemma YunRound(p: int, q0: seq<int>, d: Decomposition, q: seq<int>, dq: seq<int>, j0: nat, j: nat)
    requires IsPrime(p) && IsPoly(p, q0) && WellFormed(p, d) && IsPoly(p, q) && IsPoly(p, dq)
    requires IsMonic(q) && ShapeUpTo(d, j0) && j == j0 + 1
    requires q0 == Mul(p, FactorProduct(p, d.factors), q)
    ensures IsMonic(MonicGcd(p, q, dq)) && IsMonic(Quot(p, q, MonicGcd(p, q, dq)))
    ensures Divides(p, MonicGcd(p, q, dq), dq)
    ensures |Quot(p, q, MonicGcd(p, q, dq))| == |q| - |MonicGcd(p, q, dq)| + 1
    ensures WellFormed(p, Record(p, d, MonicGcd(p, q, dq), j, false))
    ensures Record(p, d, MonicGcd(p, q, dq), j, false).unit == d.unit
    ensures ShapeUpTo(Record(p, d, MonicGcd(p, q, dq), j, false), j)
    ensures q0 == Mul(p, FactorProduct(p, Record(p, d, MonicGcd(p, q, dq), j, false).factors), Quot(p, q, MonicGcd(p, q, dq)))
  {
    var n := MonicGcd(p, q, dq);
    GcdFacts(p, q, dq);
    QuotMonic(p, q, n);
    RecordFacts(p, d, n, j0, j, false);
    YunProduct(p, q0, d, n, q, Quot(p, q, n), j);
  }

  /** The start of Yun's loop: quot == poly / gcd is monic and is the whole
      of poly / gcd. */
  lemma YunStart(p: int, unit: seq<int>, poly: seq<int>, gcd: seq<int>)
    requires IsPrime(p) && IsPoly(p, unit) && IsPoly(p, poly) && IsPoly(p, gcd)
    requires IsMonic(poly) && IsMonic(gcd) && Divides(p, gcd, poly)
    ensures IsMonic(Quot(p, poly, gcd)) && WellFormed(p, ConstantFactor(unit))
    ensures Quot(p, poly, gcd) == Mul(p, FactorProduct(p, ConstantFactor(unit).factors), Quot(p, poly, gcd))
  {
    QuotMonic(p, poly, gcd);
    MulOne(p, Quot(p, poly, gcd));
  }

  /** poly alone, with exponent one. */
  lemma SingleFactor(p: int, unit: seq<int>, poly: seq<int>)
    requires IsPrime(p) && IsPoly(p, unit) && IsPoly(p, poly) && IsMonic(poly) && |poly| > 1
    ensures WellFormed(p, AddFactor(ConstantFactor(unit), poly, 1)) && Shape(AddFactor(ConstantFactor(unit), poly, 1))
    ensures FactorProduct(p, AddFactor(ConstantFactor(unit), poly, 1).factors) == poly
  {
    var c := ConstantFactor(unit);
    ShapeAddFactor(c, 0, poly, 1);
    FactorProductSnoc(p, c.factors, poly);
    MulOne(p, poly);
  }

  /** When gcd(poly, poly') is one, poly is recorded alone, and it is
      poly / 1. */
  lemma YunSquareFree(p: int, unit: seq<int>, poly: seq<int>)
    requires IsPrime(p) && IsPoly(p, unit) && IsPoly(p, poly) && IsMonic(poly) && |poly| > 1
    requires |DerivGcd(p, poly)| <= 1
    ensures WellFormed(p, AddFactor(ConstantFactor(unit), poly, 1)) && Shape(AddFactor(ConstantFactor(unit), poly, 1))
    ensures FactorProduct(p, AddFactor(ConstantFactor(unit), poly, 1).factors) == Quot(p, poly, DerivGcd(p, poly))
  {
    MonicConstant(DerivGcd(p, poly));
    QuotOne(p, poly);
    SingleFactor(p, unit, poly);
  }

  /** One round of Yun's loop, as the loop body runs it. */
  method YunStep(p: int, q0: seq<int>, result: Decomposition, quot: seq<int>, dQuot: seq<int>, i: nat)
    returns (result': Decomposition, quot': seq<int>, dQuot': seq<int>)
    requires IsPrime(p) && IsPoly(p, q0) && WellFormed(p, result) && IsPoly(p, quot) && IsPoly(p, dQuot)
    requires IsMonic(quot) && ShapeUpTo(result, i)
    requires q0 == Mul(p, FactorProduct(p, result.factors), quot)
    ensures WellFormed(p, result') && result'.unit == result.unit && ShapeUpTo(result', i + 1)
    ensures IsPoly(p, quot') && IsPoly(p, dQuot') && IsMonic(quot') && |quot'| <= |quot|
    ensures q0 == Mul(p, FactorProduct(p, result'.factors), quot')
  {
    var i' := i + 1;
    var dq := Sub(p, dQuot, Deriv(p, quot));
    var factor := PolynomialGcd(p, quot, dq);
    YunRound(p, q0, result, quot, dq, i, i');
    quot' := Quot(p, quot, factor);
    dQuot' := Quot(p, dq, factor);
    result' := result;
    if factor != One(p) {
      result' := AddFactor(result, factor, i');
    }
    assert result' == Record(p, result, factor, i', false);
  }

  /** The loop of Yun's algorithm (the private Yun routine, lines 66-86):
      quot == poly / gcd and dQuot == poly' / gcd for gcd == gcd(poly,
      poly'); each round subtracts quot' from dQuot, takes factor ==
      gcd(quot, dQuot), divides both by it and records factor with the
      round number when it is not one, until quot is constant. The loop is
      run for at most fuel rounds; None means the fuel ran out. The
      recorded factors are monic and not constant with strictly increasing
      exponents, and their product is poly / gcd(poly, poly'). */
  method YunLoop(p: int, unit: seq<int>, poly: seq<int>, fuel: nat) returns (r: Option<Decomposition>)
    requires IsPrime(p) && IsPoly(p, unit) && IsPoly(p, poly) && IsMonic(poly) && |poly| > 1
    ensures r.Some? ==> WellFormed(p, r.value) && r.value.unit == unit && Shape(r.value)
    ensures r.Some? ==> FactorProduct(p, r.value.factors) == Quot(p, poly, DerivGcd(p, poly))
  {
    var derivative := Deriv(p, poly);
    var gcd := PolynomialGcd(p, poly, derivative);
    assert gcd == DerivGcd(p, poly);
    var result := ConstantFactor(unit);
    if |gcd| <= 1 {
      YunSquareFree(p, unit, poly);
      result := AddFactor(result, poly, 1);
      return Some(result);
    }
    var quot := Quot(p, poly, gcd);
    var dQuot := Quot(p, derivative, gcd);
    YunStart(p, unit, poly, gcd);
    var i: nat := 0;
    var rounds: nat := 0;
    while |quot| > 1
      invariant WellFormed(p, result) && result.unit == unit && ShapeUpTo(result, i)
      invariant IsPoly(p, quot) && IsPoly(p, dQuot) && IsMonic(quot) && rounds <= fuel
      invariant Quot(p, poly, gcd) == Mul(p, FactorProduct(p, result.factors), quot)
      decreases fuel - rounds
    {
      if rounds == fuel {
        return None;
      }
      rounds := rounds + 1;
      result, quot, dQuot := YunStep(p, Quot(p, poly, gcd), result, quot, dQuot, i);
      i := i + 1;
    }
    MonicConstant(quot);
    MulOne(p, FactorProduct(p, result.factors));
    return Some(result);
  }

  // ---------------------------------------------------------------------
  // The p-th root of a polynomial whose derivative vanishes

  /** Division by p is monotone. */
  lemma DivLe(i: int, d: int, p: int)
    requires 0 <= i <= d && p > 0
    ensures 0 <= i / p <= d / p
  {
    var qi, qd := i / p, d / p;
    if qi < 0 {
      MulAtLeast(-qi, p);
    }
    if qi > qd {
      var e := qi - qd;
      MulAtLeast(e, p);
    }
  }

  /** (j p) / p == j and (j p) % p == 0. */
  lemma MulDivCancel(j: int, p: int)
    requires p > 0
    ensures (j * p) / p == j && (j * p) % p == 0
  {
    ModUnique(j * p, p, j, 0);
  }

  /** k p < q p implies k < q. */
  lemma MulLtCancel(k: int, q: int, p: int)
    requires p > 0 && k >= 0 && k * p < q * p
    ensures k < q
  {
    MulDivCancel(k, p);
    MulDivCancel(q, p);
    DivLe(k * p, q * p, p);
  }

  /** A multiple of p in the bucket of j is j p. */
  lemma DivBucket(i: int, j: int, p: int)
    requires p > 0 && i % p == 0 && i / p == j
    ensures i == j * p
  {
  }

  /** Past the last bucket every multiple of p lies beyond d. */
  lemma BeyondLastBucket(d: int, p: int, j: int)
    requires d >= 0 && p > 0 && j >= d / p + 1
    ensures j * p > d
  {
    var q := d / p;
    var e := j - q;
    MulAtLeast(e, p);
    assert j * p == q * p + e * p;
  }

  /** Every nonzero coefficient sits at a multiple of p. */
  ghost predicate PowersOnly(p: int, a: seq<int>)
    requires p > 0
  {
    forall i :: 0 <= i < |a| && a[i] != 0 ==> i % p == 0
  }

  /** rootData[j] after the descending loop has visited indices lo and up:
      the coefficient at the least nonzero index i >= lo with i / p == j,
      or zero when there is none. */
  function Written(p: int, a: seq<int>, lo: nat, j: nat): (r: int)
    requires IsModulus(p) && IsPoly(p, a)
    ensures InRange(r, p)
    decreases |a| - lo
  {
    if lo >= |a| then 0
    else if a[lo] != 0 && lo / p == j then a[lo]
    else Written(p, a, lo + 1, j)
  }

  /** One unfolding of Written, with lo + 1 given as lo1. */
  lemma WrittenStep(p: int, a: seq<int>, lo: nat, lo1: nat, j: nat)
    requires IsModulus(p) && IsPoly(p, a) && lo < |a| && lo1 == lo + 1
    ensures Written(p, a, lo, j) == if a[lo] != 0 && lo / p == j then a[lo] else Written(p, a, lo1, j)
  {
  }

  /** When every nonzero coefficient sits at a multiple of p, the loop
      writes coefficient j p into slot j. */
  lemma {:induction false} WrittenPowers(p: int, a: seq<int>, lo: nat, j: nat, jp: nat)
    requires IsModulus(p) && IsPoly(p, a) && PowersOnly(p, a) && jp == j * p
    ensures Written(p, a, lo, j) == if lo <= jp then Coef(a, jp) else 0
    decreases |a| - lo
  {
    MulDivCancel(j, p);
    if lo < |a| {
      var lo1 := lo + 1;
      WrittenStep(p, a, lo, lo1, j);
      WrittenPowers(p, a, lo1, j, jp);
      if a[lo] != 0 && lo / p == j {
        DivBucket(lo, j, p);
      }
    }
  }

  /** The p-th root as the source computes it: rootData of length
      degree / p + 1, filled by the descending loop, trimmed. */
  function PRootOf(p: int, a: seq<int>): (r: seq<int>)
    requires IsModulus(p) && IsPoly(p, a)
    ensures IsPoly(p, r) && |r| <= Degree(a) / p + 1
  {
    var n := Degree(a) / p + 1;
    var data := seq(n, j requires 0 <= j < n => Written(p, a, 0, j));
    TrimPoly(p, data);
    Trim(data)
  }

  /** The filled rootData, trimmed, is the p-th root. */
  lemma RootDataSpec(p: int, a: seq<int>, data: seq<int>)
    requires IsModulus(p) && IsPoly(p, a) && |data| == Degree(a) / p + 1
    requires forall j :: 0 <= j < |data| ==> data[j] == Written(p, a, 0, j)
    ensures Trim(data) == PRootOf(p, a)
  {
    var n := Degree(a) / p + 1;
    assert data == seq(n, j requires 0 <= j < n => Written(p, a, 0, j));
  }

  /** The slot update of one loop round turns rootData from the picture
      after index lo1 into the picture after index lo. */
  lemma WrittenUpdate(p: int, a: seq<int>, lo: nat, lo1: nat, k: nat, before: seq<int>, after: seq<int>)
    requires IsModulus(p) && IsPoly(p, a) && lo < |a| && lo1 == lo + 1 && k == lo / p && k < |before|
    requires forall j :: 0 <= j < |before| ==> before[j] == Written(p, a, lo1, j)
    requires after == if a[lo] != 0 then before[k := a[lo]] else before
    ensures forall j :: 0 <= j < |after| ==> after[j] == Written(p, a, lo, j)
  {
    forall j | 0 <= j < |after|
      ensures after[j] == Written(p, a, lo, j)
    {
      WrittenStep(p, a, lo, lo1, j);
    }
  }

  /** Coefficient j of the trimmed rootData is what the fill wrote into
      slot j, zero beyond the last slot. */
  lemma CoefRootData(p: int, a: seq<int>, j: nat)
    requires IsModulus(p) && IsPoly(p, a)
    ensures Coef(PRootOf(p, a), j) == if j < Degree(a) / p + 1 then Written(p, a, 0, j) else 0
  {
    var n := Degree(a) / p + 1;
    var data := seq(n, j requires 0 <= j < n => Written(p, a, 0, j));
    assert PRootOf(p, a) == Trim(data);
    CoefTrim(data, j);
    if j < n {
      assert data[j] == Written(p, a, 0, j);
    }
  }

  /** When every nonzero coefficient of a sits at a multiple of p,
      coefficient j of the root is coefficient j p of a. */
  lemma CoefPRoot(p: int, a: seq<int>, j: nat)
    requires IsModulus(p) && IsPoly(p, a) && PowersOnly(p, a)
    ensures Coef(PRootOf(p, a), j) == Coef(a, j * p)
  {
    var jp := j * p;
    CoefRootData(p, a, j);
    if j < Degree(a) / p + 1 {
      WrittenPowers(p, a, 0, j, jp);
    } else {
      BeyondLastBucket(Degree(a), p, j);
      assert Coef(a, jp) == 0;
    }
  }

  /** pRoot (lines 227-240): refuses a modulus above Integer.MAX_VALUE;
      otherwise rootData[i / p] receives every nonzero coefficient i, from
      the top index down, and the trimmed rootData is returned. */
  method PRoot(p: int, a: seq<int>) returns (r: Result<seq<int>>)
    requires IsModulus(p) && IsPoly(p, a)
    ensures r.Failure? <==> p > MaxInt
    ensures r.Success? ==> r.value == PRootOf(p, a)
  {
    if p > MaxInt {
      return Failure(IllegalArgument("Too big modulus"));
    }
    var n := Degree(a) / p + 1;
    var rootData := new int[n](_ => 0);
    var lo := |a|;
    while lo > 0
      invariant 0 <= lo <= |a|
      invariant forall j :: 0 <= j < n ==> rootData[j] == Written(p, a, lo, j)
    {
      var lo1 := lo;
      lo := lo - 1;
      ghost var before := rootData[..];
      var k := lo / p;
      DivLe(lo, Degree(a), p);
      if a[lo] != 0 {
        rootData[k] := a[lo];
      }
      WrittenUpdate(p, a, lo, lo1, k, before, rootData[..]);
    }
    RootDataSpec(p, a, rootData[..]);
    r := Success(Trim(rootData[..]));
  }

  /** r(x^p): coefficient j of r moved to index j p. */
  function Inflate(p: int, r: seq<int>): (a: seq<int>)
    requires IsModulus(p) && IsPoly(p, r)
    ensures IsPoly(p, a)
  {
    if r == [] then []
    else
      var top := (|r| - 1) * p;
      MulDivCancel(|r| - 1, p);
      seq(top + 1, i requires 0 <= i < top + 1 => if i % p == 0 && i / p < |r| then r[i / p] else 0)
  }

  /** Coefficient i of r(x^p) is coefficient i / p of r when p divides i,
      and zero otherwise. */
  lemma CoefInflate(p: int, r: seq<int>, i: nat)
    requires IsModulus(p) && IsPoly(p, r)
    ensures Coef(Inflate(p, r), i) == if i % p == 0 then Coef(r, i / p) else 0
  {
    var a := Inflate(p, r);
    if r != [] && i % p == 0 && i >= |a| {
      var k := |r| - 1;
      assert |a| == k * p + 1;
      InflateBeyond(k, i, p);
    }
  }

  /** A multiple of p above k p has quotient above k. */
  lemma InflateBeyond(k: int, i: int, p: int)
    requires p > 0 && k >= 0 && i > k * p && i % p == 0
    ensures i / p > k
  {
    var j := i / p;
    DivBucket(i, j, p);
    MulLtCancel(k, j, p);
  }

  /** Every nonzero coefficient of r(x^p) sits at a multiple of p. */
  lemma InflatePowers(p: int, r: seq<int>)
    requires IsModulus(p) && IsPoly(p, r)
    ensures PowersOnly(p, Inflate(p, r))
  {
    var a := Inflate(p, r);
    forall i | 0 <= i < |a| && a[i] != 0
      ensures i % p == 0
    {
      CoefInflate(p, r, i);
    }
  }

  /** The p-th root undoes r(x^p). */
  lemma RootInflate(p: int, r: seq<int>)
    requires IsModulus(p) && IsPoly(p, r)
    ensures PRootOf(p, Inflate(p, r)) == r
  {
    var a := Inflate(p, r);
    InflatePowers(p, r);
    forall j: nat
      ensures Coef(PRootOf(p, a), j) == Coef(r, j)
    {
      CoefPRoot(p, a, j);
      CoefInflate(p, r, j * p);
      MulDivCancel(j, p);
    }
    CoefExt(p, PRootOf(p, a), r);
  }

  /** When every nonzero coefficient of a sits at a multiple of p, a is
      its p-th root taken to x^p. */
  lemma InflateRoot(p: int, a: seq<int>)
    requires IsModulus(p) && IsPoly(p, a) && PowersOnly(p, a)
    ensures Inflate(p, PRootOf(p, a)) == a
  {
    var r := PRootOf(p, a);
    forall i: nat
      ensures Coef(Inflate(p, r), i) == Coef(a, i)
    {
      CoefInflate(p, r, i);
      if i % p == 0 {
        var j := i / p;
        CoefPRoot(p, a, j);
        DivBucket(i, j, p);
      }
    }
    CoefExt(p, Inflate(p, r), a);
  }

  /** A coefficient at an index that is not a multiple of p survives in
      the derivative. */
  lemma DerivKeeps(p: int, a: seq<int>, i: nat)
    requires IsPrime(p) && IsPoly(p, a) && 0 < i < |a| && a[i] != 0 && i % p != 0
    ensures Deriv(p, a) != []
  {
    var k := i - 1;
    CoefDeriv(p, a, k);
    ModOfRange(0, p);
    MulModNonzero(a[i], (k + 1) % p, p);
  }

  /** Coefficient k of the derivative vanishes when coefficient k + 1 of a
      is zero or k + 1 is a multiple of p. */
  lemma DerivCoefZero(p: int, a: seq<int>, k: nat)
    requires IsPrime(p) && IsPoly(p, a) && (Coef(a, k + 1) == 0 || (k + 1) % p == 0)
    ensures Coef(Deriv(p, a), k) == 0
  {
    CoefDeriv(p, a, k);
    ModOfRange(0, p);
    MulModZero((k + 1) % p, p);
    MulModZero(Coef(a, k + 1), p);
  }

  /** Over a prime field the derivative vanishes exactly when every
      nonzero coefficient sits at a multiple of p. */
  lemma DerivZeroIffPowers(p: int, a: seq<int>)
    requires IsPrime(p) && IsPoly(p, a)
    ensures Deriv(p, a) == [] <==> PowersOnly(p, a)
  {
    var d := Deriv(p, a);
    if d == [] {
      forall i | 0 <= i < |a| && a[i] != 0
        ensures i % p == 0
      {
        if i > 0 && i % p != 0 {
          DerivKeeps(p, a, i);
        }
      }
    }
    if PowersOnly(p, a) {
      forall k: nat
        ensures Coef(d, k) == Coef([], k)
      {
        DerivCoefZero(p, a, k);
      }
      CoefExt(p, d, []);
    }
  }

  // ---------------------------------------------------------------------
  // Musser's algorithm over Z_p (Musser0)

  /** The Frobenius identity of Z_p[x] for a prime p: r^p == r(x^p). */
  lemma {:induction false} FrobeniusIdentity(p: int, r: seq<int>)
    requires IsPrime(p) && IsPoly(p, r)
    ensures Pow(p, r, p) == Inflate(p, r)
    decreases |r|
  {
    if r == [] {
      assert Pow(p, r, p) == Mul(p, r, Pow(p, r, p - 1));
    } else {
      var c, t := Hd(r), Tl(r);
      HdTl(p, r);
      FrobeniusIdentity(p, t);
      FrobeniusStep(p, c, t);
    }
  }

  /** The induction step of the Frobenius identity: from t^p == t(x^p) to
      (c + x t)^p == c + x^p t(x^p), by the freshman's dream and Fermat's
      little theorem. */
  lemma FrobeniusStep(p: int, c: int, t: seq<int>)
    requires IsPrime(p) && InRange(c, p) && IsPoly(p, t) && Pow(p, t, p) == Inflate(p, t)
    ensures Pow(p, Cons(p, c, t), p) == Inflate(p, Cons(p, c, t))
  {
    var x := Shift(p, One(p));
    var xt := Mul(p, x, t);
    ConsByX(p, c, t);
    FreshmansDream(p, Const(p, c), xt);
    PowConst(p, c, p);
    Fermat(p, c);
    PowMulBase(p, x, t, p);
    assert x == Monomial(p, 1, 1);
    PowMonomial(p, 1, p, p);
    InflateCons(p, c, t);
  }

  /** r(x^p) for r == c + x t is c + x^p t(x^p). */
  lemma InflateCons(p: int, c: int, t: seq<int>)
    requires IsModulus(p) && InRange(c, p) && IsPoly(p, t)
    ensures Inflate(p, Cons(p, c, t)) == Add(p, Const(p, c), Mul(p, Monomial(p, 1, p), Inflate(p, t)))
  {
    var r := Cons(p, c, t);
    var it := Inflate(p, t);
    var rhs := Add(p, Const(p, c), Mul(p, Monomial(p, 1, p), it));
    MulMonomialShift(p, p, it);
    forall i: nat
      ensures Coef(Inflate(p, r), i) == Coef(rhs, i)
    {
      InflateConsAt(p, c, t, i);
    }
    CoefExt(p, Inflate(p, r), rhs);
  }

  /** Horner with the point x^p takes a polynomial to x^p: the coefficients
      of c from s on, composed with x^p, are that suffix taken to x^p. */
  lemma {:induction false} ComposeRangeInflate(p: int, c: seq<int>, s: nat)
    requires IsModulus(p) && IsPoly(p, c) && s <= |c|
    ensures IsPoly(p, c[s..])
    ensures ComposeRange(p, c, Monomial(p, 1, p), s, |c|) == Inflate(p, c[s..])
    decreases |c| - s
  {
    if s == |c| {
      assert c[s..] == [];
    } else {
      var s1 := s + 1;
      ComposeRangeInflate(p, c, s1);
      ComposeRangeUnfold(p, c, Monomial(p, 1, p), s, s1, |c|);
      SuffixSplit(c, s, s1);
      assert c[s..] == Cons(p, c[s], c[s1..]);
      InflateCons(p, c[s], c[s1..]);
    }
  }

  /** A nonempty suffix is its first entry followed by the next suffix. */
  lemma SuffixSplit(c: seq<int>, s: nat, s1: nat)
    requires s < |c| && s1 == s + 1
    ensures c[s..] == [c[s]] + c[s1..]
  {
  }

  /** Composing with x^p is raising to the p-th power, by the Frobenius
      identity. */
  lemma ComposeFrobenius(p: int, r: seq<int>)
    requires IsPrime(p) && IsPoly(p, r)
    ensures Compose(p, r, Monomial(p, 1, p)) == Pow(p, r, p)
  {
    ComposeRangeInflate(p, r, 0);
    assert r[0..] == r;
    FrobeniusIdentity(p, r);
  }

  /** powModulusMod (ModularComposition.java, lines 66-72) with the table of
      xPowers, whose point is x^p, computes poly^p mod m. */
  lemma PowModulusModIsPower(p: int, poly: seq<int>, m: seq<int>)
    requires IsPrime(p) && IsPoly(p, poly) && IsPoly(p, m) && m != []
    ensures Rem(p, Compose(p, Rem(p, poly, m), Monomial(p, 1, p)), m) == Rem(p, Pow(p, poly, p), m)
  {
    ComposeFrobenius(p, Rem(p, poly, m));
    RemPow(p, poly, p, m);
  }

  /** Coefficient i of InflateCons. */
  lemma InflateConsAt(p: int, c: int, t: seq<int>, i: nat)
    requires IsModulus(p) && InRange(c, p) && IsPoly(p, t)
    ensures Coef(Inflate(p, Cons(p, c, t)), i) == Coef(Add(p, Const(p, c), ShiftBy(p, Inflate(p, t), p)), i)
  {
    var r := Cons(p, c, t);
    var ir, it := Inflate(p, r), Inflate(p, t);
    CoefInflate(p, r, i);
    if i == 0 {
      ModUnique(0, p, 0, 0);
      CoefHdTl(r, 0);
    } else if i < p {
      ModOfRange(i, p);
    } else {
      CoefInflate(p, t, i - p);
      InflateCoefStep(p, c, t, i, Coef(ir, i), Coef(it, i - p));
    }
    InflateConsCoef(p, c, t, ir, it, i);
  }

  /** Coefficient i >= p of r(x^p) for r == c + x t is coefficient i - p
      of t(x^p), given those coefficients as x and y. */
  lemma InflateCoefStep(p: int, c: int, t: seq<int>, i: nat, x: int, y: int)
    requires IsModulus(p) && InRange(c, p) && IsPoly(p, t) && i >= p
    requires x == if i % p == 0 then Coef(Cons(p, c, t), i / p) else 0
    requires y == if (i - p) % p == 0 then Coef(t, (i - p) / p) else 0
    ensures x == y
  {
    DivSubModulus(i, p);
    var j: nat := i / p - 1;
    CoefHdTl(Cons(p, c, t), j);
  }

  /** Coefficient i of c + t' shifted up by p, where ir and it are the
      coefficient lists of r(x^p) and t(x^p) for r == c + x t. */
  lemma InflateConsCoef(p: int, c: int, t: seq<int>, ir: seq<int>, it: seq<int>, i: nat)
    requires IsModulus(p) && InRange(c, p) && IsPoly(p, t) && IsPoly(p, it)
    requires i == 0 ==> Coef(ir, i) == c
    requires 0 < i < p ==> Coef(ir, i) == 0
    requires i >= p ==> Coef(ir, i) == Coef(it, i - p)
    ensures Coef(ir, i) == Coef(Add(p, Const(p, c), ShiftBy(p, it, p)), i)
  {
    var k := Const(p, c);
    var sh := ShiftBy(p, it, p);
    CoefAdd(p, k, sh, i);
    CoefShiftBy(p, it, p, i);
    if i == 0 {
      CoefHdTl(k, 0);
    } else {
      CoefHdTl(k, i - 1);
      assert Coef(k, i) == 0;
    }
  }

  /** Stepping down by p keeps the residue and lowers the quotient by one. */
  lemma DivSubModulus(i: int, p: int)
    requires p > 0 && i >= p
    ensures (i - p) % p == i % p && (i - p) / p == i / p - 1 && i / p >= 1
  {
    ModUnique(i - p, p, i / p - 1, i % p);

  }

  /** d / p < d for d >= 1 and p >= 2. */
  lemma DivShrinks(d: int, p: int)
    requires d >= 1 && p >= 2
    ensures d / p < d
  {
    var q := d / p;
    if q > 0 {
      MulAtLeast(p - 1, q);
      assert q * p == (p - 1) * q + q;
    }
  }

  /** The p-th root of a nonconstant polynomial is shorter than it. */
  lemma RootShorter(p: int, a: seq<int>)
    requires IsModulus(p) && IsPoly(p, a) && |a| > 1
    ensures |PRootOf(p, a)| < |a|
  {
    DivShrinks(|a| - 1, p);
  }

  /** r(x^p) has degree p times the degree of r and the same leading
      coefficient. */
  lemma LcInflate(p: int, r: seq<int>)
    requires IsModulus(p) && IsPoly(p, r) && r != []
    ensures |Inflate(p, r)| == (|r| - 1) * p + 1 && Lc(Inflate(p, r)) == Lc(r)
  {
    MulDivCancel(|r| - 1, p);
  }

  /** The p-th root of a monic polynomial whose nonzero coefficients sit at
      multiples of p is monic, and taking it back to x^p gives the
      polynomial. */
  lemma RootMonic(p: int, a: seq<int>)
    requires IsModulus(p) && IsPoly(p, a) && IsMonic(a) && PowersOnly(p, a)
    ensures IsMonic(PRootOf(p, a)) && Inflate(p, PRootOf(p, a)) == a
  {
    var r := PRootOf(p, a);
    InflateRoot(p, a);
    assert r != [];
    LcInflate(p, r);
  }

  /** The single factor of oneFactor(c, f) is monic and not constant when
      f is. */
  lemma PositiveOneFactor(c: seq<int>, f: seq<int>)
    requires IsMonic(f) && |f| > 1
    ensures Positive(OneFactor(c, f))
  {
  }

  /** oneFactor(c, f) stands for c f, which is f when c is one. */
  lemma ExpandOneFactor(p: int, c: seq<int>, f: seq<int>)
    requires IsModulus(p) && IsPoly(p, c) && IsPoly(p, f)
    ensures WellFormed(p, OneFactor(c, f)) && Expand(p, OneFactor(c, f)) == Mul(p, c, f)
    ensures c == One(p) ==> Expand(p, OneFactor(c, f)) == f
  {
    var d := OneFactor(c, f);
    assert d.factors[..0] == [] && d.exponents[..0] == [];
    assert Pow(p, f, 1) == f by {
      MulOne(p, f);
    }
    assert Product(p, d.factors, d.exponents) == Mul(p, One(p), Pow(p, f, 1));
    MulOne(p, f);
  }

  /** A decomposition with unit one, its exponents raised to p, stands for
      the p-th power of what it stood for, which by the Frobenius
      identity is that polynomial taken to x^p. */
  lemma ExpandRaiseFrobenius(p: int, d: Decomposition, r: seq<int>)
    requires IsPrime(p) && WellFormed(p, d) && d.unit == One(p) && Expand(p, d) == r
    ensures WellFormed(p, RaiseExponents(d, p)) && Expand(p, RaiseExponents(d, p)) == Inflate(p, r)
  {
    FrobeniusIdentity(p, r);
    ExpandRaise(p, d, p);
    MulOne(p, Product(p, d.factors, d.exponents));
    MulOne(p, Pow(p, r, p));
  }

  /** Raising the exponents by p keeps the factors monic and nonconstant
      and the exponents positive. */
  lemma PositiveRaise(d: Decomposition, k: nat)
    requires Positive(d) && k >= 1
    ensures Positive(RaiseExponents(d, k))
  {
    var r := RaiseExponents(d, k);
    forall i | 0 <= i < |r.exponents|
      ensures 1 <= r.exponents[i]
    {
      MulAtLeast(d.exponents[i], k);
    }
  }

  /** addAll keeps the factors monic and nonconstant and the exponents
      positive. */
  lemma PositiveAddAll(p: int, d: Decomposition, o: Decomposition)
    requires IsModulus(p) && IsPoly(p, d.unit) && IsPoly(p, o.unit) && Positive(d) && Positive(o)
    requires |d.factors| == |d.exponents|
    ensures Positive(AddAll(p, d, o))
  {
    var r := AddAll(p, d, o);
    assert r.factors == d.factors + o.factors;
    assert r.exponents == d.exponents + o.exponents;
    PositiveAppend(d.factors, d.exponents, o.factors, o.exponents);
  }

  /** Positive, entry by entry: the property on two pairs of lists carries
      over to their concatenations. */
  lemma PositiveAppend(fs: seq<seq<int>>, es: seq<nat>, gs: seq<seq<int>>, hs: seq<nat>)
    requires Positive(Decomposition([], fs, es)) && Positive(Decomposition([], gs, hs))
    ensures Positive(Decomposition([], fs + gs, es + hs))
  {
    AppendIndex(fs, gs);
    AppendIndex(es, hs);
    var n, m := |fs|, |es|;
    forall k | 0 <= k < |fs + gs|
      ensures IsMonic((fs + gs)[k]) && |(fs + gs)[k]| > 1
    {
      if k >= n {
        var i := k - n;
        assert (fs + gs)[n + i] == gs[i];
      }
    }
    forall k | 0 <= k < |es + hs|
      ensures 1 <= (es + hs)[k]
    {
      if k >= m {
        var i := k - m;
        assert (es + hs)[m + i] == hs[i];
      }
    }
  }

  /** Slot d / p of rootData receives a nonzero coefficient when a[d] is
      nonzero and the loop has visited index d. */
  lemma {:induction false} WrittenNonzero(p: int, a: seq<int>, lo: nat, d: nat, j: nat)
    requires IsModulus(p) && IsPoly(p, a) && lo <= d < |a| && a[d] != 0 && j == d / p
    ensures Written(p, a, lo, j) != 0
    decreases d - lo
  {
    var lo1 := lo + 1;
    WrittenStep(p, a, lo, lo1, j);
    if !(a[lo] != 0 && lo / p == j) {
      WrittenNonzero(p, a, lo1, d, j);
    }
  }

  /** The p-th root of a nonzero polynomial is nonzero. */
  lemma RootNonzero(p: int, a: seq<int>)
    requires IsModulus(p) && IsPoly(p, a) && a != []
    ensures PRootOf(p, a) != []
  {
    var d := |a| - 1;
    var n := Degree(a) / p + 1;
    var data := seq(n, j requires 0 <= j < n => Written(p, a, 0, j));
    var j := d / p;
    WrittenNonzero(p, a, 0, d, j);
    assert data[j] != 0;
  }

  /** Musser0's branch for a nonconstant leftover gcd: the loop's
      decomposition followed by the decomposition of the leftover's p-th
      root with its exponents raised to p. It keeps unit one and positive
      exponents; when the leftover is r(x^p) for its root r, the root's
      decomposition stands for r, it stands for poly. */
  lemma GcdRootFacts(p: int, poly: seq<int>, result: Decomposition, rest: seq<int>, sub: Decomposition)
    requires IsPrime(p) && IsPoly(p, poly) && IsPoly(p, rest)
    requires WellFormed(p, result) && Positive(result) && result.unit == One(p)
    requires WellFormed(p, sub) && Positive(sub) && sub.unit == One(p)
    requires Mul(p, Expand(p, result), rest) == poly
    ensures WellFormed(p, AddAll(p, result, RaiseExponents(sub, p)))
    ensures Positive(AddAll(p, result, RaiseExponents(sub, p)))
    ensures AddAll(p, result, RaiseExponents(sub, p)).unit == One(p)
    ensures IsMonic(rest) && Deriv(p, rest) == [] && Expand(p, sub) == Monic(p, PRootOf(p, rest))
            ==> Expand(p, AddAll(p, result, RaiseExponents(sub, p))) == poly
  {
    var raised := RaiseExponents(sub, p);
    ExpandRaise(p, sub, p);
    PositiveRaise(sub, p);
    PositiveAddAll(p, result, raised);
    ExpandAddAll(p, result, raised);
    MulOne(p, One(p));
    if IsMonic(rest) && Deriv(p, rest) == [] && Expand(p, sub) == Monic(p, PRootOf(p, rest)) {
      var root := PRootOf(p, rest);
      DerivZeroIffPowers(p, rest);
      RootMonic(p, rest);
      MonicLc(p, root);
      ExpandRaiseFrobenius(p, sub, root);
    }
  }

  /** Musser0's branch for a vanishing derivative: the decomposition of
      the p-th root with its exponents raised to p and unit one. When the
      root's decomposition stands for the root, it stands for poly. */
  lemma PowerRootFacts(p: int, poly: seq<int>, sub: Decomposition)
    requires IsPrime(p) && IsPoly(p, poly) && IsMonic(poly) && Deriv(p, poly) == []
    requires WellFormed(p, sub) && Positive(sub) && sub.unit == One(p)
    ensures WellFormed(p, SetConstantFactor(RaiseExponents(sub, p), One(p)))
    ensures Positive(SetConstantFactor(RaiseExponents(sub, p), One(p)))
    ensures Expand(p, sub) == Monic(p, PRootOf(p, poly))
            ==> Expand(p, SetConstantFactor(RaiseExponents(sub, p), One(p))) == poly
  {
    var raised := RaiseExponents(sub, p);
    assert SetConstantFactor(raised, One(p)) == raised;
    ExpandRaise(p, sub, p);
    PositiveRaise(sub, p);
    if Expand(p, sub) == Monic(p, PRootOf(p, poly)) {
      var root := PRootOf(p, poly);
      DerivZeroIffPowers(p, poly);
      RootMonic(p, poly);
      MonicLc(p, root);
      ExpandRaiseFrobenius(p, sub, root);
    }
  }

  /** SquareFreeFactorizationMusser0 (lines 169-213): poly is made monic; a
      constant gives itself as constant factor and a linear poly the single
      factor poly; otherwise the work is done by Musser0Gcd when poly' is
      not zero and by Musser0Power when it is. The p-th root these take
      fails for a modulus above Integer.MAX_VALUE. The result has unit one
      (zero for the zero polynomial) and monic nonconstant factors with
      positive exponents; it stands for the monic poly whenever each leftover gcd whose p-th root was taken has a
      vanishing derivative, which the ghost flag exact records. */
  method Musser0(p: int, a: seq<int>) returns (r: Result<Decomposition>, ghost exact: bool)
    requires IsPrime(p) && IsPoly(p, a)
    ensures r.Failure? ==> p > MaxInt
    ensures p <= MaxInt ==> r.Success?
    ensures r.Success? ==> WellFormed(p, r.value) && Positive(r.value)
    ensures r.Success? ==> r.value.unit == if a == [] then [] else One(p)
    ensures r.Success? && exact ==> Expand(p, r.value) == Monic(p, a)
    decreases |a|, 2
  {
    var poly := Monic(p, a);
    MonicLc(p, a);
    if |poly| <= 1 {
      MulOne(p, poly);
      return Success(ConstantFactor(poly)), true;
    }
    if |poly| <= 2 {
      ExpandOneFactor(p, One(p), poly);
      PositiveOneFactor(One(p), poly);
      return Success(OneFactor(One(p), poly)), true;
    }
    var derivative := Deriv(p, poly);
    if derivative != [] {
      r, exact := Musser0Gcd(p, poly, derivative);
    } else {
      r, exact := Musser0Power(p, poly);
    }
  }

  /** Musser0 when poly' is not zero (lines 178-206): poly is recorded
      alone when gcd(poly, poly') is one; otherwise Musser's loop runs on
      poly and that gcd, making each factor monic, and what is left of the
      gcd goes to Musser0Leftover. */
  method Musser0Gcd(p: int, poly: seq<int>, derivative: seq<int>) returns (r: Result<Decomposition>, ghost exact: bool)
    requires IsPrime(p) && IsPoly(p, poly) && IsMonic(poly) && |poly| > 2
    requires derivative == Deriv(p, poly) && derivative != []
    ensures r.Failure? ==> p > MaxInt
    ensures p <= MaxInt ==> r.Success?
    ensures r.Success? ==> WellFormed(p, r.value) && Positive(r.value) && r.value.unit == One(p)
    ensures r.Success? && exact ==> Expand(p, r.value) == poly
    decreases |poly|, 1
  {
    var gcd := PolynomialGcd(p, poly, derivative);
    assert gcd == DerivGcd(p, poly);
    if |gcd| <= 1 {
      ExpandOneFactor(p, One(p), poly);
      PositiveOneFactor(One(p), poly);
      return Success(OneFactor(One(p), poly)), true;
    }
    var result, rest := MusserLoop(p, One(p), poly, gcd, true);
    MulOne(p, poly);
    DividesLen(p, rest, gcd);
    DividesLen(p, gcd, poly);
    r, exact := Musser0Leftover(p, poly, result, rest);
  }

  /** The end of Musser0's loop branch (lines 199-206): a constant leftover
      of the gcd adds nothing; a nonconstant one is factored through its
      p-th root, whose exponents are raised to p and appended. */
  method Musser0Leftover(p: int, poly: seq<int>, result: Decomposition, rest: seq<int>)
    returns (r: Result<Decomposition>, ghost exact: bool)
    requires IsPrime(p) && IsPoly(p, poly) && IsPoly(p, rest) && IsMonic(rest) && |rest| <= |poly|
    requires WellFormed(p, result) && Positive(result) && result.unit == One(p)
    requires Mul(p, Expand(p, result), rest) == poly
    ensures r.Failure? ==> p > MaxInt
    ensures p <= MaxInt ==> r.Success?
    ensures r.Success? ==> WellFormed(p, r.value) && Positive(r.value) && r.value.unit == One(p)
    ensures r.Success? && exact ==> Expand(p, r.value) == poly
    decreases |poly|, 0
  {
    if |rest| <= 1 {
      MonicConstant(rest);
      MulOne(p, Expand(p, result));
      return Success(result), true;
    }
    var root := PRoot(p, rest);
    if root.Failure? {
      return Failure(root.error), false;
    }
    RootShorter(p, rest);
    RootNonzero(p, rest);
    var sub, subExact := Musser0(p, root.value);
    if sub.Failure? {
      return sub, false;
    }
    GcdRootFacts(p, poly, result, rest, sub.value);
    r := Success(AddAll(p, result, RaiseExponents(sub.value, p)));
    exact := subExact && Deriv(p, rest) == [];
  }

  /** Musser0 when poly' is zero (lines 207-212): poly is factored through
      its p-th root, whose exponents are raised to p, with unit one. */
  method Musser0Power(p: int, poly: seq<int>) returns (r: Result<Decomposition>, ghost exact: bool)
    requires IsPrime(p) && IsPoly(p, poly) && IsMonic(poly) && |poly| > 2 && Deriv(p, poly) == []
    ensures r.Failure? ==> p > MaxInt
    ensures p <= MaxInt ==> r.Success?
    ensures r.Success? ==> WellFormed(p, r.value) && Positive(r.value) && r.value.unit == One(p)
    ensures r.Success? && exact ==> Expand(p, r.value) == poly
    decreases |poly|, 0
  {
    var root := PRoot(p, poly);
    if root.Failure? {
      return Failure(root.error), false;
    }
    RootShorter(p, poly);
    RootNonzero(p, poly);
    var sub, subExact := Musser0(p, root.value);
    if sub.Failure? {
      return sub, false;
    }
    PowerRootFacts(p, poly, sub.value);
    r := Success(SetConstantFactor(RaiseExponents(sub.value, p), One(p)));
    exact := subExact;
  }

  // ---------------------------------------------------------------------
  // The power of x

  /** The exponent of the lowest power of x in a: the number of leading
      zero coefficients, |a| for the zero polynomial. */
  function LowestPower(a: seq<int>): (e: nat)
    ensures e <= |a| && (e < |a| ==> a[e] != 0)
    ensures forall i :: 0 <= i < e ==> a[i] == 0
    decreases |a|
  {
    if a == [] || a[0] != 0 then 0 else 1 + LowestPower(a[1..])
  }

  /** An index whose coefficient is the first nonzero one is the lowest
      power. */
  lemma {:induction false} LowestPowerUnique(a: seq<int>, e: nat)
    requires e < |a| && a[e] != 0 && forall i :: 0 <= i < e ==> a[i] == 0
    ensures LowestPower(a) == e
    decreases e
  {
    if e > 0 {
      var t := a[1..];
      forall i | 0 <= i < e - 1
        ensures t[i] == 0
      {
        assert t[i] == a[i + 1];
      }
      LowestPowerUnique(t, e - 1);
    }
  }

  /** The exponent scan of lines 32 and 155: the index of the first
      nonzero coefficient of a nonzero polynomial, found by stepping up
      from zero. */
  method ExponentOfX(a: seq<int>) returns (e: nat)
    requires a != [] && a[|a| - 1] != 0
    ensures e == LowestPower(a) && e < |a|
  {
    e := 0;
    while e < |a| && a[e] == 0
      invariant e < |a|
      invariant forall i :: 0 <= i < e ==> a[i] == 0
    {
      e := e + 1;
    }
    LowestPowerUnique(a, e);
  }

  /** x^e r is x^(e - 1) r shifted up by one. */
  lemma MulMonomialStep(p: int, e: nat, e1: nat, r: seq<int>)
    requires IsModulus(p) && IsPoly(p, r) && e1 + 1 == e
    ensures Mul(p, Monomial(p, 1, e), r) == Shift(p, Mul(p, Monomial(p, 1, e1), r))
  {
    MonomialStep(p, e, e1);
    MulShiftLeft(p, Monomial(p, 1, e1), r);
  }

  /** x^0 r is r. */
  lemma MulMonomialZero(p: int, r: seq<int>)
    requires IsModulus(p) && IsPoly(p, r)
    ensures Mul(p, Monomial(p, 1, 0), r) == r
  {
    assert Monomial(p, 1, 0) == One(p);
    MulOne(p, r);
  }

  /** r shifted up by e places. */
  function ShiftBy(p: int, r: seq<int>, e: nat): (t: seq<int>)
    requires IsModulus(p) && IsPoly(p, r)
    ensures IsPoly(p, t)
    decreases e
  {
    if e == 0 then r else Shift(p, ShiftBy(p, r, e - 1))
  }

  /** Multiplying by x^e is shifting by e. */
  lemma {:induction false} MulMonomialShift(p: int, e: nat, r: seq<int>)
    requires IsModulus(p) && IsPoly(p, r)
    ensures Mul(p, Monomial(p, 1, e), r) == ShiftBy(p, r, e)
    decreases e
  {
    if e == 0 {
      MulMonomialZero(p, r);
    } else {
      var e1 := e - 1;
      MulMonomialStep(p, e, e1, r);
      MulMonomialShift(p, e1, r);
    }
  }

  /** Coefficient i of r shifted by e. */
  lemma {:induction false} CoefShiftBy(p: int, r: seq<int>, e: nat, i: nat)
    requires IsModulus(p) && IsPoly(p, r)
    ensures Coef(ShiftBy(p, r, e), i) == if i >= e then Coef(r, i - e) else 0
    decreases e
  {
    if e > 0 {
      var e1 := e - 1;
      CoefShift(p, ShiftBy(p, r, e1), i);
      if i > 0 {
        var i1 := i - 1;
        CoefShiftBy(p, r, e1, i1);
      }
    }
  }

  /** getRange(exponent, degree + 1): a with its lowest power of x divided
      out. */
  function XFree(p: int, a: seq<int>): (r: seq<int>)
    requires IsPoly(p, a)
    ensures IsPoly(p, r)
  {
    Range(p, a, LowestPower(a), |a|)
  }

  /** For a nonzero a, XFree(a) keeps the leading coefficient, has a
      nonzero constant term and is shorter by the lowest power; it is a
      itself when that power is zero. */
  lemma XFreeShape(p: int, a: seq<int>)
    requires IsPoly(p, a) && a != []
    ensures LowestPower(a) < |a|
    ensures |XFree(p, a)| == |a| - LowestPower(a) && Lc(XFree(p, a)) == Lc(a)
    ensures Hd(XFree(p, a)) != 0
    ensures LowestPower(a) == 0 ==> XFree(p, a) == a
  {
    var e := LowestPower(a);
    var r := XFree(p, a);
    assert e < |a|;
    var k := |a| - e - 1;
    assert Coef(r, k) == a[e + k];
    assert Coef(r, 0) == a[e + 0];
    if e == 0 {
      assert a[0..|a|] == a;
      TrimPolyId(p, a);
    }
  }

  /** Coefficient j of the range from `from` to the top is coefficient k
      == from + j of c. */
  lemma CoefRangeTop(p: int, c: seq<int>, from: nat, j: nat, k: nat)
    requires IsPoly(p, c) && from <= |c| && k == from + j
    ensures Coef(Range(p, c, from, |c|), j) == Coef(c, k)
  {
    var r := Range(p, c, from, |c|);
    if j < |c| - from {
      assert Coef(r, j) == c[from + j];
    } else {
      assert |r| <= |c| - from;
    }
  }

  /** x^2 + x^3 -> x^2 (1 + x): a is x^e times XFree(a), e its lowest
      power. */
  lemma StripX(p: int, a: seq<int>)
    requires IsModulus(p) && IsPoly(p, a)
    ensures a == Mul(p, Monomial(p, 1, LowestPower(a)), XFree(p, a))
  {
    var e := LowestPower(a);
    StripZeros(p, a, e);
    MulMonomialShift(p, e, XFree(p, a));
  }

  /** The coefficients of a below e are zero: a is the range from e to the
      top, shifted up by e. */
  lemma StripZeros(p: int, a: seq<int>, e: nat)
    requires IsModulus(p) && IsPoly(p, a) && e <= |a|
    requires forall i :: 0 <= i < e ==> a[i] == 0
    ensures a == ShiftBy(p, Range(p, a, e, |a|), e)
  {
    var r := Range(p, a, e, |a|);
    var m := ShiftBy(p, r, e);
    forall i: nat
      ensures Coef(m, i) == Coef(a, i)
    {
      CoefShiftBy(p, r, e, i);
      if i >= e {
        var j: nat := i - e;
        CoefRangeTop(p, a, e, j, i);
      }
    }
    CoefExt(p, m, a);
  }

  /** x^e is monic of length e + 1. */
  lemma MonomialMonic(p: int, e: nat)
    requires IsModulus(p)
    ensures IsMonic(Monomial(p, 1, e)) && |Monomial(p, 1, e)| == e + 1
  {
    MonomialLen(p, 1, e);
  }

  /** One divides every polynomial. */
  lemma DividesOne(p: int, g: seq<int>)
    requires IsModulus(p) && IsPoly(p, g)
    ensures Divides(p, One(p), g)
  {
    MulOne(p, g);
  }

  // ---------------------------------------------------------------------
  // Yun's and Musser's algorithms

  /** lcAsPoly: the leading coefficient as a constant polynomial (zero for
      the zero polynomial). A polynomial of length at most one is its own
      leading coefficient. */
  function LcAsPoly(p: int, a: seq<int>): (c: seq<int>)
    requires IsModulus(p) && IsPoly(p, a)
    ensures IsPoly(p, c) && |c| <= 1
    ensures |a| <= 1 ==> c == a
  {
    assert a != [] ==> InRange(Lc(a), p);
    Const(p, Lc(a))
  }

  /** A nonconstant polynomial is its leading coefficient times its monic
      associate, which is monic of the same length. */
  lemma ContentSplit(p: int, a: seq<int>)
    requires IsPrime(p) && IsPoly(p, a) && a != []
    ensures IsMonic(Monic(p, a)) && |Monic(p, a)| == |a|
    ensures a == Mul(p, LcAsPoly(p, a), Monic(p, a))
  {
    MonicLc(p, a);
    LcMonic(p, a);
  }

  /** The derivative of a monic linear polynomial is one, so its GCD with
      the polynomial is one. */
  lemma SmallDerivGcd(p: int, m: seq<int>)
    requires IsPrime(p) && IsPoly(p, m) && IsMonic(m) && |m| == 2
    ensures DerivGcd(p, m) == One(p)
  {
    var d := Deriv(p, m);
    CoefDeriv(p, m, 0);
    ModOfRange(1, p);
    MulModOne(1, p);
    assert Coef(d, 0) == 1;
    var g := DerivGcd(p, m);
    DividesLen(p, g, d);
    MonicConstant(g);
  }

  /** What Yun's algorithm multiplies out to: the monic associate of a
      divided by its GCD with its derivative. */
  function YunPart(p: int, a: seq<int>): (r: seq<int>)
    requires IsPrime(p) && IsPoly(p, a) && a != []
    ensures IsPoly(p, r)
  {
    ContentSplit(p, a);
    Quot(p, Monic(p, a), DerivGcd(p, Monic(p, a)))
  }

  /** The part is one for a constant and the monic associate for a linear
      polynomial. */
  lemma SmallYunPart(p: int, a: seq<int>)
    requires IsPrime(p) && IsPoly(p, a) && a != [] && |a| <= 2
    ensures |a| == 1 ==> YunPart(p, a) == One(p)
    ensures |a| == 2 ==> YunPart(p, a) == Monic(p, a)
  {
    var m := Monic(p, a);
    ContentSplit(p, a);
    if |a| == 1 {
      MonicConstant(m);
      assert Deriv(p, m) == [] by {
        CoefDeriv(p, m, 0);
      }
      var g := DerivGcd(p, m);
      DividesLen(p, g, m);
      MonicConstant(g);
      QuotOne(p, m);
    } else {
      SmallDerivGcd(p, m);
      QuotOne(p, m);
    }
  }

  /** The first steps of SquareFreeFactorizationYun and
      SquareFreeFactorizationMusser (lines 48-62 and 94-108) on a
      polynomial of length at least two: the content is the leading
      coefficient, the polynomial is made monic, and a linear one is
      recorded alone with that content. */
  lemma LinearCase(p: int, a: seq<int>)
    requires IsPrime(p) && IsPoly(p, a) && |a| == 2
    ensures WellFormed(p, OneFactor(LcAsPoly(p, a), Monic(p, a)))
    ensures Shape(OneFactor(LcAsPoly(p, a), Monic(p, a)))
    ensures Expand(p, OneFactor(LcAsPoly(p, a), Monic(p, a))) == a
  {
    ContentSplit(p, a);
    ExpandOneFactor(p, LcAsPoly(p, a), Monic(p, a));
    PositiveOneFactor(LcAsPoly(p, a), Monic(p, a));
  }

  /** SquareFreeFactorizationYun (lines 47-62): a constant gives itself as
      constant factor; otherwise the content (the leading coefficient) is
      the constant factor, a linear polynomial is recorded alone and longer
      ones go through Yun's loop on the monic associate, run for at most
      fuel rounds. The recorded factors are monic and not constant, with
      strictly increasing exponents, and multiply out to the monic
      associate divided by its GCD with its derivative. */
  method Yun(p: int, a: seq<int>, fuel: nat) returns (r: Option<Decomposition>)
    requires IsPrime(p) && IsPoly(p, a)
    ensures |a| <= 1 ==> r == Some(ConstantFactor(a))
    ensures |a| == 2 ==> r.Some?
    ensures r.Some? ==> WellFormed(p, r.value) && Shape(r.value) && r.value.unit == LcAsPoly(p, a)
    ensures r.Some? && a != [] ==> FactorProduct(p, r.value.factors) == YunPart(p, a)
  {
    if |a| <= 1 {
      if a != [] {
        SmallYunPart(p, a);
      }
      return Some(ConstantFactor(a));
    }
    var content := LcAsPoly(p, a);
    var poly := Monic(p, a);
    ContentSplit(p, a);
    if |poly| <= 2 {
      YunLinear(p, a);
      return Some(OneFactor(content, poly));
    }
    r := YunLoop(p, content, poly, fuel);
  }

  /** The linear case of SquareFreeFactorizationYun: the single factor is
      Yun's part. */
  lemma YunLinear(p: int, a: seq<int>)
    requires IsPrime(p) && IsPoly(p, a) && |a| == 2
    ensures WellFormed(p, OneFactor(LcAsPoly(p, a), Monic(p, a)))
    ensures Shape(OneFactor(LcAsPoly(p, a), Monic(p, a)))
    ensures FactorProduct(p, OneFactor(LcAsPoly(p, a), Monic(p, a)).factors) == YunPart(p, a)
  {
    var poly := Monic(p, a);
    LinearCase(p, a);
    SmallYunPart(p, a);
    FactorProductSnoc(p, [], poly);
    MulOne(p, poly);
  }

  /** The step after Musser's loop in SquareFreeFactorizationMusser: the
      content times the product of what was recorded, times the leftover,
      is a. */
  lemma MusserContent(p: int, a: seq<int>, r: Decomposition, rest: seq<int>)
    requires IsPrime(p) && IsPoly(p, a) && a != [] && WellFormed(p, r) && IsPoly(p, rest)
    requires Mul(p, Expand(p, r), rest) == Mul(p, LcAsPoly(p, a), Monic(p, a))
    ensures Mul(p, Expand(p, r), rest) == a
  {
    ContentSplit(p, a);
  }

  /** SquareFreeFactorizationMusser (lines 93-132): like Yun, but the work
      is done by Musser's loop, which records the factors as they come
      (they are monic all the same) and leaves the part of gcd(poly,
      poly') it cannot split, returned as the ghost rest: one over a field
      of characteristic zero, a p-th power over Z_p. The factors, raised
      to their exponents, times the content and rest, give a back. */
  method Musser(p: int, a: seq<int>) returns (r: Decomposition, ghost rest: seq<int>)
    requires IsPrime(p) && IsPoly(p, a)
    ensures |a| <= 1 ==> r == ConstantFactor(a)
    ensures WellFormed(p, r) && Shape(r) && r.unit == LcAsPoly(p, a)
    ensures IsPoly(p, rest) && IsMonic(rest) && Mul(p, Expand(p, r), rest) == a
    ensures a != [] ==> Divides(p, rest, DerivGcd(p, Monic(p, a)))
  {
    rest := One(p);
    if |a| <= 1 {
      r := ConstantFactor(a);
      MulOne(p, a);
      MulOne(p, Mul(p, a, One(p)));
      if a != [] {
        DividesOne(p, DerivGcd(p, Monic(p, a)));
      }
      return;
    }
    var content := LcAsPoly(p, a);
    var poly := Monic(p, a);
    ContentSplit(p, a);
    DividesOne(p, DerivGcd(p, poly));
    if |poly| <= 2 {
      LinearCase(p, a);
      r := OneFactor(content, poly);
      MulOne(p, Expand(p, r));
      return;
    }
    var derivative := Deriv(p, poly);
    var gcd := PolynomialGcd(p, poly, derivative);
    assert gcd == DerivGcd(p, poly);
    if |gcd| <= 1 {
      SingleFactor(p, content, poly);
      r := AddFactor(ConstantFactor(content), poly, 1);
      ExpandAddFactor(p, ConstantFactor(content), poly, 1);
      PowOne(p, poly);
      MulOne(p, content);
      MulOne(p, Expand(p, r));
      return;
    }
    r, rest := MusserLoop(p, content, poly, gcd, false);
    MusserContent(p, a, r, rest);
  }

  // ---------------------------------------------------------------------
  // Square-free factorization with the power of x stripped

  /** Appending a monic nonconstant factor with a positive exponent keeps
      a decomposition positive. */
  lemma PositiveAddFactor(d: Decomposition, f: seq<int>, e: nat)
    requires Positive(d) && |d.factors| == |d.exponents|
    requires IsMonic(f) && |f| > 1 && e >= 1
    ensures Positive(AddFactor(d, f, e))
  {
  }

  /** The constant case of SquareFreeFactorizationZ: nothing to multiply
      out, and x^0 times the part of a constant is one. */
  lemma ZConstant(p: int, a: seq<int>)
    requires IsPrime(p) && IsPoly(p, a) && |a| == 1
    ensures LowestPower(a) == 0 && XFree(p, a) == a
    ensures FactorProduct(p, []) == Mul(p, YunPart(p, XFree(p, a)), Monomial(p, 1, LowestPower(a)))
  {
    XFreeShape(p, a);
    SmallYunPart(p, a);
    MulOne(p, One(p));
  }

  /** The case of SquareFreeFactorizationZ without a power of x. */
  lemma ZNoPower(p: int, a: seq<int>, d: Decomposition)
    requires IsPrime(p) && IsPoly(p, a) && a != [] && LowestPower(a) == 0
    requires WellFormed(p, d) && Shape(d) && d.unit == LcAsPoly(p, a)
    requires FactorProduct(p, d.factors) == YunPart(p, a)
    ensures Positive(d) && XFree(p, a) == a
    ensures FactorProduct(p, d.factors) == Mul(p, YunPart(p, XFree(p, a)), Monomial(p, 1, LowestPower(a)))
  {
    XFreeShape(p, a);
    MulOne(p, YunPart(p, a));
  }

  /** The case of SquareFreeFactorizationZ with a power x^e, e > 0: the
      decomposition of the x-free part gains x^e with exponent one. */
  lemma ZPower(p: int, a: seq<int>, e: nat, d: Decomposition)
    requires IsPrime(p) && IsPoly(p, a) && a != [] && e == LowestPower(a) && e > 0
    requires WellFormed(p, d) && Shape(d) && d.unit == LcAsPoly(p, XFree(p, a))
    requires FactorProduct(p, d.factors) == YunPart(p, XFree(p, a))
    ensures WellFormed(p, AddFactor(d, Monomial(p, 1, e), 1))
    ensures Positive(AddFactor(d, Monomial(p, 1, e), 1))
    ensures d.unit == LcAsPoly(p, a)
    ensures FactorProduct(p, AddFactor(d, Monomial(p, 1, e), 1).factors)
      == Mul(p, YunPart(p, XFree(p, a)), Monomial(p, 1, e))
  {
    var x := Monomial(p, 1, e);
    XFreeShape(p, a);
    MonomialMonic(p, e);
    PositiveAddFactor(d, x, 1);
    ExpandAddFactor(p, d, x, 1);
    FactorProductSnoc(p, d.factors, x);
  }

  /** SquareFreeFactorizationZ (lines 26-40): a constant gives itself as
      constant factor; otherwise the lowest power x^e is found by the
      exponent scan, Yun's algorithm runs on the x-free part and x^e is
      appended with exponent one. The content (the leading coefficient) is
      the constant factor, the factors are monic and not constant with
      positive exponents, and their product is Yun's part of the x-free
      part times x^e; x^e alone, times a constant, gives the single factor
      x^e. */
  method SquareFreeFactorizationZ(p: int, a: seq<int>, fuel: nat) returns (r: Option<Decomposition>)
    requires IsPrime(p) && IsPoly(p, a)
    ensures |a| <= 1 ==> r == Some(ConstantFactor(a))
    ensures r.Some? ==> WellFormed(p, r.value) && Positive(r.value) && r.value.unit == LcAsPoly(p, a)
    ensures r.Some? && a != [] ==>
      FactorProduct(p, r.value.factors) == Mul(p, YunPart(p, XFree(p, a)), Monomial(p, 1, LowestPower(a)))
    ensures r.Some? && LowestPower(a) > 0 && |XFree(p, a)| == 1 ==>
      r.value.factors == [Monomial(p, 1, LowestPower(a))] && r.value.exponents == [1]
  {
    if |a| <= 1 {
      if a != [] {
        ZConstant(p, a);
      }
      return Some(ConstantFactor(a));
    }
    var e := ExponentOfX(a);
    if e == 0 {
      r := Yun(p, a, fuel);
      if r.Some? {
        ZNoPower(p, a, r.value);
      }
      return;
    }
    var expFree := Range(p, a, e, |a|);
    assert expFree == XFree(p, a);
    XFreeShape(p, a);
    var sub := Yun(p, expFree, fuel);
    if sub.None? {
      return None;
    }
    ZPower(p, a, e, sub.value);
    r := Some(AddFactor(sub.value, Monomial(p, 1, e), 1));
  }

  /** The constant factor of a decomposition with unit one is replaced by
      c: the expansion is multiplied by c. */
  lemma SetUnitExpand(p: int, d: Decomposition, c: seq<int>)
    requires IsModulus(p) && WellFormed(p, d) && d.unit == One(p) && IsPoly(p, c)
    ensures WellFormed(p, SetConstantFactor(d, c))
    ensures Expand(p, SetConstantFactor(d, c)) == Mul(p, c, Expand(p, d))
  {
    MulOne(p, Product(p, d.factors, d.exponents));
  }

  /** The case of SquareFreeFactorizationZp with a power x^e, e > 0, of a
      monic poly: Musser0's decomposition of the x-free part, which is
      monic, gains x^e with exponent one and then stands for poly. */
  lemma ZpPower(p: int, poly: seq<int>, e: nat, d: Decomposition)
    requires IsPrime(p) && IsPoly(p, poly) && IsMonic(poly) && e == LowestPower(poly) && e > 0
    requires WellFormed(p, d) && Positive(d) && d.unit == One(p)
    ensures XFree(p, poly) != [] && Monic(p, XFree(p, poly)) == XFree(p, poly)
    ensures WellFormed(p, AddFactor(d, Monomial(p, 1, e), 1))
    ensures Positive(AddFactor(d, Monomial(p, 1, e), 1))
    ensures Expand(p, d) == XFree(p, poly) ==> Expand(p, AddFactor(d, Monomial(p, 1, e), 1)) == poly
  {
    var x := Monomial(p, 1, e);
    var r := XFree(p, poly);
    XFreeShape(p, poly);
    MonicLc(p, r);
    MonomialMonic(p, e);
    PositiveAddFactor(d, x, 1);
    ExpandAddFactor(p, d, x, 1);
    PowOne(p, x);
    if Expand(p, d) == r {
      StripX(p, poly);
      MulComm(p, r, x);
    }
  }

  /** The end of SquareFreeFactorizationZp: setting the constant factor
      to the leading coefficient turns a decomposition of the monic
      associate into one of a. */
  lemma ZpContent(p: int, a: seq<int>, d: Decomposition)
    requires IsPrime(p) && IsPoly(p, a) && a != [] && WellFormed(p, d) && d.unit == One(p)
    ensures WellFormed(p, SetConstantFactor(d, LcAsPoly(p, a)))
    ensures Expand(p, d) == Monic(p, a) ==> Expand(p, SetConstantFactor(d, LcAsPoly(p, a))) == a
  {
    SetUnitExpand(p, d, LcAsPoly(p, a));
    ContentSplit(p, a);
  }

  /** The factorization of the monic poly, x-free part first, as lines
      148-162 compute it. */
  method ZpMonic(p: int, poly: seq<int>) returns (r: Result<Decomposition>, ghost exact: bool)
    requires IsPrime(p) && IsPoly(p, poly) && IsMonic(poly) && |poly| > 2
    ensures r.Failure? ==> p > MaxInt
    ensures p <= MaxInt ==> r.Success?
    ensures r.Success? ==> WellFormed(p, r.value) && Positive(r.value) && r.value.unit == One(p)
    ensures r.Success? && exact ==> Expand(p, r.value) == poly
  {
    var e := ExponentOfX(poly);
    MonicLc(p, poly);
    if e == 0 {
      r, exact := Musser0(p, poly);
      return;
    }
    var expFree := Range(p, poly, e, |poly|);
    assert expFree == XFree(p, poly);
    XFreeShape(p, poly);
    var sub;
    sub, exact := Musser0(p, expFree);
    if sub.Failure? {
      return sub, exact;
    }
    ZpPower(p, poly, e, sub.value);
    r := Success(AddFactor(sub.value, Monomial(p, 1, e), 1));
  }

  /** SquareFreeFactorizationZp (lines 140-165): the leading coefficient is
      set aside and poly made monic; a constant gives the leading
      coefficient as constant factor and a linear poly the single factor
      poly; otherwise the lowest power x^e is stripped, Musser0 factors the
      x-free part and x^e is appended with exponent one, and the constant
      factor is set to the leading coefficient. The p-th root Musser0 takes
      fails for a modulus above Integer.MAX_VALUE. The factors are monic
      and not constant, with positive exponents, and, whenever the roots taken were exact, the leading
      coefficient times the factors raised to their exponents is a. */
  method SquareFreeFactorizationZp(p: int, a: seq<int>) returns (r: Result<Decomposition>, ghost exact: bool)
    requires IsPrime(p) && IsPoly(p, a)
    ensures |a| <= 1 ==> r == Success(ConstantFactor(a))
    ensures r.Failure? ==> p > MaxInt
    ensures p <= MaxInt ==> r.Success?
    ensures r.Success? ==> WellFormed(p, r.value) && Positive(r.value) && r.value.unit == LcAsPoly(p, a)
    ensures r.Success? && exact ==> Expand(p, r.value) == a
  {
    var lc := LcAsPoly(p, a);
    var poly := Monic(p, a);
    MonicLc(p, a);
    if |poly| <= 1 {
      MulOne(p, a);
      return Success(ConstantFactor(lc)), true;
    }
    if |poly| <= 2 {
      LinearCase(p, a);
      PositiveOneFactor(lc, poly);
      return Success(OneFactor(lc, poly)), true;
    }
    ContentSplit(p, a);
    var f;
    f, exact := ZpMonic(p, poly);
    if f.Failure? {
      return f, exact;
    }
    ZpContent(p, a, f.value);
    r := Success(SetConstantFactor(f.value, lc));
  }

  /** SquareFreeFactorization (lines 276-281): a polynomial over Z_p is
      over a field (lUnivariatePolynomialZp.java:224), so the dispatch
      always takes the Z_p algorithm; its results are those of
      SquareFreeFactorizationZp. */
  method SquareFreeFactorization(p: int, a: seq<int>) returns (r: Result<Decomposition>, ghost exact: bool)
    requires IsPrime(p) && IsPoly(p, a)
    ensures |a| <= 1 ==> r == Success(ConstantFactor(a))
    ensures r.Failure? ==> p > MaxInt
    ensures p <= MaxInt ==> r.Success?
    ensures r.Success? ==> WellFormed(p, r.value) && Positive(r.value) && r.value.unit == LcAsPoly(p, a)
    ensures r.Success? && exact ==> Expand(p, r.value) == a
  {
    r, exact := SquareFreeFactorizationZp(p, a);
  }

  // ---------------------------------------------------------------------
  // Square-freeness and the square-free part

  /** isSquareFree (lines 265-267): the GCD of a and its derivative is
      constant. */
  predicate IsSquareFree(p: int, a: seq<int>)
    requires IsPrime(p) && IsPoly(p, a)
  {
    |DerivGcd(p, a)| <= 1
  }

  /** A nonzero a is square-free exactly when every common divisor of a
      and its derivative is constant. */
  lemma SquareFreeIff(p: int, a: seq<int>)
    requires IsPrime(p) && IsPoly(p, a) && a != []
    ensures IsSquareFree(p, a) <==>
      forall d {:trigger Divides(p, d, a)} :: IsPoly(p, d) && Divides(p, d, a) && Divides(p, d, Deriv(p, a)) ==> |d| <= 1
  {
    var g := DerivGcd(p, a);
    if IsSquareFree(p, a) {
      forall d | IsPoly(p, d) && Divides(p, d, a) && Divides(p, d, Deriv(p, a))
        ensures |d| <= 1
      {
        MonicGcdIsGcd(p, a, Deriv(p, a), d);
        DividesLen(p, d, g);
      }
    }
  }

  /** isMonomial: a single nonzero coefficient, the leading one. */
  predicate IsMonomialPoly(a: seq<int>) {
    a != [] && forall i :: 0 <= i < |a| - 1 ==> a[i] == 0
  }

  /** The stream reduce of SquareFreePart: the product, from one and left
      to right, of the factors that are not monomials. */
  function NonMonomialProduct(p: int, fs: seq<seq<int>>): (r: seq<int>)
    requires IsModulus(p) && AllPoly(p, fs)
    ensures IsPoly(p, r)
    decreases |fs|
  {
    if fs == [] then One(p)
    else
      assert AllPoly(p, fs[..|fs| - 1]);
      var rest := NonMonomialProduct(p, fs[..|fs| - 1]);
      if IsMonomialPoly(fs[|fs| - 1]) then rest else Mul(p, rest, fs[|fs| - 1])
  }

  /** One step of the reduce: the last factor is multiplied in unless it
      is a monomial. */
  lemma NonMonomialSnoc(p: int, fs: seq<seq<int>>)
    requires IsModulus(p) && AllPoly(p, fs) && fs != []
    ensures AllPoly(p, fs[..|fs| - 1])
    ensures NonMonomialProduct(p, fs) == if IsMonomialPoly(fs[|fs| - 1]) then NonMonomialProduct(p, fs[..|fs| - 1])
      else Mul(p, NonMonomialProduct(p, fs[..|fs| - 1]), fs[|fs| - 1])
  {
    assert AllPoly(p, fs[..|fs| - 1]);
  }

  /** The product of two monic polynomials is monic. */
  lemma MulMonic(p: int, a: seq<int>, b: seq<int>)
    requires IsPrime(p) && IsPoly(p, a) && IsPoly(p, b) && IsMonic(a) && IsMonic(b)
    ensures IsMonic(Mul(p, a, b))
  {
    MulLen(p, a, b);
    ModOfRange(1, p);
    MulModOne(1, p);
  }

  /** The product of monic factors is monic. */
  lemma {:induction false} NonMonomialMonic(p: int, fs: seq<seq<int>>)
    requires IsPrime(p) && AllPoly(p, fs)
    requires forall k :: 0 <= k < |fs| ==> IsMonic(fs[k])
    ensures IsMonic(NonMonomialProduct(p, fs))
    decreases |fs|
  {
    if fs != [] {
      var init, f := fs[..|fs| - 1], fs[|fs| - 1];
      NonMonomialSnoc(p, fs);
      NonMonomialMonic(p, init);
      if !IsMonomialPoly(f) {
        MulMonic(p, NonMonomialProduct(p, init), f);
      }
    }
  }

  /** Every factor that is not a monomial divides the product. */
  lemma {:induction false} NonMonomialFactorDivides(p: int, fs: seq<seq<int>>, k: nat)
    requires IsModulus(p) && AllPoly(p, fs) && k < |fs| && !IsMonomialPoly(fs[k])
    ensures Divides(p, fs[k], NonMonomialProduct(p, fs))
    decreases |fs|
  {
    var init, f := fs[..|fs| - 1], fs[|fs| - 1];
    NonMonomialSnoc(p, fs);
    var r := NonMonomialProduct(p, init);
    if k == |fs| - 1 {
      assert Mul(p, r, f) == NonMonomialProduct(p, fs);
    } else {
      assert init[k] == fs[k];
      NonMonomialFactorDivides(p, init, k);
      if !IsMonomialPoly(f) {
        DividesMul(p, fs[k], r, f);
      }
    }
  }

  /** d1 d2 divides a1 a2 when d1 divides a1 and d2 divides a2. */
  lemma DividesBoth(p: int, d1: seq<int>, a1: seq<int>, d2: seq<int>, a2: seq<int>)
    requires IsModulus(p) && IsPoly(p, d1) && IsPoly(p, a1) && IsPoly(p, d2) && IsPoly(p, a2)
    requires Divides(p, d1, a1) && Divides(p, d2, a2)
    ensures Divides(p, Mul(p, d1, d2), Mul(p, a1, a2))
  {
    var u :| IsPoly(p, u) && a1 == Mul(p, u, d1);
    var v :| IsPoly(p, v) && a2 == Mul(p, v, d2);
    var uv := Mul(p, u, v);
    MulSwapMiddle(p, u, d1, v, d2);
    assert Mul(p, a1, a2) == Mul(p, uv, Mul(p, d1, d2));
  }

  /** f divides f^e for e >= 1. */
  lemma DividesPow(p: int, f: seq<int>, e: nat)
    requires IsModulus(p) && IsPoly(p, f) && e >= 1
    ensures Divides(p, f, Pow(p, f, e))
  {
    MulComm(p, f, Pow(p, f, e - 1));
  }

  /** With every exponent positive, the product of the factors that are
      not monomials divides the product of all the factors raised to their
      exponents. */
  lemma {:induction false} NonMonomialDividesProduct(p: int, fs: seq<seq<int>>, es: seq<nat>)
    requires IsModulus(p) && AllPoly(p, fs) && |fs| == |es|
    requires forall k :: 0 <= k < |es| ==> 1 <= es[k]
    ensures Divides(p, NonMonomialProduct(p, fs), Product(p, fs, es))
    decreases |fs|
  {
    if fs == [] {
      DividesRefl(p, One(p));
    } else {
      var init, f := fs[..|fs| - 1], fs[|fs| - 1];
      var einit, e := es[..|es| - 1], es[|es| - 1];
      NonMonomialSnoc(p, fs);
      var r, q := NonMonomialProduct(p, init), Product(p, init, einit);
      NonMonomialDividesProduct(p, init, einit);
      assert Product(p, fs, es) == Mul(p, q, Pow(p, f, e));
      if IsMonomialPoly(f) {
        DividesMul(p, r, q, Pow(p, f, e));
      } else {
        DividesPow(p, f, e);
        DividesBoth(p, r, q, f, Pow(p, f, e));
      }
    }
  }

  /** Under a positive decomposition of a, the product of its
      non-monomial factors divides a. */
  lemma NonMonomialDivides(p: int, a: seq<int>, d: Decomposition)
    requires IsModulus(p) && IsPoly(p, a) && WellFormed(p, d) && Positive(d) && Expand(p, d) == a
    ensures Divides(p, NonMonomialProduct(p, d.factors), a)
  {
    NonMonomialDividesProduct(p, d.factors, d.exponents);
    DividesMul(p, NonMonomialProduct(p, d.factors), Product(p, d.factors, d.exponents), d.unit);
  }

  /** SquareFreePart (lines 289-291): the product of the factors of the
      square-free factorization that are not monomials. It is monic, every
      such factor of the decomposition fd divides it, and, whenever fd
      stands for a, it divides a. A constant has part one. */
  method SquareFreePart(p: int, a: seq<int>) returns (r: Result<seq<int>>, ghost fd: Decomposition, ghost exact: bool)
    requires IsPrime(p) && IsPoly(p, a)
    ensures r.Failure? ==> p > MaxInt
    ensures p <= MaxInt ==> r.Success?
    ensures |a| <= 1 ==> r == Success(One(p))
    ensures r.Success? ==> WellFormed(p, fd) && Positive(fd) && IsPoly(p, r.value) && IsMonic(r.value)
    ensures r.Success? ==> forall k :: 0 <= k < |fd.factors| && !IsMonomialPoly(fd.factors[k]) ==> Divides(p, fd.factors[k], r.value)
    ensures r.Success? && exact ==> Expand(p, fd) == a && Divides(p, r.value, a)
  {
    var d;
    d, exact := SquareFreeFactorization(p, a);
    if d.Failure? {
      return Failure(d.error), ConstantFactor(a), exact;
    }
    var value := d.value;
    fd := value;
    var part := NonMonomialProduct(p, value.factors);
    NonMonomialMonic(p, fd.factors);
    forall k | 0 <= k < |fd.factors| && !IsMonomialPoly(fd.factors[k])
      ensures Divides(p, fd.factors[k], part)
    {
      NonMonomialFactorDivides(p, fd.factors, k);
    }
    if exact {
      NonMonomialDivides(p, a, fd);
    }
    r := Success(part);
  }
}
