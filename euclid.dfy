/** Univariate GCD over Z_p: the Euclidean remainder sequence, the extended
    Euclidean algorithm with its Bezout identity, the monic GCD and its
    fold over several polynomials. */
module UnivariateGcd {
  import opened Wrappers
  import opened ModArith
  import opened UPoly
  import opened PolyRing
  import opened PolyDiv
  import opened PolyCoef

  // ---------------------------------------------------------------------
  // Remainder sequences

  /** The polynomial remainder sequence produced by Euclid's algorithm. */
  datatype PolynomialRemainders = PolynomialRemainders(remainders: seq<seq<int>>)
  {
    /** gcd(): the first element of [a, 0], the last element otherwise. */
    function Gcd(): (g: seq<int>)
      requires |remainders| >= 1
      ensures g == remainders[0] || g == remainders[|remainders| - 1]
    {
      if |remainders| == 2 && remainders[1] == [] then remainders[0]
      else remainders[|remainders| - 1]
    }
  }

  /** The nonzero remainders that follow x, y in Euclid's algorithm. */
  function Remainders(p: int, x: seq<int>, y: seq<int>): (rs: seq<seq<int>>)
    requires IsPrime(p) && IsPoly(p, x) && IsPoly(p, y) && y != []
    ensures |rs| < |y|
    decreases |y|
  {
    var r := Rem(p, x, y);
    if r == [] then [] else [r] + Remainders(p, y, r)
  }

  /** The whole sequence: the argument of higher degree first, then the
      other, then the nonzero remainders, stopping at once when an
      argument is zero. */
  function EuclidSequence(p: int, a: seq<int>, b: seq<int>): (rs: seq<seq<int>>)
    requires IsPrime(p) && IsPoly(p, a) && IsPoly(p, b)
    ensures |rs| >= 2
    decreases if Degree(a) < Degree(b) then 1 else 0
  {
    if Degree(a) < Degree(b) then EuclidSequence(p, b, a)
    else [a, b] + (if a == [] || b == [] then [] else Remainders(p, a, b))
  }

  /** The last nonzero remainder after x, y (y itself when y divides x). */
  function LastRemainder(p: int, x: seq<int>, y: seq<int>): (g: seq<int>)
    requires IsPrime(p) && IsPoly(p, x) && IsPoly(p, y) && y != []
    ensures IsPoly(p, g) && g != []
    decreases |y|
  {
    var r := Rem(p, x, y);
    if r == [] then y else LastRemainder(p, y, r)
  }

  /** The GCD the remainder sequence yields, without building it. */
  function GcdOf(p: int, a: seq<int>, b: seq<int>): (g: seq<int>)
    requires IsPrime(p) && IsPoly(p, a) && IsPoly(p, b)
    ensures IsPoly(p, g)
    decreases if Degree(a) < Degree(b) then 1 else 0
  {
    if Degree(a) < Degree(b) then GcdOf(p, b, a)
    else if b == [] then a
    else if a == [] then b
    else LastRemainder(p, a, b)
  }

  lemma {:induction false} RemaindersLast(p: int, x: seq<int>, y: seq<int>)
    requires IsPrime(p) && IsPoly(p, x) && IsPoly(p, y) && y != []
    ensures var rs := [y] + Remainders(p, x, y); rs[|rs| - 1] == LastRemainder(p, x, y)
    decreases |y|
  {
    var r := Rem(p, x, y);
    if r != [] {
      RemaindersLast(p, y, r);
      var rs := [y] + Remainders(p, x, y);
      var tail := [r] + Remainders(p, y, r);
      assert rs == [y] + tail;
    }
  }

  lemma SequenceGcdOrdered(p: int, a: seq<int>, b: seq<int>)
    requires IsPrime(p) && IsPoly(p, a) && IsPoly(p, b) && a != [] && b != []
    ensures PolynomialRemainders([a, b] + Remainders(p, a, b)).Gcd() == LastRemainder(p, a, b)
  {
    RemaindersLast(p, a, b);
  }

  /** gcd() of the remainder sequence is GcdOf. */
  lemma SequenceGcd(p: int, a: seq<int>, b: seq<int>)
    requires IsPrime(p) && IsPoly(p, a) && IsPoly(p, b)
    ensures PolynomialRemainders(EuclidSequence(p, a, b)).Gcd() == GcdOf(p, a, b)
    decreases if Degree(a) < Degree(b) then 1 else 0
  {
    if Degree(a) < Degree(b) {
      SequenceGcd(p, b, a);
    } else if a != [] && b != [] {
      SequenceGcdOrdered(p, a, b);
    }
  }

  /** One step of the sequence: z is the nonzero remainder of x by y. */
  predicate RemainderStep(p: int, x: seq<int>, y: seq<int>, z: seq<int>)
    requires IsPrime(p) && IsPoly(p, x) && IsPoly(p, y)
  {
    y != [] && z != [] && z == Rem(p, x, y)
  }

  /** Every element after the first two is the nonzero remainder of the
      two before it, and the sequence stops at the first zero remainder. */
  predicate IsRemainderSequence(p: int, rs: seq<seq<int>>)
    requires IsPrime(p)
  {
    |rs| >= 2 && AllPoly(p, rs)
    && (forall i :: 0 <= i < |rs| - 2 ==> RemainderStep(p, rs[i], rs[i + 1], rs[i + 2]))
    && (rs[|rs| - 1] != [] ==> Rem(p, rs[|rs| - 2], rs[|rs| - 1]) == [])
  }

  /** A remainder sequence extended at the front by x, whose remainder by
      the first element is the second, is a remainder sequence. */
  lemma RemainderSequenceCons(p: int, x: seq<int>, tail: seq<seq<int>>)
    requires IsPrime(p) && IsPoly(p, x) && IsRemainderSequence(p, tail)
    requires RemainderStep(p, x, tail[0], tail[1])
    ensures IsRemainderSequence(p, [x] + tail)
  {
    var rs := [x] + tail;
    assert forall i :: 1 <= i < |rs| ==> rs[i] == tail[i - 1];
    assert AllPoly(p, rs);
    forall i | 1 <= i < |rs| - 2
      ensures RemainderStep(p, rs[i], rs[i + 1], rs[i + 2])
    {
      assert RemainderStep(p, tail[i - 1], tail[i], tail[i + 1]);
    }
  }

  lemma {:induction false} RemaindersChain(p: int, x: seq<int>, y: seq<int>)
    requires IsPrime(p) && IsPoly(p, x) && IsPoly(p, y) && y != []
    ensures IsRemainderSequence(p, [x, y] + Remainders(p, x, y))
    decreases |y|
  {
    var r := Rem(p, x, y);
    if r != [] {
      RemaindersChain(p, y, r);
      var tail := [y, r] + Remainders(p, y, r);
      assert [x, y] + Remainders(p, x, y) == [x] + tail;
      RemainderSequenceCons(p, x, tail);
    }
  }

  /** The shape of the sequence: the higher-degree argument comes first,
      a zero argument stops it after two elements, and it is a remainder
      sequence. */
  lemma EuclidSequenceShape(p: int, a: seq<int>, b: seq<int>)
    requires IsPrime(p) && IsPoly(p, a) && IsPoly(p, b)
    ensures var rs := EuclidSequence(p, a, b);
      (rs[0], rs[1]) == (if Degree(a) < Degree(b) then (b, a) else (a, b))
      && (a == [] || b == [] ==> |rs| == 2)
      && IsRemainderSequence(p, rs)
  {
    var x, y := if Degree(a) < Degree(b) then b else a, if Degree(a) < Degree(b) then a else b;
    if y != [] {
      RemaindersChain(p, x, y);
      if x == [] {
        assert Degree(y) == 0;
      }
    }
  }

  /** The divisors of the last remainder are the common divisors of x and y. */
  lemma {:induction false} LastRemainderDivisors(p: int, x: seq<int>, y: seq<int>, d: seq<int>)
    requires IsPrime(p) && IsPoly(p, x) && IsPoly(p, y) && y != [] && IsPoly(p, d)
    ensures Divides(p, d, LastRemainder(p, x, y)) <==> Divides(p, d, x) && Divides(p, d, y)
    decreases |y|
  {
    var r := Rem(p, x, y);
    CommonDivisorsRem(p, d, x, y);
    if r == [] {
      DividesZero(p, d);
    } else {
      LastRemainderDivisors(p, y, r, d);
    }
  }

  /** The polynomials dividing the GCD of the sequence are exactly the
      common divisors of the two inputs, and it is zero only when both
      are. */
  lemma {:induction false} GcdDivisors(p: int, a: seq<int>, b: seq<int>, d: seq<int>)
    requires IsPrime(p) && IsPoly(p, a) && IsPoly(p, b) && IsPoly(p, d)
    ensures Divides(p, d, GcdOf(p, a, b)) <==> Divides(p, d, a) && Divides(p, d, b)
    ensures GcdOf(p, a, b) == [] <==> a == [] && b == []
    decreases if Degree(a) < Degree(b) then 1 else 0
  {
    if Degree(a) < Degree(b) {
      GcdDivisors(p, b, a, d);
    } else if b == [] || a == [] {
      DividesZero(p, d);
    } else {
      LastRemainderDivisors(p, a, b, d);
    }
  }

  /** The GCD divides both inputs. */
  lemma GcdDividesBoth(p: int, a: seq<int>, b: seq<int>)
    requires IsPrime(p) && IsPoly(p, a) && IsPoly(p, b)
    ensures Divides(p, GcdOf(p, a, b), a) && Divides(p, GcdOf(p, a, b), b)
  {
    var g := GcdOf(p, a, b);
    DividesRefl(p, g);
    GcdDivisors(p, a, b, g);
  }

  /** Appending the next nonzero remainder to the sequence built so far. */
  lemma AppendRemainder(p: int, rs: seq<seq<int>>, x: seq<int>, y: seq<int>)
    requires IsPrime(p) && IsPoly(p, x) && IsPoly(p, y) && y != [] && Rem(p, x, y) != []
    ensures rs + Remainders(p, x, y) == (rs + [Rem(p, x, y)]) + Remainders(p, y, Rem(p, x, y))
  {
    var r := Rem(p, x, y);
    assert Remainders(p, x, y) == [r] + Remainders(p, y, r);
  }

  /** Euclid: the remainder sequence of a and b, computed by a loop that
      appends the remainder of the last two elements until it is zero.
      Over a prime field the division by a nonzero polynomial always
      succeeds, so the source's "Not divisible" failure does not arise. */
  method Euclid(p: int, a: seq<int>, b: seq<int>) returns (prs: PolynomialRemainders)
    requires IsPrime(p) && IsPoly(p, a) && IsPoly(p, b)
    ensures prs.remainders == EuclidSequence(p, a, b)
    decreases if Degree(a) < Degree(b) then 1 else 0
  {
    if Degree(a) < Degree(b) {
      prs := Euclid(p, b, a);
      return;
    }
    var rs := [a, b];
    if a == [] || b == [] {
      return PolynomialRemainders(rs);
    }
    var x, y := a, b;
    ghost var target := EuclidSequence(p, a, b);
    while true
      invariant IsPoly(p, x) && IsPoly(p, y) && y != []
      invariant rs + Remainders(p, x, y) == target
      decreases |y|
    {
      var r := Rem(p, x, y);
      if r == [] {
        break;
      }
      AppendRemainder(p, rs, x, y);
      rs := rs + [r];
      x, y := y, r;
    }
    prs := PolynomialRemainders(rs);
  }

  // ---------------------------------------------------------------------
  // Extended Euclid

  /** x - (x quo y) * y is the remainder. */
  lemma RemAsSub(p: int, x: seq<int>, y: seq<int>)
    requires IsPrime(p) && IsPoly(p, x) && IsPoly(p, y) && y != []
    ensures Sub(p, x, Mul(p, Quot(p, x, y), y)) == Rem(p, x, y)
  {
    var qy, r := Mul(p, Quot(p, x, y), y), Rem(p, x, y);
    DivRemIdentity(p, x, y);
    AddComm(p, qy, r);
    SubAddCancel(p, r, qy);
  }

  lemma MulSubLeft(p: int, a: seq<int>, x: seq<int>, y: seq<int>)
    requires IsModulus(p) && IsPoly(p, a) && IsPoly(p, x) && IsPoly(p, y)
    ensures Mul(p, a, Sub(p, x, y)) == Sub(p, Mul(p, a, x), Mul(p, a, y))
  {
    MulSubRight(p, x, y, a);
    MulComm(p, a, Sub(p, x, y));
    MulComm(p, a, x);
    MulComm(p, a, y);
  }

  lemma AddSubSub(p: int, w: seq<int>, x: seq<int>, y: seq<int>, z: seq<int>)
    requires IsModulus(p) && IsPoly(p, w) && IsPoly(p, x) && IsPoly(p, y) && IsPoly(p, z)
    ensures Add(p, Sub(p, w, x), Sub(p, y, z)) == Sub(p, Add(p, w, y), Add(p, x, z))
  {
    AddSwapMiddle(p, w, Scale(p, p - 1, x), y, Scale(p, p - 1, z));
    NegAdd(p, x, z);
  }

  /** a * (s0 - q s1) + b * (t0 - q t1) == (a s0 + b t0) - q (a s1 + b t1):
      one step of the cofactor updates keeps the Bezout identity. */
  lemma BezoutStep(p: int, a: seq<int>, b: seq<int>, s0: seq<int>, t0: seq<int>,
                   s1: seq<int>, t1: seq<int>, q: seq<int>)
    requires IsModulus(p) && IsPoly(p, a) && IsPoly(p, b) && IsPoly(p, q)
    requires IsPoly(p, s0) && IsPoly(p, t0) && IsPoly(p, s1) && IsPoly(p, t1)
    ensures Add(p, Mul(p, a, Sub(p, s0, Mul(p, q, s1))), Mul(p, b, Sub(p, t0, Mul(p, q, t1))))
         == Sub(p, Add(p, Mul(p, a, s0), Mul(p, b, t0)),
                   Mul(p, q, Add(p, Mul(p, a, s1), Mul(p, b, t1))))
  {
    MulSubLeft(p, a, s0, Mul(p, q, s1));
    MulSubLeft(p, b, t0, Mul(p, q, t1));
    MulSwap(p, a, q, s1);
    MulSwap(p, b, q, t1);
    AddSubSub(p, Mul(p, a, s0), Mul(p, q, Mul(p, a, s1)), Mul(p, b, t0), Mul(p, q, Mul(p, b, t1)));
    MulDistribLeft(p, q, Mul(p, a, s1), Mul(p, b, t1));
  }

  lemma MulSwap(p: int, a: seq<int>, q: seq<int>, s: seq<int>)
    requires IsModulus(p) && IsPoly(p, a) && IsPoly(p, q) && IsPoly(p, s)
    ensures Mul(p, a, Mul(p, q, s)) == Mul(p, q, Mul(p, a, s))
  {
    MulAssoc(p, a, q, s);
    MulComm(p, a, q);
    MulAssoc(p, q, a, s);
  }

  /** The last nonzero remainder when Euclid's loop starts from x, y
      without ordering them first. */
  function EuclidFrom(p: int, x: seq<int>, y: seq<int>): (g: seq<int>)
    requires IsPrime(p) && IsPoly(p, x) && IsPoly(p, y)
  {
    if y == [] then x else LastRemainder(p, x, y)
  }

  /** One step of the loop does not change where it ends. */
  lemma EuclidFromStep(p: int, x: seq<int>, y: seq<int>)
    requires IsPrime(p) && IsPoly(p, x) && IsPoly(p, y) && y != []
    ensures EuclidFrom(p, x, y) == EuclidFrom(p, y, Rem(p, x, y))
  {
  }

  /** Starting unordered ends at the same GCD: when a is shorter than b the
      first remainder is a itself, which swaps the two. */
  lemma EuclidFromGcd(p: int, a: seq<int>, b: seq<int>)
    requires IsPrime(p) && IsPoly(p, a) && IsPoly(p, b)
    ensures EuclidFrom(p, a, b) == GcdOf(p, a, b)
  {
    if a != [] && b != [] && Degree(a) < Degree(b) {
      AddZero(p, a);
      MulZeroRight(p, b);
      MulComm(p, [], b);
      DivRemUnique(p, a, b, [], a);
    } else if a == [] && b != [] {
      AddZero(p, []);
      MulZeroRight(p, b);
      MulComm(p, [], b);
      DivRemUnique(p, [], b, [], []);
    }
  }

  /** ExtendedEuclid: [g, s, t] with g == a s + b t, where g is the GCD the
      remainder sequence yields (not normalised). */
  method ExtendedEuclid(p: int, a: seq<int>, b: seq<int>) returns (g: seq<int>, s: seq<int>, t: seq<int>)
    requires IsPrime(p) && IsPoly(p, a) && IsPoly(p, b)
    ensures IsPoly(p, s) && IsPoly(p, t)
    ensures g == GcdOf(p, a, b)
    ensures g == Add(p, Mul(p, a, s), Mul(p, b, t))
  {
    var s1, s0 := [], One(p);
    var t1, t0 := One(p), [];
    var r1, r0 := b, a;
    MulZeroRight(p, a);
    MulZeroRight(p, b);
    MulOne(p, a);
    MulOne(p, b);
    AddZero(p, a);
    AddZero(p, b);
    EuclidFromGcd(p, a, b);
    while r1 != []
      invariant IsPoly(p, r0) && IsPoly(p, r1) && IsPoly(p, s0) && IsPoly(p, s1) && IsPoly(p, t0) && IsPoly(p, t1)
      invariant r0 == Add(p, Mul(p, a, s0), Mul(p, b, t0))
      invariant r1 == Add(p, Mul(p, a, s1), Mul(p, b, t1))
      invariant EuclidFrom(p, r0, r1) == GcdOf(p, a, b)
      decreases |r1|
    {
      var q := Quot(p, r0, r1);
      RemAsSub(p, r0, r1);
      BezoutStep(p, a, b, s0, t0, s1, t1, q);
      EuclidFromStep(p, r0, r1);
      r0, r1 := r1, Sub(p, r0, Mul(p, q, r1));
      s0, s1 := s1, Sub(p, s0, Mul(p, q, s1));
      t0, t1 := t1, Sub(p, t0, Mul(p, q, t1));
    }
    g, s, t := r0, s0, t0;
  }

  // ---------------------------------------------------------------------
  // The monic GCD

  /** PolynomialGCD over Z_p: the Euclid GCD made monic. */
  function MonicGcd(p: int, a: seq<int>, b: seq<int>): (g: seq<int>)
    requires IsPrime(p) && IsPoly(p, a) && IsPoly(p, b)
    ensures IsPoly(p, g)
  {
    Monic(p, GcdOf(p, a, b))
  }

  /** A nonzero multiple is at least as long as its divisor. */
  lemma DividesLen(p: int, d: seq<int>, a: seq<int>)
    requires IsPrime(p) && IsPoly(p, d) && IsPoly(p, a) && a != []
    requires Divides(p, d, a)
    ensures d != [] && |d| <= |a|
  {
    var u :| IsPoly(p, u) && a == Mul(p, u, d);
    MulNonzero(p, u, d);
    MulLen(p, u, d);
  }

  /** A multiple of a monic g with the length of g and leading
      coefficient one is g itself. */
  lemma MonicMultipleEqual(p: int, u: seq<int>, g: seq<int>)
    requires IsPrime(p) && IsPoly(p, u) && IsPoly(p, g) && g != [] && Lc(g) == 1
    requires |Mul(p, u, g)| == |g| && Lc(Mul(p, u, g)) == 1
    ensures Mul(p, u, g) == g
  {
    MulNonzero(p, u, g);
    MulLen(p, u, g);
    assert |u| == 1;
    MulModOne(Lc(u), p);
    assert u == One(p);
    MulOne(p, g);
  }

  /** Two monic polynomials that divide each other are equal. */
  lemma MonicAssociatesEqual(p: int, g: seq<int>, h: seq<int>)
    requires IsPrime(p) && IsPoly(p, g) && IsPoly(p, h)
    requires g == [] || Lc(g) == 1
    requires h == [] || Lc(h) == 1
    requires Divides(p, g, h) && Divides(p, h, g)
    ensures g == h
  {
    if g == [] {
      ZeroDivides(p, h);
    } else if h == [] {
      ZeroDivides(p, g);
    } else {
      DividesLen(p, g, h);
      DividesLen(p, h, g);
      var u :| IsPoly(p, u) && h == Mul(p, u, g);
      MonicMultipleEqual(p, u, g);
    }
  }

  lemma MulConstantLeft(p: int, c: int, b: seq<int>)
    requires IsModulus(p) && 0 < c < p && IsPoly(p, b)
    ensures Mul(p, [c], b) == Scale(p, c, b)
  {
    MulModOne(c, p);
    assert Scale(p, c, One(p)) == [c];
    MulScaleLeft(p, c, One(p), b);
    MulOne(p, b);
  }

  /** The monic GCD: its divisors are the common divisors of a and b, it is
      zero only for two zero inputs and monic otherwise, and it is the only
      monic polynomial with that divisor property. */
  lemma MonicGcdIsGcd(p: int, a: seq<int>, b: seq<int>, d: seq<int>)
    requires IsPrime(p) && IsPoly(p, a) && IsPoly(p, b) && IsPoly(p, d)
    ensures Divides(p, d, MonicGcd(p, a, b)) <==> Divides(p, d, a) && Divides(p, d, b)
    ensures MonicGcd(p, a, b) == [] <==> a == [] && b == []
    ensures MonicGcd(p, a, b) != [] ==> Lc(MonicGcd(p, a, b)) == 1
  {
    var g := GcdOf(p, a, b);
    var m := MonicGcd(p, a, b);
    MonicLc(p, g);
    MonicAssociate(p, g);
    GcdDivisors(p, a, b, d);
    if Divides(p, d, m) {
      DividesTrans(p, d, m, g);
    }
    if Divides(p, d, g) {
      DividesTrans(p, d, g, m);
    }
  }

  /** Any monic (or zero) polynomial whose divisors are the common divisors
      of a and b is the monic GCD. */
  lemma MonicGcdUnique(p: int, a: seq<int>, b: seq<int>, h: seq<int>)
    requires IsPrime(p) && IsPoly(p, a) && IsPoly(p, b) && IsPoly(p, h)
    requires h == [] || Lc(h) == 1
    requires Divides(p, h, a) && Divides(p, h, b)
    requires forall d :: IsPoly(p, d) && Divides(p, d, a) && Divides(p, d, b) ==> Divides(p, d, h)
    ensures h == MonicGcd(p, a, b)
  {
    var m := MonicGcd(p, a, b);
    MonicGcdIsGcd(p, a, b, h);
    assert Divides(p, h, m);
    DividesRefl(p, m);
    MonicGcdIsGcd(p, a, b, m);
    assert Divides(p, m, a) && Divides(p, m, b);
    assert Divides(p, m, h);
    MonicGcdIsGcd(p, a, b, []);
    MonicAssociatesEqual(p, h, m);
  }

  /** The monic GCD does not depend on the order of the arguments. */
  lemma MonicGcdComm(p: int, a: seq<int>, b: seq<int>)
    requires IsPrime(p) && IsPoly(p, a) && IsPoly(p, b)
    ensures MonicGcd(p, a, b) == MonicGcd(p, b, a)
  {
    var m, n := MonicGcd(p, a, b), MonicGcd(p, b, a);
    MonicGcdIsGcd(p, a, b, m);
    MonicGcdIsGcd(p, b, a, m);
    MonicGcdIsGcd(p, a, b, n);
    MonicGcdIsGcd(p, b, a, n);
    DividesRefl(p, m);
    DividesRefl(p, n);
    MonicAssociatesEqual(p, m, n);
  }

  /** PolynomialGCD(a, b) over Z_p. */
  method PolynomialGcd(p: int, a: seq<int>, b: seq<int>) returns (g: seq<int>)
    requires IsPrime(p) && IsPoly(p, a) && IsPoly(p, b)
    ensures g == MonicGcd(p, a, b)
  {
    var prs := Euclid(p, a, b);
    SequenceGcd(p, a, b);
    g := Monic(p, prs.Gcd());
  }

  // ---------------------------------------------------------------------
  // Several polynomials

  /** The left fold of the binary GCD, starting from g. */
  function FoldGcd(p: int, g: seq<int>, rest: seq<seq<int>>): (r: seq<int>)
    requires IsPrime(p) && IsPoly(p, g) && AllPoly(p, rest)
    ensures IsPoly(p, r)
    decreases |rest|
  {
    if rest == [] then g else FoldGcd(p, MonicGcd(p, g, rest[0]), rest[1..])
  }

  /** d divides every polynomial of the list. */
  ghost predicate DividesAll(p: int, d: seq<int>, rs: seq<seq<int>>)
    requires IsPrime(p) && IsPoly(p, d) && AllPoly(p, rs)
  {
    forall i :: 0 <= i < |rs| ==> Divides(p, d, rs[i])
  }

  lemma DividesAllCons(p: int, d: seq<int>, rs: seq<seq<int>>)
    requires IsPrime(p) && IsPoly(p, d) && AllPoly(p, rs) && rs != []
    ensures AllPoly(p, rs[1..])
    ensures DividesAll(p, d, rs) <==> Divides(p, d, rs[0]) && DividesAll(p, d, rs[1..])
  {
    assert forall i :: 1 <= i < |rs| ==> rs[i] == rs[1..][i - 1];
  }

  /** The divisors of the folded GCD are the common divisors of all the
      polynomials. */
  lemma {:induction false} FoldGcdDivisors(p: int, g: seq<int>, rest: seq<seq<int>>, d: seq<int>)
    requires IsPrime(p) && IsPoly(p, g) && AllPoly(p, rest) && IsPoly(p, d)
    ensures Divides(p, d, FoldGcd(p, g, rest)) <==> Divides(p, d, g) && DividesAll(p, d, rest)
    decreases |rest|
  {
    if rest != [] {
      DividesAllCons(p, d, rest);
      MonicGcdIsGcd(p, g, rest[0], d);
      FoldGcdDivisors(p, MonicGcd(p, g, rest[0]), rest[1..], d);
    }
  }

  /** After at least one step the folded GCD is monic or zero. */
  lemma {:induction false} FoldGcdMonic(p: int, g: seq<int>, rest: seq<seq<int>>)
    requires IsPrime(p) && IsPoly(p, g) && AllPoly(p, rest) && rest != []
    ensures FoldGcd(p, g, rest) == [] || Lc(FoldGcd(p, g, rest)) == 1
    decreases |rest|
  {
    AllPolyTail(p, rest);
    var h := MonicGcd(p, g, rest[0]);
    assert FoldGcd(p, g, rest) == FoldGcd(p, h, rest[1..]);
    if |rest| > 1 {
      FoldGcdMonic(p, h, rest[1..]);
    } else {
      MonicGcdIsGcd(p, g, rest[0], []);
      assert rest[1..] == [];
    }
  }

  /** PolynomialGCD(T...): the fold from the first element; an empty
      argument list fails where Java reads past the array. */
  method PolynomialGcdOfArray(p: int, polys: seq<seq<int>>) returns (g: Result<seq<int>>)
    requires IsPrime(p) && AllPoly(p, polys)
    ensures g.Failure? <==> polys == []
    ensures g.Failure? ==> g.error.IndexOutOfBounds?
    ensures g.Success? ==> g.value == FoldGcd(p, polys[0], polys[1..])
  {
    if |polys| == 0 {
      return Failure(IndexOutOfBounds("index 0 out of bounds for length 0"));
    }
    var gcd := polys[0];
    var i := 1;
    while i < |polys|
      invariant 1 <= i <= |polys| && IsPoly(p, gcd)
      invariant FoldGcd(p, gcd, polys[i..]) == FoldGcd(p, polys[0], polys[1..])
    {
      assert polys[i..] == [polys[i]] + polys[i + 1..];
      gcd := PolynomialGcd(p, gcd, polys[i]);
      i := i + 1;
    }
    g := Success(gcd);
  }

  /** PolynomialGCD(Iterable): nothing for no polynomials, the single
      polynomial itself for one, the fold otherwise. */
  method PolynomialGcdOfIterable(p: int, polys: seq<seq<int>>) returns (g: Option<seq<int>>)
    requires IsPrime(p) && AllPoly(p, polys)
    ensures g.None? <==> polys == []
    ensures g.Some? ==> g.value == FoldGcd(p, polys[0], polys[1..])
  {
    g := None;
    var i := 0;
    while i < |polys|
      invariant 0 <= i <= |polys|
      invariant g.None? <==> i == 0
      invariant g.Some? ==> IsPoly(p, g.value) && FoldGcd(p, g.value, polys[i..]) == FoldGcd(p, polys[0], polys[1..])
    {
      assert polys[i..] == [polys[i]] + polys[i + 1..];
      if g.None? {
        g := Some(polys[i]);
      } else {
        var h := PolynomialGcd(p, g.value, polys[i]);
        g := Some(h);
      }
      i := i + 1;
    }
  }
}
