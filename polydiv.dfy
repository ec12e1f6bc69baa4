/** Degrees of sums and products over a prime field, division with
    remainder and divisibility of polynomials over Z_p. */
module PolyDiv {
  import opened ModArith
  import opened UPoly
  import opened PolyRing

  // ---------------------------------------------------------------------
  // Lengths and leading coefficients

  lemma {:induction false} AddLenLe(p: int, a: seq<int>, b: seq<int>)
    requires IsModulus(p) && IsPoly(p, a) && IsPoly(p, b)
    ensures |Add(p, a, b)| <= if |a| < |b| then |b| else |a|
    decreases |a| + |b|
  {
    if a != [] || b != [] {
      AddHdTl(p, a, b);
      AddLenLe(p, Tl(a), Tl(b));
    }
  }

  /** Adding a polynomial of smaller length keeps length and leading
      coefficient. */
  lemma {:induction false} AddLenGt(p: int, a: seq<int>, b: seq<int>)
    requires IsModulus(p) && IsPoly(p, a) && IsPoly(p, b) && |a| > |b|
    ensures |Add(p, a, b)| == |a| && Lc(Add(p, a, b)) == Lc(a)
    ensures |Add(p, b, a)| == |a| && Lc(Add(p, b, a)) == Lc(a)
    decreases |b|
  {
    AddComm(p, a, b);
    if b == [] {
      AddZero(p, a);
    } else {
      var s := Add(p, a, b);
      AddHdTl(p, a, b);
      AddLenGt(p, Tl(a), Tl(b));
      HdTl(p, s);
      assert s == [Hd(s)] + Tl(s);
    }
  }

  lemma SubLenLe(p: int, a: seq<int>, b: seq<int>)
    requires IsModulus(p) && IsPoly(p, a) && IsPoly(p, b)
    ensures |Sub(p, a, b)| <= if |a| < |b| then |b| else |a|
  {
    AddLenLe(p, a, Scale(p, p - 1, b));
  }

  /** Scaling by a nonzero residue modulo a prime keeps the length. */
  lemma {:induction false} ScaleLen(p: int, k: int, a: seq<int>)
    requires IsPrime(p) && InRange(k, p) && k != 0 && IsPoly(p, a)
    ensures |Scale(p, k, a)| == |a|
    ensures a != [] ==> Lc(Scale(p, k, a)) == MulMod(k, Lc(a), p)
    decreases |a|
  {
    if a != [] {
      var s := Scale(p, k, a);
      ScaleHdTl(p, k, a);
      ScaleLen(p, k, Tl(a));
      HdTl(p, s);
      if Tl(a) == [] {
        assert a == [Hd(a)];
        MulModNonzero(k, Hd(a), p);
        assert s == [Hd(s)];
      } else {
        assert s == [Hd(s)] + Tl(s);
      }
    }
  }

  /** Over a prime field the length of a product is the sum of the lengths
      minus one and its leading coefficient the product of the leading
      coefficients. */
  lemma {:induction false} MulLen(p: int, a: seq<int>, b: seq<int>)
    requires IsPrime(p) && IsPoly(p, a) && IsPoly(p, b) && a != [] && b != []
    ensures |Mul(p, a, b)| == |a| + |b| - 1
    ensures Lc(Mul(p, a, b)) == MulMod(Lc(a), Lc(b), p)
    decreases |a|
  {
    HdTl(p, a);
    var h := Hd(a);
    var m := Mul(p, Tl(a), b);
    MulUnfold(p, a, b);
    if Tl(a) == [] {
      assert a == [h];
      assert Shift(p, []) == [];
      AddZero(p, Scale(p, h, b));
      ScaleLen(p, h, b);
    } else {
      MulLen(p, Tl(a), b);
      assert Lc(Tl(a)) == Lc(a);
      AddLenGt(p, Shift(p, m), Scale(p, h, b));
    }
  }

  /** Polynomials over a prime field have no zero divisors. */
  lemma MulNonzero(p: int, a: seq<int>, b: seq<int>)
    requires IsPrime(p) && IsPoly(p, a) && IsPoly(p, b)
    ensures Mul(p, a, b) == [] <==> a == [] || b == []
  {
    if a != [] && b != [] {
      MulLen(p, a, b);
    } else if b == [] {
      MulZeroRight(p, a);
    }
  }

  lemma SubHdTl(p: int, a: seq<int>, b: seq<int>)
    requires IsModulus(p) && IsPoly(p, a) && IsPoly(p, b)
    ensures Tl(Sub(p, a, b)) == Sub(p, Tl(a), Tl(b))
  {
    AddHdTl(p, a, Scale(p, p - 1, b));
    ScaleHdTl(p, p - 1, b);
  }

  /** Subtracting a polynomial of the same length and leading coefficient
      cancels the leading term. */
  lemma {:induction false} SubLeadCancel(p: int, a: seq<int>, b: seq<int>)
    requires IsModulus(p) && IsPoly(p, a) && IsPoly(p, b)
    requires |a| == |b| && a != [] && Lc(a) == Lc(b)
    ensures |Sub(p, a, b)| < |a|
    decreases |a|
  {
    var s := Sub(p, a, b);
    SubHdTl(p, a, b);
    if |a| == 1 {
      assert a == [Lc(a)] && b == [Lc(b)];
      SubZero(p, a, b);
    } else {
      assert Lc(Tl(a)) == Lc(a) && Lc(Tl(b)) == Lc(b);
      SubLeadCancel(p, Tl(a), Tl(b));
    }
  }

  lemma {:induction false} MonomialLen(p: int, c: int, k: nat)
    requires IsModulus(p) && InRange(c, p) && c != 0
    ensures |Monomial(p, c, k)| == k + 1 && Lc(Monomial(p, c, k)) == c
    decreases k
  {
    if k > 0 {
      MonomialLen(p, c, k - 1);
    }
  }

  // ---------------------------------------------------------------------
  // Division with remainder

  /** The leading term (lc(a)/lc(b)) x^(|a|-|b|) times b has the length and
      the leading coefficient of a. */
  lemma LeadTermTimes(p: int, a: seq<int>, b: seq<int>, c: int, t: seq<int>)
    requires IsPrime(p) && IsPoly(p, a) && IsPoly(p, b) && b != [] && |a| >= |b|
    requires c == MulMod(Lc(a), Inverse(Lc(b), p), p)
    requires t == Monomial(p, c, |a| - |b|)
    ensures |Mul(p, t, b)| == |a| && Lc(Mul(p, t, b)) == Lc(a)
  {
    QuotientResidue(Lc(a), Lc(b), p);
    MonomialLen(p, c, |a| - |b|);
    assert t != [] && Lc(t) == c;
    MulLen(p, t, b);
  }

  /** One step of long division: subtracting (lc(a)/lc(b)) x^(|a|-|b|) b
      lowers the length of a. */
  lemma DivStep(p: int, a: seq<int>, b: seq<int>, c: int, t: seq<int>)
    requires IsPrime(p) && IsPoly(p, a) && IsPoly(p, b) && b != [] && |a| >= |b|
    requires c == MulMod(Lc(a), Inverse(Lc(b), p), p)
    requires t == Monomial(p, c, |a| - |b|)
    ensures |Sub(p, a, Mul(p, t, b))| < |a|
  {
    LeadTermTimes(p, a, b, c, t);
    SubLeadCancel(p, a, Mul(p, t, b));
  }

  /** If a - t*b == q*b + r then a == (q + t)*b + r. */
  lemma DivRecombine(p: int, a: seq<int>, b: seq<int>, t: seq<int>, q: seq<int>, r: seq<int>)
    requires IsModulus(p) && IsPoly(p, a) && IsPoly(p, b) && IsPoly(p, t)
    requires IsPoly(p, q) && IsPoly(p, r)
    requires Sub(p, a, Mul(p, t, b)) == Add(p, Mul(p, q, b), r)
    ensures a == Add(p, Mul(p, Add(p, q, t), b), r)
  {
    var qb, tb := Mul(p, q, b), Mul(p, t, b);
    calc {
      Add(p, Mul(p, Add(p, q, t), b), r);
      { MulDistribRight(p, q, t, b); }
      Add(p, Add(p, qb, tb), r);
      { AddAssoc(p, qb, tb, r); AddComm(p, tb, r); AddAssoc(p, qb, r, tb); }
      Add(p, Add(p, qb, r), tb);
      Add(p, Sub(p, a, tb), tb);
      { SubAddCancel(p, a, tb); }
      a;
    }
  }

  /** Quotient and remainder of a by a nonzero b over a prime field. */
  function DivRem(p: int, a: seq<int>, b: seq<int>): (r: (seq<int>, seq<int>))
    requires IsPrime(p) && IsPoly(p, a) && IsPoly(p, b) && b != []
    ensures IsPoly(p, r.0) && IsPoly(p, r.1) && |r.1| < |b|
    decreases |a|, 1
  {
    if |a| < |b| then ([], a) else LongDivStep(p, a, b)
  }

  /** Long division once a is at least as long as b: subtract the leading
      term's multiple of b and divide what is left. */
  function LongDivStep(p: int, a: seq<int>, b: seq<int>): (r: (seq<int>, seq<int>))
    requires IsPrime(p) && IsPoly(p, a) && IsPoly(p, b) && b != [] && |a| >= |b|
    ensures IsPoly(p, r.0) && IsPoly(p, r.1) && |r.1| < |b|
    decreases |a|, 0
  {
    MulModInverse(Lc(a), Lc(b), p);
    var c := MulMod(Lc(a), Inverse(Lc(b), p), p);
    var t := Monomial(p, c, |a| - |b|);
    DivStep(p, a, b, c, t);
    var qr := DivRem(p, Sub(p, a, Mul(p, t, b)), b);
    (Add(p, qr.0, t), qr.1)
  }

  function Quot(p: int, a: seq<int>, b: seq<int>): (q: seq<int>)
    requires IsPrime(p) && IsPoly(p, a) && IsPoly(p, b) && b != []
    ensures IsPoly(p, q)
  {
    DivRem(p, a, b).0
  }

  function Rem(p: int, a: seq<int>, b: seq<int>): (r: seq<int>)
    requires IsPrime(p) && IsPoly(p, a) && IsPoly(p, b) && b != []
    ensures IsPoly(p, r) && |r| < |b|
  {
    DivRem(p, a, b).1
  }

  /** The division identity a == q*b + r. */
  lemma {:induction false} DivRemIdentity(p: int, a: seq<int>, b: seq<int>)
    requires IsPrime(p) && IsPoly(p, a) && IsPoly(p, b) && b != []
    ensures a == Add(p, Mul(p, Quot(p, a, b), b), Rem(p, a, b))
    decreases |a|
  {
    if |a| < |b| {
      MulZeroRight(p, b);
      MulComm(p, [], b);
      AddZero(p, a);
    } else {
      MulModInverse(Lc(a), Lc(b), p);
      var c := MulMod(Lc(a), Inverse(Lc(b), p), p);
      var t := Monomial(p, c, |a| - |b|);
      DivStep(p, a, b, c, t);
      var a1 := Sub(p, a, Mul(p, t, b));
      var qr := DivRem(p, a1, b);
      assert DivRem(p, a, b) == LongDivStep(p, a, b) == (Add(p, qr.0, t), qr.1);
      DivRemIdentity(p, a1, b);
      DivRecombine(p, a, b, t, qr.0, qr.1);
    }
  }

  /** Quotient and remainder are the only pair with a == q*b + r and r
      shorter than b. */
  lemma DivRemUnique(p: int, a: seq<int>, b: seq<int>, q: seq<int>, r: seq<int>)
    requires IsPrime(p) && IsPoly(p, a) && IsPoly(p, b) && b != []
    requires IsPoly(p, q) && IsPoly(p, r) && |r| < |b|
    requires a == Add(p, Mul(p, q, b), r)
    ensures q == Quot(p, a, b) && r == Rem(p, a, b)
  {
    var q1, r1 := Quot(p, a, b), Rem(p, a, b);
    DivRemIdentity(p, a, b);
    var x, y := Mul(p, q, b), Mul(p, q1, b);
    // x - y == r1 - r
    var d := Sub(p, x, y);
    assert Add(p, d, Add(p, y, r)) == a by {
      AddAssoc(p, d, y, r);
      SubAddCancel(p, x, y);
    }
    assert Add(p, Sub(p, r1, r), Add(p, y, r)) == a by {
      AddComm(p, y, r);
      AddAssoc(p, Sub(p, r1, r), r, y);
      SubAddCancel(p, r1, r);
      AddComm(p, r1, y);
    }
    AddCancel(p, d, Sub(p, r1, r), Add(p, y, r));
    MulSubRight(p, q, q1, b);
    SubLenLe(p, r1, r);
    var e := Sub(p, q, q1);
    if e != [] {
      MulLen(p, e, b);
      assert false;
    }
    SubZero(p, q, q1);
    MulZeroRight(p, b);
    MulComm(p, [], b);
    SubZero(p, r1, r);
  }

  // ---------------------------------------------------------------------
  // Divisibility

  /** d divides a. */
  ghost predicate Divides(p: int, d: seq<int>, a: seq<int>)
    requires IsModulus(p) && IsPoly(p, d) && IsPoly(p, a)
  {
    exists q :: IsPoly(p, q) && a == Mul(p, q, d)
  }

  /** A nonzero d divides a exactly when the remainder of a by d is zero. */
  lemma DividesIffRem(p: int, d: seq<int>, a: seq<int>)
    requires IsPrime(p) && IsPoly(p, d) && IsPoly(p, a) && d != []
    ensures Divides(p, d, a) <==> Rem(p, a, d) == []
  {
    if Divides(p, d, a) {
      var q :| IsPoly(p, q) && a == Mul(p, q, d);
      AddZero(p, a);
      DivRemUnique(p, a, d, q, []);
    }
    if Rem(p, a, d) == [] {
      DivRemIdentity(p, a, d);
      AddZero(p, Mul(p, Quot(p, a, d), d));
    }
  }

  lemma DividesRefl(p: int, a: seq<int>)
    requires IsModulus(p) && IsPoly(p, a)
    ensures Divides(p, a, a)
  {
    MulOne(p, a);
  }

  lemma DividesZero(p: int, d: seq<int>)
    requires IsModulus(p) && IsPoly(p, d)
    ensures Divides(p, d, [])
  {
    assert [] == Mul(p, [], d);
  }

  /** The zero polynomial divides only itself. */
  lemma ZeroDivides(p: int, a: seq<int>)
    requires IsModulus(p) && IsPoly(p, a)
    ensures Divides(p, [], a) <==> a == []
  {
    if Divides(p, [], a) {
      var q :| IsPoly(p, q) && a == Mul(p, q, []);
      MulZeroRight(p, q);
    }
    DividesZero(p, []);
  }

  lemma DividesAdd(p: int, d: seq<int>, a: seq<int>, b: seq<int>)
    requires IsModulus(p) && IsPoly(p, d) && IsPoly(p, a) && IsPoly(p, b)
    requires Divides(p, d, a) && Divides(p, d, b)
    ensures Divides(p, d, Add(p, a, b))
  {
    var u :| IsPoly(p, u) && a == Mul(p, u, d);
    var v :| IsPoly(p, v) && b == Mul(p, v, d);
    MulDistribRight(p, u, v, d);
  }

  lemma DividesMul(p: int, d: seq<int>, a: seq<int>, k: seq<int>)
    requires IsModulus(p) && IsPoly(p, d) && IsPoly(p, a) && IsPoly(p, k)
    requires Divides(p, d, a)
    ensures Divides(p, d, Mul(p, k, a)) && Divides(p, d, Mul(p, a, k))
  {
    var u :| IsPoly(p, u) && a == Mul(p, u, d);
    MulAssoc(p, k, u, d);
    MulComm(p, a, k);
  }

  lemma DividesScale(p: int, d: seq<int>, a: seq<int>, k: int)
    requires IsModulus(p) && InRange(k, p) && IsPoly(p, d) && IsPoly(p, a)
    requires Divides(p, d, a)
    ensures Divides(p, d, Scale(p, k, a))
  {
    var u :| IsPoly(p, u) && a == Mul(p, u, d);
    MulScaleLeft(p, k, u, d);
  }

  lemma DividesSub(p: int, d: seq<int>, a: seq<int>, b: seq<int>)
    requires IsModulus(p) && IsPoly(p, d) && IsPoly(p, a) && IsPoly(p, b)
    requires Divides(p, d, a) && Divides(p, d, b)
    ensures Divides(p, d, Sub(p, a, b))
  {
    DividesScale(p, d, b, p - 1);
    DividesAdd(p, d, a, Scale(p, p - 1, b));
  }

  lemma DividesTrans(p: int, c: seq<int>, d: seq<int>, a: seq<int>)
    requires IsModulus(p) && IsPoly(p, c) && IsPoly(p, d) && IsPoly(p, a)
    requires Divides(p, c, d) && Divides(p, d, a)
    ensures Divides(p, c, a)
  {
    var u :| IsPoly(p, u) && d == Mul(p, u, c);
    var v :| IsPoly(p, v) && a == Mul(p, v, d);
    MulAssoc(p, v, u, c);
    assert a == Mul(p, Mul(p, v, u), c);
  }

  /** A common divisor of x and y divides x mod y, and a common divisor of
      y and x mod y divides x: the step of Euclid's algorithm. */
  lemma CommonDivisorsRem(p: int, d: seq<int>, x: seq<int>, y: seq<int>)
    requires IsPrime(p) && IsPoly(p, d) && IsPoly(p, x) && IsPoly(p, y) && y != []
    ensures Divides(p, d, x) && Divides(p, d, y) <==> Divides(p, d, y) && Divides(p, d, Rem(p, x, y))
  {
    var q, r := Quot(p, x, y), Rem(p, x, y);
    var qy := Mul(p, q, y);
    DivRemIdentity(p, x, y);
    if Divides(p, d, x) && Divides(p, d, y) {
      DividesMul(p, d, y, q);
      SubAddCancel(p, r, qy);
      AddComm(p, qy, r);
      DividesSub(p, d, x, qy);
    }
    if Divides(p, d, y) && Divides(p, d, r) {
      DividesMul(p, d, y, q);
      DividesAdd(p, d, qy, r);
    }
  }
}
