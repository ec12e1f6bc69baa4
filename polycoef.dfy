/** The coefficient view of polynomials over Z_p: trimming a dense
    coefficient array, coefficient formulas for the ring operations, the
    monic associate and the formal derivative. */
module PolyCoef {
  import opened ModArith
  import opened UPoly
  import opened PolyRing
  import opened PolyDiv

  /** A coefficient array without its trailing zeros. */
  function Trim(s: seq<int>): (r: seq<int>)
    ensures |r| <= |s| && r == s[..|r|]
    ensures r == [] || r[|r| - 1] != 0
    ensures forall i :: |r| <= i < |s| ==> s[i] == 0
    decreases |s|
  {
    if s == [] then []
    else if s[|s| - 1] == 0 then Trim(s[..|s| - 1])
    else s
  }

  lemma TrimPoly(p: int, s: seq<int>)
    requires forall i :: 0 <= i < |s| ==> InRange(s[i], p)
    ensures IsPoly(p, Trim(s))
  {
    var r := Trim(s);
    assert forall i :: 0 <= i < |r| ==> r[i] == s[i];
  }

  /** Trimming keeps every coefficient. */
  lemma CoefTrim(s: seq<int>, i: nat)
    ensures Coef(Trim(s), i) == if i < |s| then s[i] else 0
  {
  }

  /** A canonical polynomial is its own trimmed form. */
  lemma TrimPolyId(p: int, a: seq<int>)
    requires IsPoly(p, a)
    ensures Trim(a) == a
  {
  }

  /** The last nonzero index of s determines the trimmed form. */
  lemma TrimAt(s: seq<int>, d: nat)
    requires d < |s| && (forall j :: d < j < |s| ==> s[j] == 0) && (d == 0 || s[d] != 0)
    ensures Trim(s) == if s[d] == 0 then [] else s[..d + 1]
    ensures Degree(Trim(s)) == d
  {
    var r := Trim(s);
    if |r| > 0 {
      assert r[|r| - 1] == s[|r| - 1];
    }
  }

  /** Two canonical polynomials with the same coefficients are equal. */
  lemma CoefExt(p: int, a: seq<int>, b: seq<int>)
    requires IsPoly(p, a) && IsPoly(p, b)
    requires forall i: nat :: Coef(a, i) == Coef(b, i)
    ensures a == b
  {
    var n := if |a| < |b| then |b| else |a|;
    if n > 0 {
      assert Coef(a, n - 1) == Coef(b, n - 1);
    }
    forall i | 0 <= i < |a|
      ensures a[i] == b[i]
    {
      assert Coef(a, i) == Coef(b, i);
    }
  }

  /** Coefficients through the head/tail view. */
  lemma CoefHdTl(a: seq<int>, i: nat)
    ensures Coef(a, 0) == Hd(a) && Coef(a, i + 1) == Coef(Tl(a), i)
  {
  }

  /** Coefficient i + 1 of a sum, from coefficient i of the sum of the
      tails. */
  lemma CoefAddSucc(p: int, a: seq<int>, b: seq<int>, i: nat)
    requires IsModulus(p) && IsPoly(p, a) && IsPoly(p, b)
    requires Coef(Add(p, Tl(a), Tl(b)), i) == AddMod(Coef(Tl(a), i), Coef(Tl(b), i), p)
    ensures Coef(Add(p, a, b), i + 1) == AddMod(Coef(a, i + 1), Coef(b, i + 1), p)
  {
    AddHdTl(p, a, b);
    CoefHdTl(Add(p, a, b), i);
    CoefHdTl(a, i);
    CoefHdTl(b, i);
  }

  lemma {:induction false} CoefAdd(p: int, a: seq<int>, b: seq<int>, i: nat)
    requires IsModulus(p) && IsPoly(p, a) && IsPoly(p, b)
    ensures Coef(Add(p, a, b), i) == AddMod(Coef(a, i), Coef(b, i), p)
    decreases i
  {
    if i == 0 {
      AddHdTl(p, a, b);
      CoefHdTl(Add(p, a, b), 0);
      CoefHdTl(a, 0);
      CoefHdTl(b, 0);
    } else {
      CoefAdd(p, Tl(a), Tl(b), i - 1);
      CoefAddSucc(p, a, b, i - 1);
    }
  }

  lemma CoefScaleSucc(p: int, k: int, a: seq<int>, i: nat)
    requires IsModulus(p) && InRange(k, p) && IsPoly(p, a)
    requires Coef(Scale(p, k, Tl(a)), i) == MulMod(k, Coef(Tl(a), i), p)
    ensures Coef(Scale(p, k, a), i + 1) == MulMod(k, Coef(a, i + 1), p)
  {
    ScaleHdTl(p, k, a);
    CoefHdTl(Scale(p, k, a), i);
    CoefHdTl(a, i);
  }

  lemma {:induction false} CoefScale(p: int, k: int, a: seq<int>, i: nat)
    requires IsModulus(p) && InRange(k, p) && IsPoly(p, a)
    ensures Coef(Scale(p, k, a), i) == MulMod(k, Coef(a, i), p)
    decreases i
  {
    if i == 0 {
      ScaleHdTl(p, k, a);
      CoefHdTl(Scale(p, k, a), 0);
      CoefHdTl(a, 0);
    } else {
      CoefScale(p, k, Tl(a), i - 1);
      CoefScaleSucc(p, k, a, i - 1);
    }
  }

  /** Scaling every entry of a coefficient array scales the polynomial it
      stands for. */
  lemma TrimScale(p: int, k: int, s: seq<int>, t: seq<int>)
    requires IsModulus(p) && InRange(k, p) && |s| == |t|
    requires forall j :: 0 <= j < |s| ==> InRange(s[j], p) && t[j] == MulMod(k, s[j], p)
    ensures IsPoly(p, Trim(t)) && Trim(t) == Scale(p, k, Trim(s))
  {
    TrimPoly(p, s);
    TrimPoly(p, t);
    var w := Scale(p, k, Trim(s));
    MulModZero(k, p);
    forall j: nat
      ensures Coef(Trim(t), j) == Coef(w, j)
    {
      CoefTrim(t, j);
      CoefScale(p, k, Trim(s), j);
      CoefTrim(s, j);
    }
    CoefExt(p, Trim(t), w);
  }

  lemma CoefShift(p: int, a: seq<int>, i: nat)
    requires IsModulus(p) && IsPoly(p, a)
    ensures Coef(Shift(p, a), i) == if i == 0 then 0 else Coef(a, i - 1)
  {
  }

  /** c x^k has the single coefficient c, at index k. */
  lemma {:induction false} CoefMonomial(p: int, c: int, k: nat, i: nat)
    requires IsModulus(p) && InRange(c, p)
    ensures Coef(Monomial(p, c, k), i) == if i == k then c else 0
    decreases k
  {
    if k > 0 {
      CoefShift(p, Monomial(p, c, k - 1), i);
      if i > 0 {
        CoefMonomial(p, c, k - 1, i - 1);
      }
    }
  }

  // ---------------------------------------------------------------------
  // Monic associate

  /** The polynomial divided by its leading coefficient; zero stays zero. */
  function Monic(p: int, a: seq<int>): (r: seq<int>)
    requires IsPrime(p) && IsPoly(p, a)
    ensures IsPoly(p, r)
  {
    if a == [] then []
    else
      ModOfRange(Lc(a), p);
      Scale(p, Inverse(Lc(a), p), a)
  }

  /** Monic keeps the length, makes the leading coefficient one, and is
      the identity exactly on the zero and the monic polynomials. */
  lemma MonicLc(p: int, a: seq<int>)
    requires IsPrime(p) && IsPoly(p, a)
    ensures |Monic(p, a)| == |a|
    ensures a != [] ==> Lc(Monic(p, a)) == 1
    ensures Monic(p, a) == a <==> a == [] || Lc(a) == 1
  {
    if a != [] {
      var l := Lc(a);
      ModOfRange(l, p);
      var k := Inverse(l, p);
      assert k != 0 by {
        ModOfRange(0, p);
        assert l * 0 == 0;
      }
      ScaleLen(p, k, a);
      MulModIsMod(k, l, p);
      assert k * l == l * k;
      if l == 1 {
        assert (1 * k) % p == 1;
        ModOfRange(k, p);
        ScaleOne(p, a);
      }
    }
  }

  lemma MonicIdempotent(p: int, a: seq<int>)
    requires IsPrime(p) && IsPoly(p, a)
    ensures Monic(p, Monic(p, a)) == Monic(p, a)
  {
    MonicLc(p, a);
    MonicLc(p, Monic(p, a));
  }

  /** A polynomial and its monic associate divide each other. */
  lemma MonicAssociate(p: int, a: seq<int>)
    requires IsPrime(p) && IsPoly(p, a)
    ensures Divides(p, a, Monic(p, a)) && Divides(p, Monic(p, a), a)
  {
    if a == [] {
      DividesZero(p, []);
    } else {
      var l := Lc(a);
      ModOfRange(l, p);
      var k := Inverse(l, p);
      var m := Monic(p, a);
      // m == k * a
      MulOne(p, a);
      MulScaleLeft(p, k, One(p), a);
      assert m == Mul(p, Scale(p, k, One(p)), a);
      // a == l * m
      ScaleScale(p, l, k, a);
      MulModIsMod(l, k, p);
      ScaleOne(p, a);
      assert Scale(p, l, m) == a;
      MulOne(p, m);
      MulScaleLeft(p, l, One(p), m);
      assert a == Mul(p, Scale(p, l, One(p)), m);
    }
  }

  /** A nonzero polynomial is its leading coefficient times its monic
      associate. */
  lemma LcMonic(p: int, a: seq<int>)
    requires IsPrime(p) && IsPoly(p, a) && a != []
    ensures a == Mul(p, Const(p, Lc(a)), Monic(p, a))
  {
    var l := Lc(a);
    ModOfRange(l, p);
    var k := Inverse(l, p);
    var m := Monic(p, a);
    ScaleScale(p, l, k, a);
    MulModIsMod(l, k, p);
    ScaleOne(p, a);
    assert Scale(p, l, m) == a;
    MulOne(p, m);
    MulScaleLeft(p, l, One(p), m);
    MulModOne(l, p);
    assert Scale(p, l, One(p)) == Const(p, l);
  }

  // ---------------------------------------------------------------------
  // Formal derivative

  /** Coefficient i of the derivative is (i + 1) a_(i+1), the index taken
      modulo p, before trimming. */
  function DerivCoefs(p: int, a: seq<int>): (r: seq<int>)
    requires IsModulus(p) && IsPoly(p, a)
    ensures |r| == Degree(a)
  {
    seq(Degree(a), i requires 0 <= i < Degree(a) => MulMod(a[i + 1], (i + 1) % p, p))
  }

  function Deriv(p: int, a: seq<int>): (r: seq<int>)
    requires IsModulus(p) && IsPoly(p, a)
    ensures IsPoly(p, r)
  {
    TrimPoly(p, DerivCoefs(p, a));
    Trim(DerivCoefs(p, a))
  }

  /** Coefficient i of the derivative is (i + 1) a_(i+1); it vanishes when
      i + 1 is a multiple of p, and the derivative of a constant is zero. */
  lemma CoefDeriv(p: int, a: seq<int>, i: nat)
    requires IsModulus(p) && IsPoly(p, a)
    ensures Coef(Deriv(p, a), i) == MulMod(Coef(a, i + 1), (i + 1) % p, p)
    ensures (i + 1) % p == 0 ==> Coef(Deriv(p, a), i) == 0
    ensures |a| <= 1 ==> Deriv(p, a) == []
  {
    CoefTrim(DerivCoefs(p, a), i);
    ModOfRange(0, p);
    MulModZero((i + 1) % p, p);
    MulModZero(Coef(a, i + 1), p);
  }

  lemma DerivAddCoef(p: int, a: seq<int>, b: seq<int>, i: nat)
    requires IsModulus(p) && IsPoly(p, a) && IsPoly(p, b)
    ensures Coef(Deriv(p, Add(p, a, b)), i) == Coef(Add(p, Deriv(p, a), Deriv(p, b)), i)
  {
    var n := (i + 1) % p;
    var x, y := Coef(a, i + 1), Coef(b, i + 1);
    CoefDeriv(p, Add(p, a, b), i);
    CoefAdd(p, a, b, i + 1);
    CoefAdd(p, Deriv(p, a), Deriv(p, b), i);
    CoefDeriv(p, a, i);
    CoefDeriv(p, b, i);
    MulModComm(AddMod(x, y, p), n, p);
    MulModDistrib(n, x, y, p);
    MulModComm(x, n, p);
    MulModComm(y, n, p);
  }

  /** The derivative is additive. */
  lemma DerivAdd(p: int, a: seq<int>, b: seq<int>)
    requires IsModulus(p) && IsPoly(p, a) && IsPoly(p, b)
    ensures Deriv(p, Add(p, a, b)) == Add(p, Deriv(p, a), Deriv(p, b))
  {
    forall i: nat
      ensures Coef(Deriv(p, Add(p, a, b)), i) == Coef(Add(p, Deriv(p, a), Deriv(p, b)), i)
    {
      DerivAddCoef(p, a, b, i);
    }
    CoefExt(p, Deriv(p, Add(p, a, b)), Add(p, Deriv(p, a), Deriv(p, b)));
  }

  /** The derivative commutes with scaling. */
  lemma DerivScale(p: int, k: int, a: seq<int>)
    requires IsModulus(p) && InRange(k, p) && IsPoly(p, a)
    ensures Deriv(p, Scale(p, k, a)) == Scale(p, k, Deriv(p, a))
  {
    var l, r := Deriv(p, Scale(p, k, a)), Scale(p, k, Deriv(p, a));
    forall i: nat
      ensures Coef(l, i) == Coef(r, i)
    {
      var n := (i + 1) % p;
      var c := Coef(a, i + 1);
      CoefDeriv(p, Scale(p, k, a), i);
      CoefScale(p, k, a, i + 1);
      CoefScale(p, k, Deriv(p, a), i);
      CoefDeriv(p, a, i);
      MulModComm(MulMod(k, c, p), n, p);
      MulModAssoc(n, k, c, p);
      MulModComm(n, k, p);
      MulModAssoc(k, n, c, p);
      MulModComm(n, c, p);
    }
    CoefExt(p, l, r);
  }
}
