/** The trivial cases that ModularGCD settles for polynomials over Z
    before it hands the work to the modular algorithm: the same argument
    twice, a zero argument, and a constant argument, after putting the
    argument of higher degree first. Polynomials over Z are coefficient
    lists, lowest degree first, with no trailing zero. */
module IntegerPolyGcd {
  import opened ModArith

  /** A canonical polynomial over Z. */
  predicate IsZPoly(a: seq<int>) {
    a == [] || a[|a| - 1] != 0
  }

  function Abs(x: int): nat { if x < 0 then -x else x }

  function Hd(a: seq<int>): int { if a == [] then 0 else a[0] }

  function Tl(a: seq<int>): seq<int> { if a == [] then [] else a[1..] }

  /** c + x * t, kept canonical. */
  function ZCons(c: int, t: seq<int>): (r: seq<int>)
    requires IsZPoly(t)
    ensures IsZPoly(r) && Hd(r) == c && Tl(r) == t
  {
    if t == [] && c == 0 then [] else [c] + t
  }

  lemma ZHdTl(a: seq<int>)
    requires IsZPoly(a)
    ensures IsZPoly(Tl(a)) && ZCons(Hd(a), Tl(a)) == a
  {
    if a != [] {
      assert [a[0]] + a[1..] == a;
    }
  }

  function ZAdd(a: seq<int>, b: seq<int>): (r: seq<int>)
    requires IsZPoly(a) && IsZPoly(b)
    ensures IsZPoly(r)
    decreases |a| + |b|
  {
    if a == [] && b == [] then []
    else
      ZHdTl(a);
      ZHdTl(b);
      ZCons(Hd(a) + Hd(b), ZAdd(Tl(a), Tl(b)))
  }

  /** k * a for an integer k. */
  function ZScale(k: int, a: seq<int>): (r: seq<int>)
    requires IsZPoly(a)
    ensures IsZPoly(r)
    decreases |a|
  {
    if a == [] then []
    else
      ZHdTl(a);
      ZCons(k * Hd(a), ZScale(k, Tl(a)))
  }

  function ZMul(a: seq<int>, b: seq<int>): (r: seq<int>)
    requires IsZPoly(a) && IsZPoly(b)
    ensures IsZPoly(r)
    decreases |a|
  {
    if a == [] then []
    else
      ZHdTl(a);
      ZAdd(ZScale(Hd(a), b), ZCons(0, ZMul(Tl(a), b)))
  }

  /** g divides a in Z[x]. */
  ghost predicate ZDivides(g: seq<int>, a: seq<int>)
    requires IsZPoly(g) && IsZPoly(a)
  {
    exists q :: IsZPoly(q) && ZMul(g, q) == a
  }

  lemma {:induction false} ZAddZero(a: seq<int>)
    requires IsZPoly(a)
    ensures ZAdd(a, []) == a
    decreases |a|
  {
    if a != [] {
      ZHdTl(a);
      ZAddZero(Tl(a));
    }
  }

  lemma {:induction false} ZMulZero(a: seq<int>)
    requires IsZPoly(a)
    ensures ZMul(a, []) == []
    decreases |a|
  {
    if a != [] {
      ZHdTl(a);
      ZMulZero(Tl(a));
    }
  }

  lemma {:induction false} ZMulOne(a: seq<int>)
    requires IsZPoly(a)
    ensures ZMul(a, [1]) == a
    decreases |a|
  {
    if a != [] {
      ZHdTl(a);
      ZMulOne(Tl(a));
      var h, t := Hd(a), Tl(a);
      assert ZScale(h, [1]) == ZCons(h, []);
      assert ZAdd(ZCons(h, []), ZCons(0, t)) == ZCons(h, ZAdd([], t));
      ZAddZero(t);
      AddZeroLeft(t);
    }
  }

  lemma AddZeroLeft(a: seq<int>)
    requires IsZPoly(a)
    ensures ZAdd([], a) == a
  {
    ZAddComm([], a);
    ZAddZero(a);
  }

  lemma {:induction false} ZAddComm(a: seq<int>, b: seq<int>)
    requires IsZPoly(a) && IsZPoly(b)
    ensures ZAdd(a, b) == ZAdd(b, a)
    decreases |a| + |b|
  {
    if !(a == [] && b == []) {
      ZAddComm(Tl(a), Tl(b));
    }
  }

  /** Multiplying by the constant c multiplies every coefficient by c. */
  lemma {:induction false} ZMulConst(c: int, q: seq<int>)
    requires IsZPoly(q) && c != 0
    ensures ZMul([c], q) == ZScale(c, q)
    ensures |ZScale(c, q)| == |q| && forall i :: 0 <= i < |q| ==> ZScale(c, q)[i] == c * q[i]
    decreases |q|
  {
    assert Tl([c]) == [];
    ZMulConstCoefs(c, q);
    ZAddZero(ZScale(c, q));
  }

  lemma {:induction false} ZMulConstCoefs(c: int, q: seq<int>)
    requires IsZPoly(q) && c != 0
    ensures |ZScale(c, q)| == |q| && forall i :: 0 <= i < |q| ==> ZScale(c, q)[i] == c * q[i]
    decreases |q|
  {
    if q != [] {
      ZHdTl(q);
      ZMulConstCoefs(c, Tl(q));
      var t := ZScale(c, Tl(q));
      if t == [] {
        assert |q| == 1;
        NonzeroProduct(c, q[0]);
      }
      forall i | 0 <= i < |q|
        ensures ZScale(c, q)[i] == c * q[i]
      {
        if i > 0 {
          assert ZScale(c, q)[i] == t[i - 1];
        }
      }
    }
  }

  lemma NonzeroProduct(x: int, y: int)
    requires x != 0 && y != 0
    ensures x * y != 0
  {
  }

  // ---------------------------------------------------------------------
  // Integer gcd and content

  /** The non-negative gcd of two naturals (zero only for two zeros). */
  function IntGcd(a: nat, b: nat): (g: nat)
    ensures g == 0 <==> a == 0 && b == 0
    ensures g > 0 ==> a % g == 0 && b % g == 0
  {
    ExtGcd(a, b).0
  }

  /** Every common positive divisor of a and b divides their gcd. */
  lemma IntGcdGreatest(a: nat, b: nat, d: int)
    requires d > 0 && a % d == 0 && b % d == 0
    ensures IntGcd(a, b) % d == 0
  {
    var r := ExtGcd(a, b);
    CombinationDivisible(a, b, r.1, r.2, d);
  }

  /** A common divisor of a and b divides every a s + b t. */
  lemma CombinationDivisible(a: int, b: int, s: int, t: int, d: int)
    requires d > 0 && a % d == 0 && b % d == 0
    ensures (a * s + b * t) % d == 0
  {
    var ka, kb := a / d, b / d;
    assert a == ka * d && b == kb * d;
    FactorOut(ka, kb, s, t, d);
    ModUnique(a * s + b * t, d, ka * s + kb * t, 0);
  }

  /** (x d) s + (y d) t == (x s + y t) d. */
  lemma FactorOut(x: int, y: int, s: int, t: int, d: int)
    ensures (x * d) * s + (y * d) * t == (x * s + y * t) * d
  {
    assert (x * d) * s == (x * s) * d;
    assert (y * d) * t == (y * t) * d;
  }

  /** The content: the gcd of the absolute values of the coefficients. */
  function Content(a: seq<int>): (c: nat)
    decreases |a|
  {
    if a == [] then 0 else IntGcd(Abs(a[0]), Content(a[1..]))
  }

  /** The content is zero only for the zero list and divides every
      coefficient. */
  lemma {:induction false} ContentDivides(a: seq<int>)
    requires IsZPoly(a)
    ensures Content(a) == 0 <==> a == []
    ensures forall i :: 0 <= i < |a| ==> Content(a) > 0 && a[i] % Content(a) == 0
    decreases |a|
  {
    if a != [] {
      var t := a[1..];
      assert IsZPoly(t);
      ContentDividesAll(a);
    }
  }

  /** Content and coefficients, without the canonical form. */
  lemma {:induction false} ContentDividesAll(a: seq<int>)
    ensures Content(a) > 0 ==> forall i :: 0 <= i < |a| ==> a[i] % Content(a) == 0
    ensures Content(a) == 0 ==> forall i :: 0 <= i < |a| ==> a[i] == 0
    decreases |a|
  {
    if a != [] {
      var t := a[1..];
      ContentDividesAll(t);
      var g, h := Content(a), Content(t);
      forall i | 0 <= i < |a|
        ensures g > 0 ==> a[i] % g == 0
        ensures g == 0 ==> a[i] == 0
      {
        if g > 0 {
          if i == 0 {
            AbsMod(a[0], g);
          } else {
            assert a[i] == t[i - 1];
            if h > 0 {
              DivTrans(t[i - 1], h, g);
            }
          }
        }
      }
    }
  }

  /** A divisor of |x| divides x. */
  lemma AbsMod(x: int, g: int)
    requires g > 0 && Abs(x) % g == 0
    ensures x % g == 0
  {
    var k := Abs(x) / g;
    assert Abs(x) == k * g;
    if x < 0 {
      assert x == (-k) * g;
    }
    ModAddMultiple(0, if x < 0 then -k else k, g);
  }

  /** g | h and h | x give g | x. */
  lemma DivTrans(x: int, h: int, g: int)
    requires g > 0 && h > 0 && h % g == 0 && x % h == 0
    ensures x % g == 0
  {
    var k, l := x / h, h / g;
    assert x == k * h && h == l * g;
    assert x == (k * l) * g;
    ModAddMultiple(0, k * l, g);
  }

  /** Every positive divisor of all the coefficients divides the content. */
  lemma {:induction false} ContentGreatest(a: seq<int>, d: int)
    requires d > 0 && forall i :: 0 <= i < |a| ==> a[i] % d == 0
    ensures Content(a) % d == 0
    decreases |a|
  {
    if a != [] {
      var t := a[1..];
      assert forall i :: 0 <= i < |t| ==> t[i] == a[i + 1];
      ContentGreatest(t, d);
      NegMod(a[0], d);
      IntGcdGreatest(Abs(a[0]), Content(t), d);
    }
  }

  /** d | x gives d | |x|. */
  lemma NegMod(x: int, d: int)
    requires d > 0 && x % d == 0
    ensures Abs(x) % d == 0
  {
    var k := x / d;
    assert x == k * d;
    if x < 0 {
      assert Abs(x) == (-k) * d;
    }
    ModAddMultiple(0, if x < 0 then -k else k, d);
  }

  /** The primitive part: every coefficient divided by the content. */
  function PrimitivePart(a: seq<int>): (r: seq<int>)
    requires IsZPoly(a) && a != []
    ensures IsZPoly(r) && |r| == |a|
  {
    ContentDivides(a);
    var c := Content(a);
    var r := seq(|a|, i requires 0 <= i < |a| => a[i] / c);
    DivExactNonzero(a[|a| - 1], c);
    r
  }

  /** An exact quotient of a nonzero number by a positive one is nonzero
      and gives the number back. */
  lemma DivExactNonzero(x: int, c: int)
    requires c > 0 && x % c == 0
    ensures c * (x / c) == x
    ensures x != 0 ==> x / c != 0
  {
  }

  /** The content times the primitive part is the polynomial. */
  lemma PrimitivePartTimesContent(a: seq<int>)
    requires IsZPoly(a) && a != []
    ensures Content(a) > 0 && ZMul([Content(a)], PrimitivePart(a)) == a
  {
    ContentDivides(a);
    ExactQuotient(a, Content(a));
    assert PrimitivePart(a) == seq(|a|, i requires 0 <= i < |a| => a[i] / Content(a));
  }

  /** Dividing every coefficient by a positive common divisor g gives a
      canonical q with [g] q == a. */
  lemma ExactQuotient(a: seq<int>, g: nat)
    requires IsZPoly(a) && g > 0 && forall i :: 0 <= i < |a| ==> a[i] % g == 0
    ensures var q := seq(|a|, i requires 0 <= i < |a| => a[i] / g);
      IsZPoly(q) && ZMul([g], q) == a
  {
    var q := seq(|a|, i requires 0 <= i < |a| => a[i] / g);
    if a != [] {
      DivExactNonzero(a[|a| - 1], g);
    }
    ZMulConst(g, q);
    var s := ZScale(g, q);
    forall i | 0 <= i < |a|
      ensures s[i] == a[i]
    {
      DivExactNonzero(a[i], g);
    }
    assert s == a;
  }

  // ---------------------------------------------------------------------
  // The trivial cases of ModularGCD

  /** What the prelude of ModularGCD decides: the gcd itself, or the
      primitive parts (higher degree first) and the gcd of the contents
      that ModularGCD0 and the final multiplication receive. */
  datatype Prelude =
    | Settled(gcd: seq<int>)
    | Modular(a: seq<int>, b: seq<int>, contentGcd: nat)

  function Degree(a: seq<int>): nat { if a == [] then 0 else |a| - 1 }

  /** ModularGCD (PolynomialGCD.java, lines 373-384); same says that the
      two arguments are one object. */
  function ModularGcdPrelude(a: seq<int>, b: seq<int>, same: bool): (r: Prelude)
    requires IsZPoly(a) && IsZPoly(b) && (same ==> a == b)
    ensures r.Settled? ==> IsZPoly(r.gcd)
    ensures r.Modular? ==> IsZPoly(r.a) && IsZPoly(r.b)
    decreases if Degree(a) < Degree(b) then 1 else 0
  {
    ContentDivides(a);
    ContentDivides(b);
    if same then Settled(a)
    else if a == [] then Settled(b)
    else if b == [] then Settled(a)
    else if Degree(a) < Degree(b) then ModularGcdPrelude(b, a, false)
    else
      var g := IntGcd(Content(a), Content(b));
      if |a| == 1 || |b| == 1 then Settled([g])
      else Modular(PrimitivePart(a), PrimitivePart(b), g)
  }

  /** Every polynomial divides itself and zero. */
  lemma DividesSelfAndZero(a: seq<int>)
    requires IsZPoly(a)
    ensures ZDivides(a, a) && ZDivides(a, [])
  {
    ZMulOne(a);
    ZMulZero(a);
    assert IsZPoly([1]) && ZMul(a, [1]) == a;
    assert IsZPoly([]) && ZMul(a, []) == [];
  }

  /** Every settled answer divides both arguments. */
  lemma {:induction false} PreludeDivides(a: seq<int>, b: seq<int>, same: bool)
    requires IsZPoly(a) && IsZPoly(b) && (same ==> a == b)
    ensures ModularGcdPrelude(a, b, same).Settled? ==>
      IsZPoly(ModularGcdPrelude(a, b, same).gcd) &&
      ZDivides(ModularGcdPrelude(a, b, same).gcd, a) && ZDivides(ModularGcdPrelude(a, b, same).gcd, b)
    decreases if Degree(a) < Degree(b) then 1 else 0
  {
    if same {
      DividesSelfAndZero(a);
    } else if a == [] {
      DividesSelfAndZero(b);
    } else if b == [] {
      DividesSelfAndZero(a);
    } else if Degree(a) < Degree(b) {
      PreludeDivides(b, a, false);
    } else if |a| == 1 || |b| == 1 {
      var g := IntGcd(Content(a), Content(b));
      ContentDivides(a);
      ContentDivides(b);
      ConstantDivides(a, g);
      ConstantDivides(b, g);
    }
  }

  /** A positive constant dividing the content divides the polynomial. */
  lemma ConstantDivides(a: seq<int>, g: nat)
    requires IsZPoly(a) && a != [] && g > 0 && Content(a) % g == 0
    ensures IsZPoly([g]) && ZDivides([g], a)
  {
    DividesCoefficients(a, g);
    ExactQuotient(a, g);
    WitnessDivides([g], seq(|a|, i requires 0 <= i < |a| => a[i] / g), a);
  }

  /** g divides a when g q == a. */
  lemma WitnessDivides(g: seq<int>, q: seq<int>, a: seq<int>)
    requires IsZPoly(g) && IsZPoly(q) && IsZPoly(a) && ZMul(g, q) == a
    ensures ZDivides(g, a)
  {
  }

  /** A positive divisor of the content divides every coefficient. */
  lemma DividesCoefficients(a: seq<int>, g: nat)
    requires IsZPoly(a) && a != [] && g > 0 && Content(a) % g == 0
    ensures forall i :: 0 <= i < |a| ==> a[i] % g == 0
  {
    ContentDivides(a);
    var c := Content(a);
    forall i | 0 <= i < |a|
      ensures a[i] % g == 0
    {
      DivTrans(a[i], c, g);
    }
  }

  /** Two nonzero arguments, not one object, one of them constant: the
      answer is the constant gcd of the contents, which every common
      divisor of all the coefficients divides. */
  lemma PreludeConstant(a: seq<int>, b: seq<int>)
    requires IsZPoly(a) && IsZPoly(b) && a != [] && b != [] && (|a| == 1 || |b| == 1)
    ensures ModularGcdPrelude(a, b, false) == Settled([IntGcd(Content(a), Content(b))])
    ensures IntGcd(Content(a), Content(b)) > 0
    ensures forall d :: d > 0 && (forall i :: 0 <= i < |a| ==> a[i] % d == 0) &&
                        (forall i :: 0 <= i < |b| ==> b[i] % d == 0) ==>
                        IntGcd(Content(a), Content(b)) % d == 0
  {
    ContentDivides(a);
    ContentDivides(b);
    IntGcdComm(Content(a), Content(b));
    forall d | d > 0 && (forall i :: 0 <= i < |a| ==> a[i] % d == 0) &&
               (forall i :: 0 <= i < |b| ==> b[i] % d == 0)
      ensures IntGcd(Content(a), Content(b)) % d == 0
    {
      ContentGreatest(a, d);
      ContentGreatest(b, d);
      IntGcdGreatest(Content(a), Content(b), d);
    }
  }

  /** The gcd does not depend on the order of its arguments. */
  lemma IntGcdComm(a: nat, b: nat)
    ensures IntGcd(a, b) == IntGcd(b, a)
  {
    var g, h := IntGcd(a, b), IntGcd(b, a);
    if g > 0 {
      IntGcdGreatest(b, a, g);
      IntGcdGreatest(a, b, h);
      DivisorAtMost(g, h);
      DivisorAtMost(h, g);
    }
  }

  /** Two nonconstant arguments, not one object: the modular algorithm
      receives the primitive parts, the one of higher degree first, and
      the gcd of the contents; each primitive part times its content is
      the argument it came from. */
  lemma PreludeModular(a: seq<int>, b: seq<int>)
    requires IsZPoly(a) && IsZPoly(b) && |a| > 1 && |b| > 1
    ensures ModularGcdPrelude(a, b, false).Modular?
    ensures Content(a) > 0 && Content(b) > 0
    ensures var r := ModularGcdPrelude(a, b, false);
      |r.a| >= |r.b| && r.contentGcd == IntGcd(Content(a), Content(b)) &&
      ((ZMul([Content(a)], r.a) == a && ZMul([Content(b)], r.b) == b) ||
       (ZMul([Content(b)], r.a) == b && ZMul([Content(a)], r.b) == a))
  {
    IntGcdComm(Content(a), Content(b));
    PrimitivePartTimesContent(a);
    PrimitivePartTimesContent(b);
    if Degree(a) < Degree(b) {
      assert ModularGcdPrelude(a, b, false) == ModularGcdPrelude(b, a, false);
      assert ModularGcdPrelude(b, a, false) == Modular(PrimitivePart(b), PrimitivePart(a), IntGcd(Content(b), Content(a)));
    } else {
      assert ModularGcdPrelude(a, b, false) == Modular(PrimitivePart(a), PrimitivePart(b), IntGcd(Content(a), Content(b)));
    }
  }
}
