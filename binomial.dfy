/** The binomial theorem in Z_p[x] and its consequences for a prime p:
    (a + b)^p == a^p + b^p, and Fermat's little theorem c^p == c for
    every residue c. These are the facts behind taking the p-th root of a
    polynomial whose derivative vanishes. */
module Binomial {
  import opened ModArith
  import opened UPoly
  import opened PolyRing
  import opened PolyModular
  import opened Decompositions
  import opened ModularComposition

  // ---------------------------------------------------------------------
  // Binomial coefficients

  /** C(n, k) by Pascal's rule. */
  function Binom(n: nat, k: nat): nat
    decreases n
  {
    if k == 0 then 1 else if n == 0 then 0 else Binom(n - 1, k - 1) + Binom(n - 1, k)
  }

  /** C(n, k) == 0 for k > n. */
  lemma {:induction false} BinomAbove(n: nat, k: nat)
    requires k > n
    ensures Binom(n, k) == 0
    decreases n
  {
    if n > 0 {
      BinomAbove(n - 1, k - 1);
      BinomAbove(n - 1, k);
    }
  }

  /** C(n, n) == 1. */
  lemma {:induction false} BinomTop(n: nat)
    ensures Binom(n, n) == 1
    decreases n
  {
    if n > 0 {
      BinomTop(n - 1);
      BinomAbove(n - 1, n);
    }
  }

  /** The absorption identity k C(n, k) == n C(n - 1, k - 1). */
  lemma {:induction false} BinomAbsorb(n: nat, k: nat)
    requires n >= 1 && k >= 1
    ensures k * Binom(n, k) == n * Binom(n - 1, k - 1)
    decreases n
  {
    var m := n - 1;
    assert Binom(n, k) == Binom(m, k - 1) + Binom(m, k);
    if m == 0 {
      if k > 1 {
        BinomAbove(0, k - 1);
      }
      BinomAbove(0, k);
    } else if k == 1 {
      BinomAbsorb(m, 1);
    } else {
      BinomAbsorb(m, k);
      BinomAbsorb(m, k - 1);
      AbsorbAlgebra(k, m, Binom(m - 1, k - 2), Binom(m - 1, k - 1), Binom(m, k - 1), Binom(m, k), Binom(n, k));
    }
  }

  /** The arithmetic step of the absorption identity. */
  lemma AbsorbAlgebra(k: int, m: int, x: int, y: int, z: int, bmk: int, bnk: int)
    requires z == x + y && k * bmk == m * y && (k - 1) * z == m * x && bnk == z + bmk
    ensures k * bnk == (m + 1) * z
  {
    assert k * bnk == k * z + k * bmk;
    assert k * z == (k - 1) * z + z;
    assert (m + 1) * z == m * x + m * y + z;
  }

  /** p divides C(p, k) for a prime p and 0 < k < p. */
  lemma BinomPrime(p: int, k: nat)
    requires IsPrime(p) && 0 < k < p
    ensures Binom(p, k) % p == 0
  {
    var b, q := Binom(p, k), Binom(p - 1, k - 1);
    BinomAbsorb(p, k);
    MultipleOfModulus(k * b, q, p);
    if b % p != 0 {
      ModOfRange(k, p);
      NoZeroDivisors(k, b, p);
      assert false;
    }
  }

  /** A multiple of p is zero modulo p. */
  lemma MultipleOfModulus(x: int, q: int, p: int)
    requires p > 0 && x == p * q
    ensures x % p == 0
  {
    ModUnique(x, p, q, 0);
  }

  // ---------------------------------------------------------------------
  // The binomial theorem for polynomials

  /** Term i of the expansion of (a + b)^n: C(n, i) a^i b^(n - i), and
      zero for i > n. */
  function BinomialTerm(p: int, a: seq<int>, b: seq<int>, n: nat, i: nat): (r: seq<int>)
    requires IsModulus(p) && IsPoly(p, a) && IsPoly(p, b)
    ensures IsPoly(p, r)
  {
    if i > n then [] else Scale(p, Binom(n, i) % p, Mul(p, Pow(p, a, i), Pow(p, b, n - i)))
  }

  /** The sum of the terms i < k of the expansion of (a + b)^n. */
  function Expansion(p: int, a: seq<int>, b: seq<int>, n: nat, k: nat): (r: seq<int>)
    requires IsModulus(p) && IsPoly(p, a) && IsPoly(p, b)
    ensures IsPoly(p, r)
    decreases k
  {
    if k == 0 then [] else Add(p, Expansion(p, a, b, n, k - 1), BinomialTerm(p, a, b, n, k - 1))
  }

  /** a (k X) == k (a X). */
  lemma MulScaleRight(p: int, a: seq<int>, k: int, x: seq<int>)
    requires IsModulus(p) && IsPoly(p, a) && InRange(k, p) && IsPoly(p, x)
    ensures Mul(p, a, Scale(p, k, x)) == Scale(p, k, Mul(p, a, x))
  {
    MulComm(p, a, Scale(p, k, x));
    MulScaleLeft(p, k, x, a);
    MulComm(p, x, a);
  }

  /** a (a^i B) == a^(i + 1) B. */
  lemma MulIntoLeft(p: int, a: seq<int>, i: nat, y: seq<int>)
    requires IsModulus(p) && IsPoly(p, a) && IsPoly(p, y)
    ensures Mul(p, a, Mul(p, Pow(p, a, i), y)) == Mul(p, Pow(p, a, i + 1), y)
  {
    MulAssoc(p, a, Pow(p, a, i), y);
  }

  /** b (A b^j) == A b^(j + 1). */
  lemma MulIntoRight(p: int, b: seq<int>, x: seq<int>, j: nat)
    requires IsModulus(p) && IsPoly(p, b) && IsPoly(p, x)
    ensures Mul(p, b, Mul(p, x, Pow(p, b, j))) == Mul(p, x, Pow(p, b, j + 1))
  {
    MulAssoc(p, b, x, Pow(p, b, j));
    MulComm(p, b, x);
    MulAssoc(p, x, b, Pow(p, b, j));
  }

  /** Adding residues: AddMod(x mod p, y mod p) == (x + y) mod p. */
  lemma AddResidues(x: int, y: int, p: int)
    requires p > 0
    ensures InRange(x % p, p) && InRange(y % p, p) && AddMod(x % p, y % p, p) == (x + y) % p
  {
    AddModIsMod(x % p, y % p, p);
    ModAddLeft(x, y % p, p);
    ModAddRight(x, y, p);
  }

  /** AddMod(x mod p, y mod p) == s mod p when s == x + y. */
  lemma SumResidues(s: int, x: int, y: int, p: int)
    requires p > 0 && s == x + y
    ensures InRange(x % p, p) && InRange(y % p, p) && AddMod(x % p, y % p, p) == s % p
  {
    AddResidues(x, y, p);
  }

  /** Pascal's rule on terms: term k + 1 of (a + b)^(n + 1) is a times
      term k plus b times term k + 1 of (a + b)^n. */
  lemma PascalTerm(p: int, a: seq<int>, b: seq<int>, n: nat, k: nat)
    requires IsModulus(p) && IsPoly(p, a) && IsPoly(p, b) && k <= n
    ensures BinomialTerm(p, a, b, n + 1, k + 1) ==
            Add(p, Mul(p, a, BinomialTerm(p, a, b, n, k)), Mul(p, b, BinomialTerm(p, a, b, n, k + 1)))
  {
    var c0 := Binom(n, k) % p;
    var j := n - k;
    var bj := Pow(p, b, j);
    var m := Mul(p, Pow(p, a, k + 1), bj);
    PowCong(p, b);
    var t := BinomialTerm(p, a, b, n + 1, k + 1);
    assert t == Scale(p, Binom(n + 1, k + 1) % p, m);
    var t0 := BinomialTerm(p, a, b, n, k);
    assert t0 == Scale(p, c0, Mul(p, Pow(p, a, k), bj));
    MulScaleRight(p, a, c0, Mul(p, Pow(p, a, k), bj));
    MulIntoLeft(p, a, k, bj);
    var at0 := Mul(p, a, t0);
    assert at0 == Scale(p, c0, m);
    var t1 := BinomialTerm(p, a, b, n, k + 1);
    if k == n {
      assert t1 == [];
      MulZeroRight(p, b);
      AddZero(p, at0);
      BinomTop(n);
      BinomTop(n + 1);
      assert Add(p, at0, Mul(p, b, t1)) == at0;
      assert c0 == Binom(n + 1, k + 1) % p;
      assert t == Add(p, at0, Mul(p, b, t1));
    } else {
      var c1 := Binom(n, k + 1) % p;
      var j1 := j - 1;
      assert t1 == Scale(p, c1, Mul(p, Pow(p, a, k + 1), Pow(p, b, j1)));
      MulScaleRight(p, b, c1, Mul(p, Pow(p, a, k + 1), Pow(p, b, j1)));
      MulIntoRight(p, b, Pow(p, a, k + 1), j1);
      var bt1 := Mul(p, b, t1);
      assert bt1 == Scale(p, c1, m);
      ScaleAddK(p, c0, c1, m);
      SumResidues(Binom(n + 1, k + 1), Binom(n, k), Binom(n, k + 1), p);
      assert Add(p, at0, bt1) == Scale(p, AddMod(c0, c1, p), m);
      assert t == Add(p, at0, bt1);
    }
  }

  /** Pascal's rule on partial sums. */
  lemma {:induction false} PascalSum(p: int, a: seq<int>, b: seq<int>, n: nat, k: nat)
    requires IsModulus(p) && IsPoly(p, a) && IsPoly(p, b) && k <= n + 1
    ensures Expansion(p, a, b, n + 1, k + 1) ==
            Add(p, Mul(p, a, Expansion(p, a, b, n, k)), Mul(p, b, Expansion(p, a, b, n, k + 1)))
    decreases k
  {
    if k == 0 {
      PascalBase(p, a, b, n);
    } else {
      var j := k - 1;
      assert j + 1 == k;
      PascalSum(p, a, b, n, j);
      PascalTerm(p, a, b, n, j);
      assert Expansion(p, a, b, n + 1, j + 1) == Expansion(p, a, b, n + 1, k);
      assert Expansion(p, a, b, n, j + 1) == Expansion(p, a, b, n, k);
      assert BinomialTerm(p, a, b, n, j + 1) == BinomialTerm(p, a, b, n, k);
      assert BinomialTerm(p, a, b, n + 1, j + 1) == BinomialTerm(p, a, b, n + 1, k);
      assert Expansion(p, a, b, n, j) == Expansion(p, a, b, n, k - 1);
      assert BinomialTerm(p, a, b, n, j) == BinomialTerm(p, a, b, n, k - 1);
      assert Expansion(p, a, b, n + 1, k) ==
             Add(p, Mul(p, a, Expansion(p, a, b, n, k - 1)), Mul(p, b, Expansion(p, a, b, n, k)));
      assert BinomialTerm(p, a, b, n + 1, k) ==
             Add(p, Mul(p, a, BinomialTerm(p, a, b, n, k - 1)), Mul(p, b, BinomialTerm(p, a, b, n, k)));
      PascalSumStep(p, a, b, n, k);
    }
  }

  /** One step of Pascal's rule on partial sums, from the previous step and
      Pascal's rule on the terms. */
  lemma PascalSumStep(p: int, a: seq<int>, b: seq<int>, n: nat, k: nat)
    requires IsModulus(p) && IsPoly(p, a) && IsPoly(p, b) && k > 0
    requires Expansion(p, a, b, n + 1, k) ==
             Add(p, Mul(p, a, Expansion(p, a, b, n, k - 1)), Mul(p, b, Expansion(p, a, b, n, k)))
    requires BinomialTerm(p, a, b, n + 1, k) ==
             Add(p, Mul(p, a, BinomialTerm(p, a, b, n, k - 1)), Mul(p, b, BinomialTerm(p, a, b, n, k)))
    ensures Expansion(p, a, b, n + 1, k + 1) ==
            Add(p, Mul(p, a, Expansion(p, a, b, n, k)), Mul(p, b, Expansion(p, a, b, n, k + 1)))
  {
    DistribSwap(p, a, b, Expansion(p, a, b, n, k - 1), Expansion(p, a, b, n, k),
                BinomialTerm(p, a, b, n, k - 1), BinomialTerm(p, a, b, n, k));
  }

  /** Pascal's rule on the first partial sums: b^(n + 1) == a 0 + b b^n. */
  lemma PascalBase(p: int, a: seq<int>, b: seq<int>, n: nat)
    requires IsModulus(p) && IsPoly(p, a) && IsPoly(p, b)
    ensures Expansion(p, a, b, n + 1, 1) ==
            Add(p, Mul(p, a, Expansion(p, a, b, n, 0)), Mul(p, b, Expansion(p, a, b, n, 1)))
  {
    FirstTerm(p, a, b, n);
    FirstTerm(p, a, b, n + 1);
    var t := Pow(p, b, n);
    MulZeroRight(p, a);
    AddZero(p, Mul(p, b, t));
  }

  /** (a x + b y) + (a u + b v) == a (x + u) + b (y + v). */
  lemma DistribSwap(p: int, a: seq<int>, b: seq<int>, x: seq<int>, y: seq<int>, u: seq<int>, v: seq<int>)
    requires IsModulus(p) && IsPoly(p, a) && IsPoly(p, b) && IsPoly(p, x) && IsPoly(p, y) && IsPoly(p, u) && IsPoly(p, v)
    ensures Add(p, Add(p, Mul(p, a, x), Mul(p, b, y)), Add(p, Mul(p, a, u), Mul(p, b, v))) ==
            Add(p, Mul(p, a, Add(p, x, u)), Mul(p, b, Add(p, y, v)))
  {
    AddSwapMiddle(p, Mul(p, a, x), Mul(p, b, y), Mul(p, a, u), Mul(p, b, v));
    MulDistribLeft(p, a, x, u);
    MulDistribLeft(p, b, y, v);
  }

  /** The expansion of (a + b)^n starts with b^n. */
  lemma FirstTerm(p: int, a: seq<int>, b: seq<int>, n: nat)
    requires IsModulus(p) && IsPoly(p, a) && IsPoly(p, b)
    ensures BinomialTerm(p, a, b, n, 0) == Pow(p, b, n)
    ensures Expansion(p, a, b, n, 1) == Pow(p, b, n)
  {
    var t := Pow(p, b, n);
    PowCong(p, b);
    ModOfRange(1, p);
    assert BinomialTerm(p, a, b, n, 0) == Scale(p, 1, Mul(p, One(p), t));
    MulOne(p, t);
    ScaleOne(p, t);
    AddZero(p, t);
  }

  /** The binomial theorem: (a + b)^n is the sum of its n + 1 terms. */
  lemma {:induction false} BinomialTheorem(p: int, a: seq<int>, b: seq<int>, n: nat)
    requires IsModulus(p) && IsPoly(p, a) && IsPoly(p, b)
    ensures Pow(p, Add(p, a, b), n) == Expansion(p, a, b, n, n + 1)
    decreases n
  {
    if n == 0 {
      FirstTerm(p, a, b, 0);
      assert Pow(p, Add(p, a, b), 0) == Pow(p, b, 0);
    } else {
      var m := n - 1;
      BinomialTheorem(p, a, b, m);
      BinomialStep(p, a, b, m, n);
    }
  }

  /** The induction step of the binomial theorem. */
  lemma BinomialStep(p: int, a: seq<int>, b: seq<int>, m: nat, n: nat)
    requires IsModulus(p) && IsPoly(p, a) && IsPoly(p, b) && n == m + 1
    requires Pow(p, Add(p, a, b), m) == Expansion(p, a, b, m, m + 1)
    ensures Pow(p, Add(p, a, b), n) == Expansion(p, a, b, n, n + 1)
  {
    var s := Add(p, a, b);
    var e := Expansion(p, a, b, m, m + 1);
    assert Pow(p, s, n) == Mul(p, s, Pow(p, s, m));
    MulDistribRight(p, a, b, e);
    assert BinomialTerm(p, a, b, m, m + 1) == [];
    AddZero(p, e);
    assert Expansion(p, a, b, m, m + 2) == e;
    PascalSum(p, a, b, m, m + 1);
    assert Expansion(p, a, b, m + 1, m + 2) == Add(p, Mul(p, a, e), Mul(p, b, e));
    assert Expansion(p, a, b, n, n + 1) == Expansion(p, a, b, m + 1, m + 2);
  }

  /** The middle terms of (a + b)^p vanish for a prime p: the partial sums
      up to term p - 1 are b^p. */
  lemma {:induction false} ExpansionMiddle(p: int, a: seq<int>, b: seq<int>, k: nat)
    requires IsPrime(p) && IsPoly(p, a) && IsPoly(p, b) && 1 <= k <= p
    ensures Expansion(p, a, b, p, k) == Pow(p, b, p)
    decreases k
  {
    var bp := Pow(p, b, p);
    if k == 1 {
      FirstTerm(p, a, b, p);
    } else {
      var j := k - 1;
      ExpansionMiddle(p, a, b, j);
      BinomPrime(p, j);
      var m := Mul(p, Pow(p, a, j), Pow(p, b, p - j));
      ScaleZero(p, m);
      assert BinomialTerm(p, a, b, p, j) == [];
      AddZero(p, bp);
      assert Expansion(p, a, b, p, k) == Add(p, Expansion(p, a, b, p, j), BinomialTerm(p, a, b, p, j));
    }
  }

  /** The freshman's dream: (a + b)^p == a^p + b^p in Z_p[x]. */
  lemma FreshmansDream(p: int, a: seq<int>, b: seq<int>)
    requires IsPrime(p) && IsPoly(p, a) && IsPoly(p, b)
    ensures Pow(p, Add(p, a, b), p) == Add(p, Pow(p, a, p), Pow(p, b, p))
  {
    var ap := Pow(p, a, p);
    BinomialTheorem(p, a, b, p);
    ExpansionMiddle(p, a, b, p);
    BinomTop(p);
    ModOfRange(1, p);
    assert Pow(p, b, 0) == One(p);
    MulOne(p, ap);
    ScaleOne(p, ap);
    AddComm(p, Pow(p, b, p), ap);
  }

  // ---------------------------------------------------------------------
  // Constants and Fermat's little theorem

  /** The sum of two constants is the constant of their residue sum. */
  lemma AddConst(p: int, x: int, y: int)
    requires IsModulus(p) && InRange(x, p) && InRange(y, p)
    ensures Add(p, Const(p, x), Const(p, y)) == Const(p, AddMod(x, y, p))
  {
    if x != 0 || y != 0 {
      assert Tl(Const(p, x)) == [] && Tl(Const(p, y)) == [];
    }
  }

  /** A power of a constant is the constant of the power's residue. */
  lemma {:induction false} PowConst(p: int, c: int, n: nat)
    requires IsModulus(p) && InRange(c, p)
    ensures InRange(Power(c, n) % p, p)
    ensures Pow(p, Const(p, c), n) == Const(p, Power(c, n) % p)
    decreases n
  {
    if n == 0 {
      ModOfRange(1, p);
    } else {
      var m := n - 1;
      PowConst(p, c, m);
      PowConstStep(p, c, m, n);
    }
  }

  /** The induction step of PowConst. */
  lemma PowConstStep(p: int, c: int, m: nat, n: nat)
    requires IsModulus(p) && InRange(c, p) && n == m + 1
    requires InRange(Power(c, m) % p, p) && Pow(p, Const(p, c), m) == Const(p, Power(c, m) % p)
    ensures InRange(Power(c, n) % p, p) && Pow(p, Const(p, c), n) == Const(p, Power(c, n) % p)
  {
    var x := Power(c, m) % p;
    var k := Const(p, c);
    PowUnfold(p, k, n, m);
    MulConstLeft(p, c, Const(p, x));
    ScaleConst(p, c, x);
    PowerStep(c, m, n, p);
  }

  /** The residue of c^n from the residue of c^(n - 1). */
  lemma PowerStep(c: int, m: nat, n: nat, p: int)
    requires IsModulus(p) && InRange(c, p) && n == m + 1
    ensures InRange(Power(c, m) % p, p) && MulMod(c, Power(c, m) % p, p) == Power(c, n) % p
  {
    MulModIsMod(c, Power(c, m) % p, p);
    ModMulRight(c, Power(c, m), p);
  }

  /** c times the constant x is the constant c x. */
  lemma ScaleConst(p: int, c: int, x: int)
    requires IsModulus(p) && InRange(c, p) && InRange(x, p)
    ensures Scale(p, c, Const(p, x)) == Const(p, MulMod(c, x, p))
  {
    if x != 0 {
      assert Tl(Const(p, x)) == [];
    }
  }

  /** 0^n == 0 and 1^n == 1 for n >= 1. */
  lemma {:induction false} PowerTrivial(n: nat)
    requires n >= 1
    ensures Power(0, n) == 0 && Power(1, n) == 1
    decreases n
  {
    if n > 1 {
      PowerTrivial(n - 1);
    }
  }

  /** Fermat's little theorem: c^p == c modulo a prime p. */
  lemma {:induction false} Fermat(p: int, c: int)
    requires IsPrime(p) && InRange(c, p)
    ensures Power(c, p) % p == c
    decreases c
  {
    PowerTrivial(p);
    if c == 0 {
      ModOfRange(0, p);
    } else {
      var d := c - 1;
      Fermat(p, d);
      var one := Const(p, 1);
      AddConst(p, d, 1);
      assert AddMod(d, 1, p) == c;
      FreshmansDream(p, Const(p, d), one);
      PowConst(p, d, p);
      PowConst(p, 1, p);
      PowConst(p, c, p);
      ModOfRange(1, p);
      assert Const(p, Power(c, p) % p) == Add(p, Const(p, d), one);
      assert Hd(Const(p, Power(c, p) % p)) == Hd(Const(p, c));
    }
  }
}
