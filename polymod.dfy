/** Arithmetic modulo a fixed nonzero polynomial m over Z_p: the remainder
    is compatible with addition, scaling and multiplication, so an operand
    may be reduced mod m first without changing the reduced result. */
module PolyModular {
  import opened ModArith
  import opened UPoly
  import opened PolyRing
  import opened PolyDiv

  /** A constant times b is b scaled by that constant. */
  lemma MulConstLeft(p: int, c: int, b: seq<int>)
    requires IsModulus(p) && InRange(c, p) && IsPoly(p, b)
    ensures Mul(p, Const(p, c), b) == Scale(p, c, b)
  {
    if c == 0 {
      ScaleZero(p, b);
    } else {
      MulUnfold(p, Const(p, c), b);
      assert Shift(p, []) == [];
      AddZero(p, Scale(p, c, b));
    }
  }

  /** A polynomial shorter than m is its own remainder. */
  lemma RemSmall(p: int, a: seq<int>, m: seq<int>)
    requires IsPrime(p) && IsPoly(p, a) && IsPoly(p, m) && m != [] && |a| < |m|
    ensures Rem(p, a, m) == a
  {
    assert DivRem(p, a, m) == ([], a);
  }

  /** Adding a multiple of m does not change the remainder. */
  lemma RemShift(p: int, q: seq<int>, r: seq<int>, m: seq<int>)
    requires IsPrime(p) && IsPoly(p, q) && IsPoly(p, r) && IsPoly(p, m) && m != []
    ensures Rem(p, Add(p, Mul(p, q, m), r), m) == Rem(p, r, m)
  {
    var qr, rr := Quot(p, r, m), Rem(p, r, m);
    DivRemIdentity(p, r, m);
    var x, y := Mul(p, q, m), Mul(p, qr, m);
    AddAssoc(p, x, y, rr);
    MulDistribRight(p, q, qr, m);
    DivRemUnique(p, Add(p, x, r), m, Add(p, q, qr), rr);
  }

  /** The remainder of a remainder is that remainder. */
  lemma RemRem(p: int, a: seq<int>, m: seq<int>)
    requires IsPrime(p) && IsPoly(p, a) && IsPoly(p, m) && m != []
    ensures Rem(p, Rem(p, a, m), m) == Rem(p, a, m)
  {
    RemSmall(p, Rem(p, a, m), m);
  }

  lemma RemAddLeft(p: int, a: seq<int>, b: seq<int>, m: seq<int>)
    requires IsPrime(p) && IsPoly(p, a) && IsPoly(p, b) && IsPoly(p, m) && m != []
    ensures Rem(p, Add(p, a, b), m) == Rem(p, Add(p, Rem(p, a, m), b), m)
  {
    var q, r := Quot(p, a, m), Rem(p, a, m);
    DivRemIdentity(p, a, m);
    AddAssoc(p, Mul(p, q, m), r, b);
    RemShift(p, q, Add(p, r, b), m);
  }

  /** Both summands may be reduced first. */
  lemma RemAddBoth(p: int, a: seq<int>, b: seq<int>, m: seq<int>)
    requires IsPrime(p) && IsPoly(p, a) && IsPoly(p, b) && IsPoly(p, m) && m != []
    ensures Rem(p, Add(p, a, b), m) == Rem(p, Add(p, Rem(p, a, m), Rem(p, b, m)), m)
  {
    var ra, rb := Rem(p, a, m), Rem(p, b, m);
    RemAddLeft(p, a, b, m);
    AddComm(p, ra, b);
    RemAddLeft(p, b, ra, m);
    AddComm(p, rb, ra);
  }

  lemma RemMulLeft(p: int, a: seq<int>, b: seq<int>, m: seq<int>)
    requires IsPrime(p) && IsPoly(p, a) && IsPoly(p, b) && IsPoly(p, m) && m != []
    ensures Rem(p, Mul(p, a, b), m) == Rem(p, Mul(p, Rem(p, a, m), b), m)
  {
    var q, r := Quot(p, a, m), Rem(p, a, m);
    DivRemIdentity(p, a, m);
    MulDistribRight(p, Mul(p, q, m), r, b);
    MulAssoc(p, q, m, b);
    MulComm(p, m, b);
    MulAssoc(p, q, b, m);
    RemShift(p, Mul(p, q, b), Mul(p, r, b), m);
  }

  /** Both factors may be reduced first. */
  lemma RemMulBoth(p: int, a: seq<int>, b: seq<int>, m: seq<int>)
    requires IsPrime(p) && IsPoly(p, a) && IsPoly(p, b) && IsPoly(p, m) && m != []
    ensures Rem(p, Mul(p, a, b), m) == Rem(p, Mul(p, Rem(p, a, m), Rem(p, b, m)), m)
  {
    var ra, rb := Rem(p, a, m), Rem(p, b, m);
    RemMulLeft(p, a, b, m);
    MulComm(p, ra, b);
    RemMulLeft(p, b, ra, m);
    MulComm(p, rb, ra);
  }

  /** The scaled operand may be reduced first. */
  lemma RemScale(p: int, k: int, a: seq<int>, m: seq<int>)
    requires IsPrime(p) && InRange(k, p) && IsPoly(p, a) && IsPoly(p, m) && m != []
    ensures Rem(p, Scale(p, k, a), m) == Rem(p, Scale(p, k, Rem(p, a, m)), m)
  {
    var c, r := Const(p, k), Rem(p, a, m);
    MulConstLeft(p, k, a);
    MulConstLeft(p, k, r);
    MulComm(p, c, a);
    MulComm(p, c, r);
    RemMulLeft(p, a, c, m);
  }
}
