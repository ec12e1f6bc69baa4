/** Integer and modular arithmetic underlying the coefficient field Z_p:
    Euclidean remainders, integer Bezout coefficients, inverses modulo a
    prime and integer powers. */
module ModArith {

  /** A modulus the coefficient rings of this model accept. */
  predicate IsModulus(p: int) { p >= 2 }

  /** p is a prime number: no divisor strictly between 1 and p. */
  predicate IsPrime(p: int) {
    p >= 2 && forall d :: 2 <= d < p ==> p % d != 0
  }

  /** Integer.MAX_VALUE, the largest 32-bit signed integer. */
  const MaxInt: int := 2147483647

  /** x is a canonical residue modulo p. */
  predicate InRange(x: int, p: int) { 0 <= x < p }

  lemma MulAtLeast(d: int, p: int)
    requires d >= 1 && p > 0
    ensures d * p >= p
  {
    var e := d - 1;
    assert d * p == e * p + p;
  }

  /** Euclidean division is unique. */
  lemma ModUnique(x: int, p: int, q: int, r: int)
    requires p > 0 && 0 <= r < p && x == q * p + r
    ensures x % p == r && x / p == q
  {
    var q0, r0 := x / p, x % p;
    assert x == q0 * p + r0;
    var d := q - q0;
    assert d * p == q * p - q0 * p;
    assert d * p == r0 - r;
    if d >= 1 {
      MulAtLeast(d, p);
    } else if d <= -1 {
      MulAtLeast(-d, p);
    }
  }

  lemma ModAddMultiple(x: int, k: int, p: int)
    requires p > 0
    ensures (x + k * p) % p == x % p
  {
    var q := x / p;
    assert x + k * p == (q + k) * p + x % p;
    ModUnique(x + k * p, p, q + k, x % p);
  }

  lemma ModOfRange(x: int, p: int)
    requires 0 <= x < p
    ensures x % p == x
  {
    ModUnique(x, p, 0, x);
  }

  lemma ModAddLeft(a: int, b: int, p: int)
    requires p > 0
    ensures (a % p + b) % p == (a + b) % p
  {
    ModAddMultiple(a % p + b, a / p, p);
  }

  lemma ModAddRight(a: int, b: int, p: int)
    requires p > 0
    ensures (a + b % p) % p == (a + b) % p
  {
    ModAddLeft(b, a, p);
  }

  lemma ModSubRight(a: int, b: int, p: int)
    requires p > 0
    ensures (a - b % p) % p == (a - b) % p
  {
    ModAddMultiple(a - b % p, -(b / p), p);
    assert a - b % p + (-(b / p)) * p == a - b;
  }

  lemma ModMulLeft(a: int, b: int, p: int)
    requires p > 0
    ensures ((a % p) * b) % p == (a * b) % p
  {
    var q := a / p;
    assert a * b == (a % p) * b + (q * b) * p;
    ModAddMultiple((a % p) * b, q * b, p);
  }

  lemma ModMulRight(a: int, b: int, p: int)
    requires p > 0
    ensures (a * (b % p)) % p == (a * b) % p
  {
    ModMulLeft(b, a, p);
  }

  lemma ModMulBoth(a: int, b: int, p: int)
    requires p > 0
    ensures ((a % p) * (b % p)) % p == (a * b) % p
  {
    ModMulLeft(a, b % p, p);
    ModMulRight(a, b, p);
  }

  /** Multiplication of residues is associative. */
  lemma ModMulAssoc(a: int, b: int, c: int, p: int)
    requires p > 0
    ensures (((a * b) % p) * c) % p == (a * ((b * c) % p)) % p
  {
    ModMulLeft(a * b, c, p);
    ModMulRight(a, b * c, p);
    assert (a * b) * c == a * (b * c);
  }

  /** Multiplication distributes over addition of residues. */
  lemma ModMulAdd(k: int, a: int, b: int, p: int)
    requires p > 0
    ensures (k * ((a + b) % p)) % p == ((k * a) % p + (k * b) % p) % p
  {
    ModMulRight(k, a + b, p);
    assert k * (a + b) == k * a + k * b;
    ModAddLeft(k * a, (k * b) % p, p);
    ModAddRight(k * a, k * b, p);
  }

  /** One step of extended Euclid: Bezout coefficients and common divisors
      of (b, a mod b) carry over to (a, b). */
  lemma ExtGcdStep(a: int, b: int, g: int, s: int, t: int)
    requires b > 0 && g == b * s + (a % b) * t
    ensures g == a * t + b * (s - (a / b) * t)
    ensures g > 0 && b % g == 0 && (a % b) % g == 0 ==> a % g == 0
  {
    var q := a / b;
    assert a == q * b + a % b;
    assert (a - q * b) * t == a * t - (q * b) * t;
    assert (q * b) * t == b * (q * t);
    assert b * (s - q * t) == b * s - b * (q * t);
    if g > 0 && b % g == 0 && (a % b) % g == 0 {
      var kb, kr := b / g, (a % b) / g;
      assert b == kb * g;
      assert a % b == kr * g;
      assert q * b == (q * kb) * g;
      assert a == (q * kb + kr) * g;
      ModUnique(a, g, q * kb + kr, 0);
    }
  }

  /** Integer extended Euclid: the gcd of a and b with Bezout coefficients. */
  function ExtGcd(a: nat, b: nat): (r: (int, int, int))
    ensures r.0 >= 0 && r.0 == a * r.1 + b * r.2
    ensures r.0 > 0 ==> a % r.0 == 0 && b % r.0 == 0
    ensures r.0 == 0 <==> a == 0 && b == 0
    decreases b
  {
    if b == 0 then
      (a, 1, 0)
    else
      var (g, s, t) := ExtGcd(b, a % b);
      ExtGcdStep(a, b, g, s, t);
      (g, t, s - (a / b) * t)
  }

  /** A positive divisor of a positive number is at most that number. */
  lemma DivisorAtMost(g: int, x: int)
    requires g > 0 && x > 0 && x % g == 0
    ensures g <= x
  {
    var k := x / g;
    assert x == k * g;
    MulAtLeast(k, g);
  }

  /** The inverse of a nonzero residue modulo a prime. */
  function Inverse(a: int, p: int): (r: int)
    requires IsPrime(p) && a % p != 0
    ensures InRange(r, p) && (a * r) % p == 1
  {
    var a0 := a % p;
    var (g, s, t) := ExtGcd(a0, p);
    assert g == 1 by {
      DivisorAtMost(g, a0);
    }
    assert (a0 * s) % p == 1 by {
      ModAddMultiple(a0 * s, t, p);
      assert a0 * s + t * p == 1;
      ModOfRange(1, p);
    }
    ModMulRight(a0, s, p);
    ModMulLeft(a, s % p, p);
    s % p
  }

  /** Z_p has no zero divisors. */
  lemma NoZeroDivisors(a: int, b: int, p: int)
    requires IsPrime(p) && a % p != 0 && b % p != 0
    ensures (a * b) % p != 0
  {
    var ia := Inverse(a, p);
    var ab, aia := a * b, a * ia;
    assert ab * ia == aia * b;
    ModMulLeft(ab, ia, p);
    ModMulLeft(aia, b, p);
    assert (aia % p) * b == b;
    if ab % p == 0 {
      assert (ab % p) * ia == 0;
      ModOfRange(0, p);
    }
  }

  /** Sum of two residues, by one conditional subtraction. */
  function AddMod(x: int, y: int, p: int): (r: int)
    requires InRange(x, p) && InRange(y, p)
    ensures InRange(r, p)
  {
    if x + y >= p then x + y - p else x + y
  }

  lemma AddModIsMod(x: int, y: int, p: int)
    requires InRange(x, p) && InRange(y, p)
    ensures AddMod(x, y, p) == (x + y) % p
  {
    if x + y >= p {
      ModUnique(x + y, p, 1, x + y - p);
    } else {
      ModUnique(x + y, p, 0, x + y);
    }
  }

  /** Difference of two residues, by one conditional addition. */
  function SubMod(x: int, y: int, p: int): (r: int)
    requires InRange(x, p) && InRange(y, p)
    ensures InRange(r, p) && (r == 0 <==> x == y)
  {
    if x >= y then x - y else x - y + p
  }

  lemma SubModIsMod(x: int, y: int, p: int)
    requires InRange(x, p) && InRange(y, p)
    ensures SubMod(x, y, p) == (x - y) % p
  {
    if x >= y {
      ModUnique(x - y, p, 0, x - y);
    } else {
      ModUnique(x - y, p, -1, x - y + p);
    }
  }

  lemma AddModAssoc(x: int, y: int, z: int, p: int)
    requires InRange(x, p) && InRange(y, p) && InRange(z, p)
    ensures AddMod(AddMod(x, y, p), z, p) == AddMod(x, AddMod(y, z, p), p)
  {
  }

  /** Product of two residues, defined by repeated addition of residues so
      that reasoning about polynomials stays within linear arithmetic;
      MulModIsMod ties it to the integer product. */
  function MulMod(k: int, x: int, p: int): (r: int)
    requires InRange(k, p) && InRange(x, p)
    ensures InRange(r, p)
    decreases x
  {
    if x == 0 then 0 else AddMod(MulMod(k, x - 1, p), k, p)
  }

  lemma {:induction false} MulModIsMod(k: int, x: int, p: int)
    requires InRange(k, p) && InRange(x, p)
    ensures MulMod(k, x, p) == (k * x) % p
    decreases x
  {
    if x == 0 {
      ModOfRange(0, p);
    } else {
      MulModIsMod(k, x - 1, p);
      var m := MulMod(k, x - 1, p);
      AddModIsMod(m, k, p);
      ModAddLeft(k * (x - 1), k, p);
      assert k * (x - 1) + k == k * x;
    }
  }

  lemma MulModComm(k: int, x: int, p: int)
    requires InRange(k, p) && InRange(x, p)
    ensures MulMod(k, x, p) == MulMod(x, k, p)
  {
    MulModIsMod(k, x, p);
    MulModIsMod(x, k, p);
    assert k * x == x * k;
  }

  lemma MulModOne(x: int, p: int)
    requires IsModulus(p) && InRange(x, p)
    ensures MulMod(1, x, p) == x && MulMod(x, 1, p) == x
  {
    MulModIsMod(1, x, p);
    MulModComm(1, x, p);
    ModOfRange(x, p);
  }

  lemma MulModZero(x: int, p: int)
    requires IsModulus(p) && InRange(x, p)
    ensures MulMod(0, x, p) == 0 && MulMod(x, 0, p) == 0
  {
    MulModIsMod(0, x, p);
    MulModComm(0, x, p);
    ModOfRange(0, p);
  }

  lemma MulModAssoc(k: int, j: int, x: int, p: int)
    requires InRange(k, p) && InRange(j, p) && InRange(x, p)
    ensures MulMod(k, MulMod(j, x, p), p) == MulMod(MulMod(k, j, p), x, p)
  {
    var jx, kj := MulMod(j, x, p), MulMod(k, j, p);
    MulModIsMod(j, x, p);
    MulModIsMod(k, j, p);
    MulModIsMod(k, jx, p);
    MulModIsMod(kj, x, p);
    ModMulAssoc(k, j, x, p);
  }

  /** k * (x + y) == k * x + k * y on residues. */
  lemma MulModDistrib(k: int, x: int, y: int, p: int)
    requires InRange(k, p) && InRange(x, p) && InRange(y, p)
    ensures MulMod(k, AddMod(x, y, p), p) == AddMod(MulMod(k, x, p), MulMod(k, y, p), p)
  {
    var s, kx, ky := AddMod(x, y, p), MulMod(k, x, p), MulMod(k, y, p);
    AddModIsMod(x, y, p);
    MulModIsMod(k, s, p);
    MulModIsMod(k, x, p);
    MulModIsMod(k, y, p);
    AddModIsMod(kx, ky, p);
    ModMulAdd(k, x, y, p);
  }

  /** (j + k) * x == j * x + k * x on residues. */
  lemma MulModDistribLeft(j: int, k: int, x: int, p: int)
    requires InRange(j, p) && InRange(k, p) && InRange(x, p)
    ensures MulMod(AddMod(j, k, p), x, p) == AddMod(MulMod(j, x, p), MulMod(k, x, p), p)
  {
    MulModComm(AddMod(j, k, p), x, p);
    MulModDistrib(x, j, k, p);
    MulModComm(j, x, p);
    MulModComm(k, x, p);
  }

  /** (p - 1) is the residue of -1: its square is one. */
  lemma MinusOneSquared(p: int)
    requires IsModulus(p)
    ensures MulMod(p - 1, p - 1, p) == 1
  {
    MulModIsMod(p - 1, p - 1, p);
    assert (p - 1) * (p - 1) == 1 + (p - 2) * p;
    ModAddMultiple(1, p - 2, p);
    ModOfRange(1, p);
  }

  /** Multiplying by y^-1 and then by y gives back x. */
  lemma MulModInverse(x: int, y: int, p: int)
    requires IsPrime(p) && InRange(x, p) && InRange(y, p) && y != 0
    ensures y % p != 0 && Inverse(y, p) != 0
    ensures MulMod(MulMod(x, Inverse(y, p), p), y, p) == x
  {
    ModOfRange(y, p);
    var iy := Inverse(y, p);
    ModOfRange(0, p);
    assert y * 0 == 0;
    MulModAssoc(x, iy, y, p);
    MulModIsMod(iy, y, p);
    assert iy * y == y * iy;
    MulModOne(x, p);
    assert MulMod(x, MulMod(iy, y, p), p) == MulMod(MulMod(x, iy, p), y, p);
  }

  /** x / y is a nonzero residue when x and y are, and times y it is x. */
  lemma QuotientResidue(x: int, y: int, p: int)
    requires IsPrime(p) && InRange(x, p) && InRange(y, p) && x != 0 && y != 0
    ensures y % p != 0
    ensures MulMod(x, Inverse(y, p), p) != 0
    ensures MulMod(MulMod(x, Inverse(y, p), p), y, p) == x
  {
    MulModInverse(x, y, p);
    MulModNonzero(x, Inverse(y, p), p);
  }

  /** The product of two nonzero residues modulo a prime is nonzero. */
  lemma MulModNonzero(x: int, y: int, p: int)
    requires IsPrime(p) && InRange(x, p) && InRange(y, p) && x != 0 && y != 0
    ensures MulMod(x, y, p) != 0
  {
    ModOfRange(x, p);
    ModOfRange(y, p);
    NoZeroDivisors(x, y, p);
    MulModIsMod(x, y, p);
  }

  /** Integer power. */
  function Power(b: int, e: nat): int
    decreases e
  {
    if e == 0 then 1 else b * Power(b, e - 1)
  }

  lemma {:induction false} PowerAdd(b: int, m: nat, n: nat)
    ensures Power(b, m + n) == Power(b, m) * Power(b, n)
    decreases m
  {
    if m > 0 {
      PowerAdd(b, m - 1, n);
      assert Power(b, m + n) == b * Power(b, m - 1 + n);
    }
  }

  lemma {:induction false} PowerSquare(b: int, n: nat)
    ensures Power(b * b, n) == Power(b, 2 * n)
    decreases n
  {
    if n > 0 {
      PowerSquare(b, n - 1);
      assert Power(b, 2 * n) == b * (b * Power(b, 2 * (n - 1)));
    }
  }

  lemma {:induction false} PowerMul(b: int, m: nat, n: nat)
    ensures Power(Power(b, m), n) == Power(b, m * n)
    decreases n
  {
    if n > 0 {
      PowerMul(b, m, n - 1);
      PowerAdd(b, m, m * (n - 1));
      assert m * n == m + m * (n - 1);
    }
  }

  /** Reducing the base modulo p does not change a power modulo p. */
  lemma {:induction false} PowerModBase(b: int, n: nat, p: int)
    requires p > 0
    ensures Power(b % p, n) % p == Power(b, n) % p
    decreases n
  {
    if n > 0 {
      PowerModBase(b, n - 1, p);
      ModMulRight(b % p, Power(b % p, n - 1), p);
      ModMulRight(b % p, Power(b, n - 1), p);
      ModMulLeft(b, Power(b, n - 1), p);
    }
  }
}
