/** The default operations of the coefficient-domain interface, instantiated
    for the one domain this model uses: the integers modulo p (Z_p), whose
    elements are the residues 0 .. p-1. */
module Domain {
  import opened Wrappers
  import opened ModArith

  /** What a domain reports about itself: whether it is a field and its
      cardinality (None stands for an infinite domain). */
  datatype DomainInfo = DomainInfo(isField: bool, size: Option<nat>)

  /** Z_p is a finite domain of p elements and a field when p is prime. */
  function ZpInfo(p: nat): DomainInfo {
    DomainInfo(IsPrime(p), Some(p))
  }

  predicate IsFinite(d: DomainInfo) { d.size.Some? }

  predicate IsFiniteField(d: DomainInfo) { d.isField && IsFinite(d) }

  /** Z_p modulo a prime is a finite field of cardinality p; modulo a
      composite number it is finite but not a field. */
  lemma ZpFiniteField(p: nat)
    ensures IsFinite(ZpInfo(p)) && ZpInfo(p).size == Some(p)
    ensures IsFiniteField(ZpInfo(p)) <==> IsPrime(p)
  {
  }

  /** `valueOf(long)`: the residue of an arbitrary integer. */
  function ValueOf(v: int, p: int): (r: int)
    requires IsModulus(p)
    ensures InRange(r, p) && (r - v) % p == 0
  {
    assert v % p - v == 0 + (-(v / p)) * p;
    ModAddMultiple(0, -(v / p), p);
    v % p
  }

  /** `getNegativeOne()`: the negation of one. */
  function NegativeOne(p: int): (r: int)
    requires IsModulus(p)
    ensures InRange(r, p) && (r + 1) % p == 0
  {
    ModAddMultiple(0, 1, p);
    (-1) % p
  }

  /** `isMinusOne(e)`: e equals the negation of one. That is p - 1, the one
      residue whose successor is a multiple of p. */
  function IsMinusOne(e: int, p: int): (r: bool)
    requires IsModulus(p)
    ensures r <==> e == p - 1
    ensures InRange(e, p) ==> (r <==> (e + 1) % p == 0)
  {
    ModUnique(-1, p, -1, p - 1);
    assert InRange(e, p) && e + 1 < p ==> (e + 1) % p == e + 1 by {
      if InRange(e, p) && e + 1 < p {
        ModUnique(e + 1, p, 0, e + 1);
      }
    }
    NegativeOne(p) == e
  }

  /** Z_p's `divideAndRemainder`: the quotient a * b^-1 and a zero remainder;
      dividing by zero fails because zero has no inverse. */
  function DivideAndRemainder(a: int, b: int, p: int): (r: Result<(int, int)>)
    requires IsPrime(p)
    ensures r.Success? <==> b % p != 0
    ensures r.Success? ==> InRange(r.value.0, p) && r.value.1 == 0
  {
    if b % p == 0 then Failure(Arithmetic("not invertible"))
    else Success(((a * Inverse(b, p)) % p, 0))
  }

  /** `divideExact`: the quotient when the remainder is zero, an arithmetic
      error otherwise. */
  function DivideExact(a: int, b: int, p: int): (r: Result<int>)
    requires IsPrime(p)
    ensures r.Success? <==> b % p != 0
    ensures r.Success? ==> InRange(r.value, p) && (r.value * b) % p == a % p
  {
    match DivideAndRemainder(a, b, p)
    case Failure(e) => Failure(e)
    case Success((q, rem)) =>
      if rem != 0 then Failure(Arithmetic("not divisible"))
      else
        QuotientTimesDivisor(a, b, p);
        Success(q)
  }

  /** (a * b^-1) * b == a in Z_p. */
  lemma QuotientTimesDivisor(a: int, b: int, p: int)
    requires IsPrime(p) && b % p != 0
    ensures (((a * Inverse(b, p)) % p) * b) % p == a % p
  {
    var ib := Inverse(b, p);
    ModMulLeft(a * ib, b, p);
    assert (a * ib) * b == a * (ib * b);
    ModMulRight(a, ib * b, p);
    assert (ib * b) % p == 1;
    assert a * 1 == a;
  }

  /** `divideOrNull`: `a` itself when the divisor is one, None when the
      remainder is nonzero, the quotient otherwise; the error of
      `divideAndRemainder` propagates. */
  function DivideOrNull(a: int, b: int, p: int): (r: Result<Option<int>>)
    requires IsPrime(p)
    ensures b == 1 ==> r == Success(Some(a))
    ensures b != 1 ==> (r.Success? <==> b % p != 0)
    ensures r.Success? && b != 1 ==> r.value.Some? && InRange(r.value.value, p)
                                      && (r.value.value * b) % p == a % p
  {
    if b == 1 then Success(Some(a))
    else
      match DivideAndRemainder(a, b, p)
      case Failure(e) => Failure(e)
      case Success((q, rem)) =>
        if rem != 0 then Success(None)
        else
          QuotientTimesDivisor(a, b, p);
          Success(Some(q))
  }

  lemma MulAssociates(a: int, b: int, c: int)
    ensures (a * b) * c == a * (b * c)
  {
  }

  /** One round of square-and-multiply: consuming the low bit of e keeps
      result * k2p^e unchanged modulo p. */
  lemma PowStep(result: int, k2p: int, e: nat, p: int)
    requires p > 0
    ensures ((if e % 2 != 0 then (result * k2p) % p else result)
              * Power((k2p * k2p) % p, e / 2)) % p
            == (result * Power(k2p, e)) % p
  {
    var n := e / 2;
    var sq := (k2p * k2p) % p;
    PowerModBase(k2p * k2p, n, p);
    PowerSquare(k2p, n);
    ModMulRight(result, Power(sq, n), p);
    ModMulRight(result, Power(k2p * k2p, n), p);
    if e % 2 != 0 {
      assert e == 2 * n + 1;
      var x := Power(k2p, 2 * n);
      PowerAdd(k2p, 1, 2 * n);
      assert Power(k2p, 1) == k2p;
      ModMulLeft(result * k2p, Power(sq, n), p);
      ModMulRight(result * k2p, Power(sq, n), p);
      ModMulRight(result * k2p, Power(k2p * k2p, n), p);
      MulAssociates(result, k2p, x);
    } else {
      assert e == 2 * n;
    }
  }

  /** `pow`: square-and-multiply exponentiation; a negative exponent is an
      illegal argument. */
  method Pow(base: int, exponent: int, p: int) returns (r: Result<int>)
    requires IsModulus(p) && InRange(base, p)
    ensures exponent < 0 <==> r.Failure?
    ensures exponent >= 0 ==> r == Success(Power(base, exponent) % p)
  {
    if exponent < 0 {
      return Failure(IllegalArgument("negative exponent"));
    }
    var result := 1;
    var k2p := base;
    var e: nat := exponent;
    ModOfRange(1, p);
    while true
      invariant InRange(result, p) && InRange(k2p, p)
      invariant (result * Power(k2p, e)) % p == Power(base, exponent) % p
      decreases e
    {
      PowStep(result, k2p, e, p);
      if e % 2 != 0 {
        result := (result * k2p) % p;
      }
      e := e / 2;
      if e == 0 {
        ModOfRange(result, p);
        return Success(result);
      }
      k2p := (k2p * k2p) % p;
    }
  }

  /** `pow(b, 0)` is one, for every base. */
  lemma PowZero(base: int, p: int)
    requires IsModulus(p)
    ensures Power(base, 0) % p == 1
  {
    ModOfRange(1, p);
  }

  /** `createZeroesArray`: a fresh array of n zeros. */
  method CreateZeroesArray(n: nat) returns (arr: array<int>)
    ensures fresh(arr) && arr.Length == n
    ensures forall i :: 0 <= i < n ==> arr[i] == 0
  {
    arr := new int[n];
    var i := 0;
    while i < n
      invariant 0 <= i <= n
      invariant forall j :: 0 <= j < i ==> arr[j] == 0
    {
      arr[i] := 0;
      i := i + 1;
    }
  }

  /** `valueOf(long[])`: a fresh array holding each value converted to Z_p. */
  method ValueOfArray(vals: array<int>, p: int) returns (arr: array<int>)
    requires IsModulus(p)
    ensures fresh(arr) && arr.Length == vals.Length
    ensures forall i :: 0 <= i < vals.Length ==> arr[i] == ValueOf(vals[i], p)
  {
    arr := new int[vals.Length];
    var i := 0;
    while i < vals.Length
      invariant 0 <= i <= vals.Length
      invariant forall j :: 0 <= j < i ==> arr[j] == ValueOf(vals[j], p)
    {
      arr[i] := ValueOf(vals[i], p);
      i := i + 1;
    }
  }

  /** `setToValueOf`: converts every entry to Z_p in place. */
  method SetToValueOf(data: array<int>, p: int)
    requires IsModulus(p)
    modifies data
    ensures forall i :: 0 <= i < data.Length ==> data[i] == ValueOf(old(data[i]), p)
  {
    var i := 0;
    while i < data.Length
      invariant 0 <= i <= data.Length
      invariant forall j :: 0 <= j < i ==> data[j] == ValueOf(old(data[j]), p)
      invariant forall j :: i <= j < data.Length ==> data[j] == old(data[j])
    {
      data[i] := ValueOf(data[i], p);
      i := i + 1;
    }
  }
}
