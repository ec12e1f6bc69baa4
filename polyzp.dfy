/** Univariate polynomials over Z_p with machine-word coefficients, as the
    mutable objects of the library: a coefficient array (lowest degree
    first, possibly longer than needed) and a degree field. Valid() is the
    representation invariant -- every entry a residue, the degree that of
    the array with trailing zeros removed -- and Value() the canonical
    polynomial of UPoly the object stands for. */
module PolyZp {
  import opened Wrappers
  import opened ModArith
  import opened Domain
  import opened UPoly
  import opened PolyRing
  import opened PolyDiv
  import opened PolyCoef

  /** The representative of the residue x in the symmetric range around
      zero: x itself up to p / 2, x - p above. Reducing it gives x back. */
  function SymmetricForm(x: int, p: int): (r: int)
    requires IsModulus(p) && InRange(x, p)
    ensures -(p / 2) <= r <= p / 2
    ensures ValueOf(r, p) == x
    ensures r == 0 <==> x == 0
  {
    if x <= p / 2 then
      ModOfRange(x, p);
      x
    else
      ModAddMultiple(x - p, 1, p);
      ModOfRange(x, p);
      x - p
  }

  /** c * a is the product with the constant polynomial c. */
  lemma MulConstant(p: int, c: int, b: seq<int>)
    requires IsModulus(p) && 0 < c < p && IsPoly(p, b)
    ensures Mul(p, [c], b) == Scale(p, c, b) && Mul(p, b, [c]) == Scale(p, c, b)
  {
    MulModOne(c, p);
    assert Scale(p, c, One(p)) == [c];
    MulScaleLeft(p, c, One(p), b);
    MulOne(p, b);
    MulComm(p, [c], b);
  }

  class UnivariatePolynomialZp {
    /** The modulus of the coefficient domain (fixed for the object). */
    const modulus: int
    /** Coefficients, lowest degree first. */
    var data: array<int>
    var degree: int

    ghost predicate Valid()
      reads this, data
    {
      IsModulus(modulus) && data.Length >= 1
      && (forall i :: 0 <= i < data.Length ==> InRange(data[i], modulus))
      && degree == Degree(Trim(data[..]))
    }

    /** The polynomial this object stands for. */
    function Value(): (v: seq<int>)
      reads this, data
      requires Valid()
      ensures IsPoly(modulus, v)
    {
      TrimPoly(modulus, data[..]);
      Trim(data[..])
    }

    /** The array layout behind Value(): the degree indexes the leading
        entry, entries above it are zero, and the polynomial is zero
        exactly when that entry is. */
    lemma Layout()
      requires Valid()
      ensures 0 <= degree < data.Length
      ensures forall i :: degree < i < data.Length ==> data[i] == 0
      ensures forall i: nat :: Coef(Value(), i) == if i < data.Length then data[i] else 0
      ensures Value() == [] <==> data[degree] == 0
      ensures Value() != [] ==> |Value()| == degree + 1 && UPoly.Lc(Value()) == data[degree]
      ensures Degree(Value()) == degree
    {
      forall i: nat
        ensures Coef(Value(), i) == if i < data.Length then data[i] else 0
      {
        CoefTrim(data[..], i);
      }
    }

    /** The part of Layout() that speaks of the array alone. */
    lemma TailZero()
      requires Valid()
      ensures 0 <= degree < data.Length
      ensures forall i :: degree < i < data.Length ==> data[i] == 0
    {
      Layout();
    }

    /** isZero */
    function IsZero(): (b: bool)
      reads this, data
      requires Valid()
      ensures b <==> Value() == []
    {
      Layout();
      data[degree] == 0
    }

    /** isMonic: the leading coefficient is one. */
    function IsMonic(): (b: bool)
      reads this, data
      requires Valid()
      ensures b <==> Value() != [] && UPoly.Lc(Value()) == 1
    {
      Layout();
      data[degree] == 1
    }

    /** The constructor that takes the degree from its caller. */
    constructor WithDegree(modulus: int, data: array<int>, degree: int)
      ensures this.modulus == modulus && this.data == data && this.degree == degree
    {
      this.modulus := modulus;
      this.data := data;
      this.degree := degree;
    }

    /** The constructor that fixes the degree: it scans down from the last
        entry to the highest nonzero one. */
    constructor (modulus: int, data: array<int>)
      requires IsModulus(modulus) && data.Length >= 1
      requires forall i :: 0 <= i < data.Length ==> InRange(data[i], modulus)
      ensures this.modulus == modulus && this.data == data && Valid()
      ensures Value() == Trim(data[..])
    {
      var d := data.Length - 1;
      while d > 0 && data[d] == 0
        invariant 0 <= d < data.Length
        invariant forall j :: d < j < data.Length ==> data[j] == 0
      {
        d := d - 1;
      }
      TrimAt(data[..], d);
      this.modulus := modulus;
      this.data := data;
      this.degree := d;
    }

    /** setModulusUnsafe: shares the array, keeps the degree and does not
        reduce; the result is a valid polynomial exactly when every entry
        is already a residue of the new modulus. */
    method SetModulusUnsafe(newModulus: int) returns (r: UnivariatePolynomialZp)
      requires Valid() && IsModulus(newModulus)
      ensures fresh(r) && r.modulus == newModulus && r.data == data && r.degree == degree
      ensures r.Valid() <==> forall i :: 0 <= i < data.Length ==> data[i] < newModulus
      ensures r.Valid() ==> r.Value() == Value()
    {
      r := new UnivariatePolynomialZp.WithDegree(newModulus, data, degree);
    }

    /** setModulus: reduces a copy of the coefficients modulo the new
        modulus; the original object is left alone. */
    method SetModulus(newModulus: int) returns (r: UnivariatePolynomialZp)
      requires Valid() && IsModulus(newModulus)
      ensures fresh(r) && fresh(r.data) && r.modulus == newModulus && r.Valid()
      ensures forall i: nat :: Coef(r.Value(), i) == ValueOf(Coef(Value(), i), newModulus)
      ensures newModulus == modulus ==> r.Value() == Value()
    {
      var newData := CopyOf(data);
      SetToValueOf(newData, newModulus);
      r := new UnivariatePolynomialZp(newModulus, newData);
      TrimReduce(data[..], newData[..], newModulus);
    }

    /** asPolyZSymmetric: the integer polynomial whose coefficients are the
        symmetric representatives of this one's. */
    method AsPolyZSymmetric() returns (r: seq<int>)
      requires Valid()
      ensures |r| == |Value()|
      ensures forall i :: 0 <= i < |r| ==> r[i] == SymmetricForm(Value()[i], modulus)
      ensures forall i :: 0 <= i < |r| ==> -(modulus / 2) <= r[i] <= modulus / 2
      ensures forall i :: 0 <= i < |r| ==> ValueOf(r[i], modulus) == Value()[i]
      ensures r == [] || r[|r| - 1] != 0
    {
      Layout();
      var newData := new int[degree + 1];
      var i := degree;
      while i >= 0
        invariant -1 <= i <= degree
        invariant forall j :: i < j <= degree ==> newData[j] == SymmetricForm(data[j], modulus)
      {
        newData[i] := SymmetricForm(data[i], modulus);
        i := i - 1;
      }
      r := Trim(newData[..]);
      forall j | 0 <= j < newData.Length
        ensures newData[..][j] == SymmetricForm(Coef(Value(), j), modulus)
      {
        assert Coef(Value(), j) == data[j];
      }
      SymmetricTrim(modulus, Value(), newData[..], degree);
    }

    /** getRange: the polynomial made of the entries from .. to - 1, the
        entries past the end of the array read as zero. */
    method GetRange(from: int, to: int) returns (r: UnivariatePolynomialZp)
      requires Valid() && 0 <= from <= data.Length && from < to
      ensures fresh(r) && fresh(r.data) && r.modulus == modulus && r.Valid()
      ensures |r.Value()| <= to - from
      ensures forall i :: 0 <= i < to - from ==> Coef(r.Value(), i) == Coef(Value(), from + i)
    {
      var newData := new int[to - from];
      var i := 0;
      while i < to - from
        invariant 0 <= i <= to - from
        invariant forall j :: 0 <= j < i ==> newData[j] == if from + j < data.Length then data[from + j] else 0
      {
        newData[i] := if from + i < data.Length then data[from + i] else 0;
        i := i + 1;
      }
      r := new UnivariatePolynomialZp(modulus, newData);
      TrimRange(data[..], newData[..], from);
    }

    /** clone: a copy with its own array. */
    method Clone() returns (r: UnivariatePolynomialZp)
      requires Valid()
      ensures fresh(r) && fresh(r.data) && r.modulus == modulus && r.degree == degree
      ensures r.data[..] == data[..] && r.Valid() && r.Value() == Value()
    {
      var newData := CopyOf(data);
      r := new UnivariatePolynomialZp.WithDegree(modulus, newData, degree);
    }

    /** createMonomial(coefficient, newDegree) as written: the degree is
        taken from the caller, so a coefficient divisible by the modulus
        leaves a nonzero degree over an all-zero array. */
    method CreateMonomialInDomainAsWritten(coefficient: int, newDegree: nat) returns (r: UnivariatePolynomialZp)
      requires Valid()
      ensures fresh(r) && fresh(r.data) && r.modulus == modulus && r.degree == newDegree
      ensures r.data.Length == newDegree + 1 && r.data[newDegree] == ValueOf(coefficient, modulus)
      ensures forall i :: 0 <= i < newDegree ==> r.data[i] == 0
      ensures r.Valid() <==> newDegree == 0 || ValueOf(coefficient, modulus) != 0
    {
      var c := ValueOf(coefficient, modulus);
      var newData := new int[newDegree + 1](i => 0);
      newData[newDegree] := c;
      r := new UnivariatePolynomialZp.WithDegree(modulus, newData, newDegree);
      if newDegree == 0 || c != 0 {
        TrimAt(newData[..], newDegree);
      } else {
        TrimAt(newData[..], 0);
      }
    }

    /** createMonomial(coefficient, newDegree) with the degree fixed from
        the array: coefficient * x^newDegree in this object's domain. */
    method CreateMonomialInDomain(coefficient: int, newDegree: nat) returns (r: UnivariatePolynomialZp)
      requires Valid()
      ensures fresh(r) && r.modulus == modulus && r.Valid()
      ensures r.Value() == Monomial(modulus, ValueOf(coefficient, modulus), newDegree)
    {
      r := CreateMonomial(modulus, coefficient, newDegree);
    }

    /** The value of a fresh array standing for v; the product in
        multiply and square is computed on values. */
    method SetValue(v: seq<int>)
      requires IsModulus(modulus) && IsPoly(modulus, v)
      modifies this
      ensures fresh(data) && Valid() && Value() == v
    {
      if v == [] {
        data := new int[1](i => 0);
        degree := 0;
        assert data[..] == [0];
      } else {
        data := new int[|v|](i requires 0 <= i < |v| => v[i]);
        degree := |v| - 1;
        assert data[..] == v;
        TrimPolyId(modulus, v);
      }
    }

    /** toZero */
    method ToZero()
      requires Valid()
      modifies this
      ensures fresh(data) && Valid() && Value() == []
    {
      SetValue([]);
    }

    /** multiply(long): every coefficient times a nonzero residue, in place;
        over a prime field the degree does not change. */
    method ScaleInPlace(k: int)
      requires Valid() && IsPrime(modulus) && 0 < k < modulus
      modifies data
      ensures Valid() && Value() == Scale(modulus, k, old(Value()))
    {
      ghost var s0 := data[..];
      TailZero();
      var i := 0;
      while i <= degree
        invariant 0 <= i <= degree + 1
        invariant forall j :: 0 <= j < i ==> data[j] == MulMod(k, s0[j], modulus)
        invariant forall j :: i <= j < data.Length ==> data[j] == s0[j]
      {
        data[i] := MulMod(k, data[i], modulus);
        i := i + 1;
      }
      MulModZero(k, modulus);
      TrimScale(modulus, k, s0, data[..]);
      TrimPoly(modulus, s0);
      ScaleLen(modulus, k, Trim(s0));
    }

    /** monic: divides by the leading coefficient in place; zero and monic
        polynomials are returned as they are. */
    method Monic() returns (r: UnivariatePolynomialZp)
      requires Valid() && IsPrime(modulus)
      modifies data
      ensures r == this && Valid() && Value() == PolyCoef.Monic(modulus, old(Value()))
    {
      r := this;
      ghost var v := Value();
      MonicLc(modulus, v);
      Layout();
      if IsMonic() {
        return;
      }
      if IsZero() {
        return;
      }
      if degree == 0 {
        data[0] := 1;
        assert data[..] == [1] + data[1..];
        TrimAt(data[..], 0);
        assert Value() == [1];
        return;
      }
      var l := data[degree];
      ModOfRange(l, modulus);
      var k := Inverse(l, modulus);
      assert k != 0 by {
        ModOfRange(0, modulus);
        assert l * 0 == 0;
      }
      ScaleInPlace(k);
    }

    /** monic(factor): the monic associate times the residue of factor.
        The zero polynomial has no leading coefficient to invert. */
    method MonicWithFactor(factor: int) returns (r: Result<UnivariatePolynomialZp>)
      requires Valid() && IsPrime(modulus)
      modifies this, data
      ensures r.Failure? <==> old(Value()) == []
      ensures r.Failure? ==> r.error.Arithmetic? && data == old(data) && unchanged(data) && degree == old(degree)
      ensures r.Success? ==> r.value == this && Valid()
      ensures r.Success? ==> Value() == Scale(modulus, ValueOf(factor, modulus), PolyCoef.Monic(modulus, old(Value())))
    {
      ghost var v := Value();
      Layout();
      if IsZero() {
        return Failure(Arithmetic("reciprocal of zero"));
      }
      var l := data[degree];
      ModOfRange(l, modulus);
      var inv := Inverse(l, modulus);
      var f := ValueOf(factor, modulus);
      var k := MulMod(f, inv, modulus);
      ScaleScale(modulus, f, inv, v);
      if k == 0 {
        ToZero();
        ScaleZero(modulus, v);
      } else {
        ScaleInPlace(k);
      }
      r := Success(this);
    }

    /** square */
    method Square() returns (r: UnivariatePolynomialZp)
      requires Valid() && IsPrime(modulus)
      modifies this, data
      ensures r == this && Valid() && Value() == Mul(modulus, old(Value()), old(Value()))
    {
      r := this;
      var v := Value();
      Layout();
      if IsZero() {
        return;
      }
      if degree == 0 {
        var c := data[0];
        assert v == [c];
        MulConstant(modulus, c, v);
        ScaleInPlace(c);
        return;
      }
      SetValue(Mul(modulus, v, v));
    }

    /** multiply: this times oth, in place. Both zero tests come before the
        check that the two moduli agree. */
    method Multiply(oth: UnivariatePolynomialZp) returns (r: Result<UnivariatePolynomialZp>)
      requires Valid() && oth.Valid() && IsPrime(modulus)
      modifies this, data
      ensures old(Value()) != [] && old(oth.Value()) != [] && oth.modulus != modulus
        <==> r.Failure?
      ensures r.Failure? ==> r.error.IllegalArgument? && data == old(data) && unchanged(data) && degree == old(degree)
      ensures r.Success? ==> r.value == this && Valid()
      ensures r.Success? && oth.modulus == modulus ==> Value() == Mul(modulus, old(Value()), old(oth.Value()))
      ensures r.Success? && oth.modulus != modulus ==> Value() == []
    {
      var a := Value();
      var b := oth.Value();
      Layout();
      oth.Layout();
      if IsZero() {
        return Success(this);
      }
      if oth.IsZero() {
        ToZero();
        MulZeroRight(modulus, a);
        return Success(this);
      }
      if this == oth {
        var s := Square();
        return Success(s);
      }
      if oth.modulus != modulus {
        return Failure(IllegalArgument("not the same modulus"));
      }
      if oth.degree == 0 {
        var c := oth.data[0];
        assert b == [c];
        MulConstant(modulus, c, a);
        ScaleInPlace(c);
        return Success(this);
      }
      if degree == 0 {
        var c := data[0];
        assert a == [c];
        MulConstant(modulus, c, b);
        SetValue(b);
        ScaleInPlace(c);
        return Success(this);
      }
      SetValue(Mul(modulus, a, b));
      r := Success(this);
    }

    /** derivative: the formal derivative, index i taken modulo p once it
        reaches the modulus. */
    method Derivative() returns (r: UnivariatePolynomialZp)
      requires Valid()
      ensures fresh(r) && r.modulus == modulus && r.Valid()
      ensures r.Value() == Deriv(modulus, Value())
    {
      ghost var v := Value();
      Layout();
      CoefDeriv(modulus, v, 0);
      if degree == 0 {
        var zero := new int[1](i => 0);
        r := new UnivariatePolynomialZp.WithDegree(modulus, zero, 0);
        assert zero[..] == [0];
        return;
      }
      assert |v| == degree + 1 && forall j :: 0 <= j <= degree ==> v[j] == data[j] by {
        forall j | 0 <= j <= degree
          ensures v[j] == data[j]
        {
          assert Coef(v, j) == data[j];
        }
      }
      var newData := DerivativeCoefficients(data, degree, modulus);
      assert newData[..] == DerivCoefs(modulus, v);
      r := new UnivariatePolynomialZp(modulus, newData);
    }
  }

  /** clone of an array. */
  method CopyOf(a: array<int>) returns (b: array<int>)
    ensures fresh(b) && b[..] == a[..]
  {
    b := new int[a.Length](i requires 0 <= i < a.Length reads a => a[i]);
    assert b[..] == a[..];
  }

  /** Entry i of the range from .. of s is entry from + i of s, or zero
      past its end; the trimmed forms then agree coefficient by
      coefficient. */
  /** Trimming the symmetric representatives of a polynomial's
      coefficients, laid out over its degree + 1 entries, keeps them all. */
  lemma SymmetricTrim(p: int, v: seq<int>, s: seq<int>, d: nat)
    requires IsModulus(p) && IsPoly(p, v) && |s| == d + 1 && Degree(v) == d
    requires forall j :: 0 <= j < |s| ==> s[j] == SymmetricForm(Coef(v, j), p)
    ensures |Trim(s)| == |v| && forall i :: 0 <= i < |v| ==> Trim(s)[i] == SymmetricForm(v[i], p)
  {
    if v == [] {
      assert s[0] == 0;
      TrimAt(s, 0);
    } else {
      assert Coef(v, d) == v[d];
      TrimAt(s, d);
      assert Trim(s) == s;
      forall i | 0 <= i < |v|
        ensures Trim(s)[i] == SymmetricForm(v[i], p)
      {
        assert Coef(v, i) == v[i];
      }
    }
  }

  lemma TrimRange(s: seq<int>, t: seq<int>, from: nat)
    requires forall j :: 0 <= j < |t| ==> t[j] == if from + j < |s| then s[from + j] else 0
    ensures |Trim(t)| <= |t|
    ensures forall j :: 0 <= j < |t| ==> Coef(Trim(t), j) == Coef(Trim(s), from + j)
  {
    forall j | 0 <= j < |t|
      ensures Coef(Trim(t), j) == Coef(Trim(s), from + j)
    {
      CoefTrim(t, j);
      CoefTrim(s, from + j);
    }
  }

  /** Reducing every entry modulo q reduces every coefficient of the
      trimmed form; entries already below q are left as they are. */
  lemma TrimReduce(s: seq<int>, t: seq<int>, q: int)
    requires IsModulus(q) && |t| == |s|
    requires forall j :: 0 <= j < |t| ==> t[j] == ValueOf(s[j], q)
    ensures forall i: nat :: Coef(Trim(t), i) == ValueOf(Coef(Trim(s), i), q)
    ensures (forall j :: 0 <= j < |s| ==> InRange(s[j], q)) ==> t == s
  {
    ModOfRange(0, q);
    forall i: nat
      ensures Coef(Trim(t), i) == ValueOf(Coef(Trim(s), i), q)
    {
      CoefTrim(t, i);
      CoefTrim(s, i);
    }
    if forall j :: 0 <= j < |s| ==> InRange(s[j], q) {
      forall j | 0 <= j < |s|
        ensures t[j] == s[j]
      {
        ModOfRange(s[j], q);
      }
    }
  }

  /** The coefficient loops of derivative: below the modulus the index
      is used as it is, from the modulus on it is reduced first. */
  method DerivativeCoefficients(data: array<int>, degree: int, p: int) returns (newData: array<int>)
    requires IsModulus(p) && 0 < degree < data.Length
    requires forall i :: 0 <= i < data.Length ==> InRange(data[i], p)
    ensures fresh(newData) && newData.Length == degree
    ensures forall j :: 0 <= j < degree ==> newData[j] == MulMod(data[j + 1], (j + 1) % p, p)
  {
    newData := new int[degree];
    if degree < p {
      var i := degree;
      while i > 0
        invariant 0 <= i <= degree
        invariant forall j :: i <= j < degree ==> newData[j] == MulMod(data[j + 1], (j + 1) % p, p)
      {
        ModOfRange(i, p);
        newData[i - 1] := MulMod(data[i], i, p);
        i := i - 1;
      }
    } else {
      var i := degree;
      while i >= p
        invariant p - 1 <= i <= degree
        invariant forall j :: i <= j < degree ==> newData[j] == MulMod(data[j + 1], (j + 1) % p, p)
      {
        newData[i - 1] := MulMod(data[i], ValueOf(i, p), p);
        i := i - 1;
      }
      while i > 0
        invariant 0 <= i < p
        invariant forall j :: i <= j < degree ==> newData[j] == MulMod(data[j + 1], (j + 1) % p, p)
      {
        ModOfRange(i, p);
        newData[i - 1] := MulMod(data[i], i, p);
        i := i - 1;
      }
    }
  }

  /** create: reduces the given coefficients in place and wraps that same
      array. */
  method Create(modulus: int, data: array<int>) returns (r: UnivariatePolynomialZp)
    requires IsModulus(modulus) && data.Length >= 1
    modifies data
    ensures fresh(r) && r.modulus == modulus && r.data == data && r.Valid()
    ensures forall i :: 0 <= i < data.Length ==> data[i] == ValueOf(old(data[i]), modulus)
    ensures |r.Value()| <= data.Length
    ensures forall i :: 0 <= i < data.Length ==> Coef(r.Value(), i) == ValueOf(old(data[i]), modulus)
  {
    SetToValueOf(data, modulus);
    r := new UnivariatePolynomialZp(modulus, data);
    r.Layout();
  }

  /** linear: cc + lc * x. */
  method Linear(cc: int, lc: int, modulus: int) returns (r: UnivariatePolynomialZp)
    requires IsModulus(modulus)
    ensures fresh(r) && r.modulus == modulus && r.Valid() && |r.Value()| <= 2
    ensures Coef(r.Value(), 0) == ValueOf(cc, modulus) && Coef(r.Value(), 1) == ValueOf(lc, modulus)
  {
    var data := new int[2](i => if i == 0 then cc else lc);
    r := Create(modulus, data);
  }

  /** createMonomial: coefficient * x^exponent, the coefficient reduced. */
  method CreateMonomial(modulus: int, coefficient: int, exponent: nat) returns (r: UnivariatePolynomialZp)
    requires IsModulus(modulus)
    ensures fresh(r) && r.modulus == modulus && r.Valid()
    ensures r.Value() == Monomial(modulus, ValueOf(coefficient, modulus), exponent)
  {
    var c := ValueOf(coefficient, modulus);
    var data := new int[exponent + 1](i => 0);
    data[exponent] := c;
    r := new UnivariatePolynomialZp(modulus, data);
    r.Layout();
    forall i: nat
      ensures Coef(r.Value(), i) == Coef(Monomial(modulus, c, exponent), i)
    {
      CoefMonomial(modulus, c, exponent, i);
    }
    CoefExt(modulus, r.Value(), Monomial(modulus, c, exponent));
  }

  /** constant: the residue of value as a polynomial of degree zero. */
  method Constant(modulus: int, value: int) returns (r: UnivariatePolynomialZp)
    requires IsModulus(modulus)
    ensures fresh(r) && r.modulus == modulus && r.Valid() && r.degree == 0
    ensures r.Value() == Const(modulus, ValueOf(value, modulus))
  {
    var c := ValueOf(value, modulus);
    var data := new int[1](i => c);
    r := new UnivariatePolynomialZp.WithDegree(modulus, data, 0);
    assert data[..] == [c];
  }

  method ZeroPolynomial(modulus: int) returns (r: UnivariatePolynomialZp)
    requires IsModulus(modulus)
    ensures fresh(r) && r.modulus == modulus && r.Valid() && r.Value() == []
  {
    r := Constant(modulus, 0);
    ModOfRange(0, modulus);
  }

  method OnePolynomial(modulus: int) returns (r: UnivariatePolynomialZp)
    requires IsModulus(modulus)
    ensures fresh(r) && r.modulus == modulus && r.Valid() && r.Value() == UPoly.One(modulus)
  {
    r := Constant(modulus, 1);
    ModOfRange(1, modulus);
  }
}
