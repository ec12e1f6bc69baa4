/** The ring laws of polynomials over Z_p, proved by induction on the
    head/tail view. */
module PolyRing {
  import opened ModArith
  import opened UPoly

  // ---------------------------------------------------------------------
  // Head/tail equations

  lemma AddHdTl(p: int, a: seq<int>, b: seq<int>)
    requires IsModulus(p) && IsPoly(p, a) && IsPoly(p, b)
    ensures Hd(Add(p, a, b)) == AddMod(Hd(a), Hd(b), p)
    ensures Tl(Add(p, a, b)) == Add(p, Tl(a), Tl(b))
  {
    HdTl(p, a);
    HdTl(p, b);
  }

  lemma ScaleHdTl(p: int, k: int, a: seq<int>)
    requires IsModulus(p) && InRange(k, p) && IsPoly(p, a)
    ensures Hd(Scale(p, k, a)) == MulMod(k, Hd(a), p)
    ensures Tl(Scale(p, k, a)) == Scale(p, k, Tl(a))
  {
    HdTl(p, a);
  }

  /** The defining equation of Mul also holds for the zero polynomial. */
  lemma MulUnfold(p: int, a: seq<int>, b: seq<int>)
    requires IsModulus(p) && IsPoly(p, a) && IsPoly(p, b)
    ensures Mul(p, a, b) == Add(p, Scale(p, Hd(a), b), Shift(p, Mul(p, Tl(a), b)))
  {
    HdTl(p, a);
    if a == [] {
      ScaleZero(p, b);
      assert Shift(p, []) == [];
    }
  }

  // ---------------------------------------------------------------------
  // Additive group laws

  lemma {:induction false} AddComm(p: int, a: seq<int>, b: seq<int>)
    requires IsModulus(p) && IsPoly(p, a) && IsPoly(p, b)
    ensures Add(p, a, b) == Add(p, b, a)
    decreases |a| + |b|
  {
    if a != [] || b != [] {
      AddHdTl(p, a, b);
      AddHdTl(p, b, a);
      AddComm(p, Tl(a), Tl(b));
      Ext(p, Add(p, a, b), Add(p, b, a));
    }
  }

  lemma {:induction false} AddZero(p: int, a: seq<int>)
    requires IsModulus(p) && IsPoly(p, a)
    ensures Add(p, a, []) == a && Add(p, [], a) == a
    decreases |a|
  {
    if a != [] {
      AddHdTl(p, a, []);
      AddZero(p, Tl(a));
      Ext(p, Add(p, a, []), a);
      AddComm(p, a, []);
    }
  }

  lemma AddAssocHd(p: int, a: seq<int>, b: seq<int>, c: seq<int>)
    requires IsModulus(p) && IsPoly(p, a) && IsPoly(p, b) && IsPoly(p, c)
    ensures Hd(Add(p, Add(p, a, b), c)) == Hd(Add(p, a, Add(p, b, c)))
  {
    var ab, bc := Add(p, a, b), Add(p, b, c);
    AddHdTl(p, a, b);
    AddHdTl(p, b, c);
    AddHdTl(p, ab, c);
    AddHdTl(p, a, bc);
    AddModAssoc(Hd(a), Hd(b), Hd(c), p);
  }

  lemma AddAssocTl(p: int, a: seq<int>, b: seq<int>, c: seq<int>)
    requires IsModulus(p) && IsPoly(p, a) && IsPoly(p, b) && IsPoly(p, c)
    ensures Tl(Add(p, Add(p, a, b), c)) == Add(p, Add(p, Tl(a), Tl(b)), Tl(c))
    ensures Tl(Add(p, a, Add(p, b, c))) == Add(p, Tl(a), Add(p, Tl(b), Tl(c)))
  {
    var ab, bc := Add(p, a, b), Add(p, b, c);
    AddHdTl(p, a, b);
    AddHdTl(p, b, c);
    AddHdTl(p, ab, c);
    AddHdTl(p, a, bc);
  }

  lemma {:induction false} AddAssoc(p: int, a: seq<int>, b: seq<int>, c: seq<int>)
    requires IsModulus(p) && IsPoly(p, a) && IsPoly(p, b) && IsPoly(p, c)
    ensures Add(p, Add(p, a, b), c) == Add(p, a, Add(p, b, c))
    decreases |a| + |b| + |c|
  {
    if a != [] || b != [] || c != [] {
      HdTl(p, a);
      HdTl(p, b);
      HdTl(p, c);
      AddAssocHd(p, a, b, c);
      AddAssocTl(p, a, b, c);
      AddAssoc(p, Tl(a), Tl(b), Tl(c));
      Ext(p, Add(p, Add(p, a, b), c), Add(p, a, Add(p, b, c)));
    }
  }

  /** Add(Add(w, x), Add(y, z)) == Add(Add(w, y), Add(x, z)). */
  lemma AddSwapMiddle(p: int, w: seq<int>, x: seq<int>, y: seq<int>, z: seq<int>)
    requires IsModulus(p) && IsPoly(p, w) && IsPoly(p, x) && IsPoly(p, y) && IsPoly(p, z)
    ensures Add(p, Add(p, w, x), Add(p, y, z)) == Add(p, Add(p, w, y), Add(p, x, z))
  {
    AddAssoc(p, w, x, Add(p, y, z));
    AddAssoc(p, x, y, z);
    AddComm(p, x, y);
    AddAssoc(p, y, x, z);
    AddAssoc(p, w, y, Add(p, x, z));
  }

  // ---------------------------------------------------------------------
  // Scaling

  lemma {:induction false} ScaleZero(p: int, a: seq<int>)
    requires IsModulus(p) && IsPoly(p, a)
    ensures Scale(p, 0, a) == []
    decreases |a|
  {
    if a != [] {
      HdTl(p, a);
      ScaleZero(p, Tl(a));
      MulModZero(Hd(a), p);
    }
  }

  lemma {:induction false} ScaleOne(p: int, a: seq<int>)
    requires IsModulus(p) && IsPoly(p, a)
    ensures Scale(p, 1, a) == a
    decreases |a|
  {
    if a != [] {
      HdTl(p, a);
      ScaleOne(p, Tl(a));
      MulModOne(Hd(a), p);
    }
  }

  lemma {:induction false} ScaleAdd(p: int, k: int, a: seq<int>, b: seq<int>)
    requires IsModulus(p) && InRange(k, p) && IsPoly(p, a) && IsPoly(p, b)
    ensures Scale(p, k, Add(p, a, b)) == Add(p, Scale(p, k, a), Scale(p, k, b))
    decreases |a| + |b|
  {
    if a != [] || b != [] {
      HdTl(p, a);
      HdTl(p, b);
      var s := Add(p, a, b);
      var sa, sb := Scale(p, k, a), Scale(p, k, b);
      AddHdTl(p, a, b);
      ScaleHdTl(p, k, s);
      ScaleHdTl(p, k, a);
      ScaleHdTl(p, k, b);
      AddHdTl(p, sa, sb);
      MulModDistrib(k, Hd(a), Hd(b), p);
      ScaleAdd(p, k, Tl(a), Tl(b));
      Ext(p, Scale(p, k, s), Add(p, sa, sb));
    }
  }

  lemma {:induction false} ScaleScale(p: int, k: int, j: int, a: seq<int>)
    requires IsModulus(p) && InRange(k, p) && InRange(j, p) && IsPoly(p, a)
    ensures Scale(p, k, Scale(p, j, a)) == Scale(p, MulMod(k, j, p), a)
    decreases |a|
  {
    if a != [] {
      HdTl(p, a);
      var ja := Scale(p, j, a);
      var kj := MulMod(k, j, p);
      ScaleHdTl(p, j, a);
      ScaleHdTl(p, k, ja);
      ScaleHdTl(p, kj, a);
      MulModAssoc(k, j, Hd(a), p);
      ScaleScale(p, k, j, Tl(a));
      Ext(p, Scale(p, k, ja), Scale(p, kj, a));
    }
  }

  /** Add(Scale(j, a), Scale(k, a)) == Scale(j + k, a). */
  lemma {:induction false} ScaleAddK(p: int, j: int, k: int, a: seq<int>)
    requires IsModulus(p) && InRange(j, p) && InRange(k, p) && IsPoly(p, a)
    ensures Add(p, Scale(p, j, a), Scale(p, k, a)) == Scale(p, AddMod(j, k, p), a)
    decreases |a|
  {
    if a == [] {
      AddZero(p, []);
    } else {
      HdTl(p, a);
      var ja, ka := Scale(p, j, a), Scale(p, k, a);
      var jk := AddMod(j, k, p);
      ScaleHdTl(p, j, a);
      ScaleHdTl(p, k, a);
      ScaleHdTl(p, jk, a);
      AddHdTl(p, ja, ka);
      MulModDistribLeft(j, k, Hd(a), p);
      ScaleAddK(p, j, k, Tl(a));
      Ext(p, Add(p, ja, ka), Scale(p, jk, a));
    }
  }

  lemma ScaleShift(p: int, k: int, a: seq<int>)
    requires IsModulus(p) && InRange(k, p) && IsPoly(p, a)
    ensures Scale(p, k, Shift(p, a)) == Shift(p, Scale(p, k, a))
  {
    var sa := Shift(p, a);
    ScaleHdTl(p, k, sa);
    MulModZero(k, p);
    Ext(p, Scale(p, k, sa), Shift(p, Scale(p, k, a)));
  }

  lemma ShiftAdd(p: int, a: seq<int>, b: seq<int>)
    requires IsModulus(p) && IsPoly(p, a) && IsPoly(p, b)
    ensures Shift(p, Add(p, a, b)) == Add(p, Shift(p, a), Shift(p, b))
  {
    var sa, sb := Shift(p, a), Shift(p, b);
    AddHdTl(p, sa, sb);
    Ext(p, Shift(p, Add(p, a, b)), Add(p, sa, sb));
  }

  lemma AddNeg(p: int, a: seq<int>)
    requires IsModulus(p) && IsPoly(p, a)
    ensures Add(p, a, Scale(p, p - 1, a)) == [] && Add(p, Scale(p, p - 1, a), a) == []
  {
    ScaleOne(p, a);
    ScaleAddK(p, 1, p - 1, a);
    ScaleZero(p, a);
    AddComm(p, a, Scale(p, p - 1, a));
  }

  /** Subtraction undoes addition. */
  lemma SubAddCancel(p: int, a: seq<int>, b: seq<int>)
    requires IsModulus(p) && IsPoly(p, a) && IsPoly(p, b)
    ensures Add(p, Sub(p, a, b), b) == a
    ensures Sub(p, Add(p, a, b), b) == a
  {
    AddAssoc(p, a, Scale(p, p - 1, b), b);
    AddNeg(p, b);
    AddZero(p, a);
    AddAssoc(p, a, b, Scale(p, p - 1, b));
  }

  lemma AddCancel(p: int, x: seq<int>, y: seq<int>, z: seq<int>)
    requires IsModulus(p) && IsPoly(p, x) && IsPoly(p, y) && IsPoly(p, z)
    requires Add(p, x, z) == Add(p, y, z)
    ensures x == y
  {
    SubAddCancel(p, x, z);
    SubAddCancel(p, y, z);
  }

  lemma SubZero(p: int, a: seq<int>, b: seq<int>)
    requires IsModulus(p) && IsPoly(p, a) && IsPoly(p, b)
    ensures Sub(p, a, b) == [] <==> a == b
  {
    AddNeg(p, b);
    if Sub(p, a, b) == [] {
      SubAddCancel(p, a, b);
      AddZero(p, b);
    }
  }

  lemma NegAdd(p: int, a: seq<int>, b: seq<int>)
    requires IsModulus(p) && IsPoly(p, a) && IsPoly(p, b)
    ensures Scale(p, p - 1, Add(p, a, b)) == Add(p, Scale(p, p - 1, a), Scale(p, p - 1, b))
  {
    ScaleAdd(p, p - 1, a, b);
  }

  lemma NegNeg(p: int, a: seq<int>)
    requires IsModulus(p) && IsPoly(p, a)
    ensures Scale(p, p - 1, Scale(p, p - 1, a)) == a
  {
    ScaleScale(p, p - 1, p - 1, a);
    MinusOneSquared(p);
    ScaleOne(p, a);
  }

  // ---------------------------------------------------------------------
  // Multiplicative laws

  lemma {:induction false} MulZeroRight(p: int, a: seq<int>)
    requires IsModulus(p) && IsPoly(p, a)
    ensures Mul(p, a, []) == []
    decreases |a|
  {
    if a != [] {
      HdTl(p, a);
      MulZeroRight(p, Tl(a));
      AddZero(p, []);
    }
  }

  lemma ScaleHdAdd(p: int, a: seq<int>, b: seq<int>, c: seq<int>)
    requires IsModulus(p) && IsPoly(p, a) && IsPoly(p, b) && IsPoly(p, c)
    ensures Scale(p, Hd(Add(p, a, b)), c) == Add(p, Scale(p, Hd(a), c), Scale(p, Hd(b), c))
  {
    AddHdTl(p, a, b);
    ScaleAddK(p, Hd(a), Hd(b), c);
  }

  lemma {:induction false} MulDistribRight(p: int, a: seq<int>, b: seq<int>, c: seq<int>)
    requires IsModulus(p) && IsPoly(p, a) && IsPoly(p, b) && IsPoly(p, c)
    ensures Mul(p, Add(p, a, b), c) == Add(p, Mul(p, a, c), Mul(p, b, c))
    decreases |a| + |b|
  {
    var s := Add(p, a, b);
    if a == [] && b == [] {
      AddZero(p, []);
    } else {
      HdTl(p, a);
      HdTl(p, b);
      AddHdTl(p, a, b);
      var sa, sb := Scale(p, Hd(a), c), Scale(p, Hd(b), c);
      var ma, mb := Mul(p, Tl(a), c), Mul(p, Tl(b), c);
      calc {
        Mul(p, s, c);
        { MulUnfold(p, s, c); }
        Add(p, Scale(p, Hd(s), c), Shift(p, Mul(p, Tl(s), c)));
        { ScaleHdAdd(p, a, b, c);
          MulDistribRight(p, Tl(a), Tl(b), c);
          ShiftAdd(p, ma, mb); }
        Add(p, Add(p, sa, sb), Add(p, Shift(p, ma), Shift(p, mb)));
        { AddSwapMiddle(p, sa, sb, Shift(p, ma), Shift(p, mb)); }
        Add(p, Add(p, sa, Shift(p, ma)), Add(p, sb, Shift(p, mb)));
        { MulUnfold(p, a, c);
          MulUnfold(p, b, c); }
        Add(p, Mul(p, a, c), Mul(p, b, c));
      }
    }
  }

  lemma {:induction false} MulDistribLeft(p: int, a: seq<int>, b: seq<int>, c: seq<int>)
    requires IsModulus(p) && IsPoly(p, a) && IsPoly(p, b) && IsPoly(p, c)
    ensures Mul(p, a, Add(p, b, c)) == Add(p, Mul(p, a, b), Mul(p, a, c))
    decreases |a|
  {
    if a == [] {
      AddZero(p, []);
    } else {
      HdTl(p, a);
      ScaleAdd(p, Hd(a), b, c);
      MulDistribLeft(p, Tl(a), b, c);
      ShiftAdd(p, Mul(p, Tl(a), b), Mul(p, Tl(a), c));
      AddSwapMiddle(p, Scale(p, Hd(a), b), Scale(p, Hd(a), c),
                    Shift(p, Mul(p, Tl(a), b)), Shift(p, Mul(p, Tl(a), c)));
    }
  }

  lemma {:induction false} MulScaleLeft(p: int, k: int, a: seq<int>, b: seq<int>)
    requires IsModulus(p) && InRange(k, p) && IsPoly(p, a) && IsPoly(p, b)
    ensures Mul(p, Scale(p, k, a), b) == Scale(p, k, Mul(p, a, b))
    decreases |a|
  {
    if a != [] {
      HdTl(p, a);
      var ka := Scale(p, k, a);
      ScaleHdTl(p, k, a);
      MulUnfold(p, ka, b);
      ScaleScale(p, k, Hd(a), b);
      MulScaleLeft(p, k, Tl(a), b);
      ScaleShift(p, k, Mul(p, Tl(a), b));
      ScaleAdd(p, k, Scale(p, Hd(a), b), Shift(p, Mul(p, Tl(a), b)));
    }
  }

  lemma MulShiftLeft(p: int, a: seq<int>, b: seq<int>)
    requires IsModulus(p) && IsPoly(p, a) && IsPoly(p, b)
    ensures Mul(p, Shift(p, a), b) == Shift(p, Mul(p, a, b))
  {
    MulUnfold(p, Shift(p, a), b);
    ScaleZero(p, b);
    AddZero(p, Shift(p, Mul(p, a, b)));
  }

  lemma {:induction false} MulAssoc(p: int, a: seq<int>, b: seq<int>, c: seq<int>)
    requires IsModulus(p) && IsPoly(p, a) && IsPoly(p, b) && IsPoly(p, c)
    ensures Mul(p, Mul(p, a, b), c) == Mul(p, a, Mul(p, b, c))
    decreases |a|
  {
    if a != [] {
      HdTl(p, a);
      var sb := Scale(p, Hd(a), b);
      var m := Mul(p, Tl(a), b);
      MulDistribRight(p, sb, Shift(p, m), c);
      MulScaleLeft(p, Hd(a), b, c);
      MulShiftLeft(p, m, c);
      MulAssoc(p, Tl(a), b, c);
    }
  }

  lemma {:induction false} MulComm(p: int, a: seq<int>, b: seq<int>)
    requires IsModulus(p) && IsPoly(p, a) && IsPoly(p, b)
    ensures Mul(p, a, b) == Mul(p, b, a)
    decreases |a| + |b|
  {
    if a == [] {
      MulZeroRight(p, b);
    } else if b == [] {
      MulZeroRight(p, a);
    } else {
      HdTl(p, a);
      HdTl(p, b);
      var ta, tb := Tl(a), Tl(b);
      var x := Mul(p, ta, tb);
      var s1, s2 := Scale(p, Hd(a), tb), Scale(p, Hd(b), ta);
      // heads
      ScaleHdTl(p, Hd(a), b);
      ScaleHdTl(p, Hd(b), a);
      AddHdTl(p, Scale(p, Hd(a), b), Shift(p, Mul(p, ta, b)));
      AddHdTl(p, Scale(p, Hd(b), a), Shift(p, Mul(p, tb, a)));
      MulModComm(Hd(a), Hd(b), p);
      // tails
      MulComm(p, ta, b);
      MulUnfold(p, b, ta);
      MulComm(p, tb, a);
      MulUnfold(p, a, tb);
      MulComm(p, ta, tb);
      AddAssoc(p, s1, s2, Shift(p, x));
      AddAssoc(p, s2, s1, Shift(p, x));
      AddComm(p, s1, s2);
      Ext(p, Mul(p, a, b), Mul(p, b, a));
    }
  }

  lemma MulOne(p: int, a: seq<int>)
    requires IsModulus(p) && IsPoly(p, a)
    ensures Mul(p, One(p), a) == a && Mul(p, a, One(p)) == a
  {
    MulUnfold(p, One(p), a);
    ScaleOne(p, a);
    assert Tl(One(p)) == [];
    assert Shift(p, []) == [];
    AddZero(p, a);
    MulComm(p, a, One(p));
  }

  lemma MulNegLeft(p: int, a: seq<int>, b: seq<int>)
    requires IsModulus(p) && IsPoly(p, a) && IsPoly(p, b)
    ensures Mul(p, Scale(p, p - 1, a), b) == Scale(p, p - 1, Mul(p, a, b))
  {
    MulScaleLeft(p, p - 1, a, b);
  }

  /** (a - b) * c == a * c - b * c. */
  lemma MulSubRight(p: int, a: seq<int>, b: seq<int>, c: seq<int>)
    requires IsModulus(p) && IsPoly(p, a) && IsPoly(p, b) && IsPoly(p, c)
    ensures Mul(p, Sub(p, a, b), c) == Sub(p, Mul(p, a, c), Mul(p, b, c))
  {
    MulDistribRight(p, a, Scale(p, p - 1, b), c);
    MulNegLeft(p, b, c);
  }
}
