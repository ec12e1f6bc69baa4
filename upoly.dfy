/** Dense univariate polynomials over Z_p as values: the coefficient list,
    lowest degree first, with no trailing zero coefficient, so that the
    zero polynomial is the empty list. Every operation is defined through
    the head/tail view (constant coefficient, and the rest divided by x),
    which makes the ring laws provable by induction. */
module UPoly {
  import opened ModArith

  /** A canonical polynomial over Z_p. */
  predicate IsPoly(p: int, a: seq<int>) {
    (forall i :: 0 <= i < |a| ==> InRange(a[i], p)) && (|a| == 0 || a[|a| - 1] != 0)
  }

  /** The constant coefficient (zero for the zero polynomial). */
  function Hd(a: seq<int>): int { if a == [] then 0 else a[0] }

  /** The polynomial (a - a(0)) / x. */
  function Tl(a: seq<int>): (r: seq<int>)
    ensures forall p {:trigger IsPoly(p, a)} :: IsPoly(p, a) ==> IsPoly(p, r)
    ensures |r| == if a == [] then 0 else |a| - 1
  {
    if a == [] then [] else a[1..]
  }

  /** Coefficient i (zero beyond the end). */
  function Coef(a: seq<int>, i: nat): int { if i < |a| then a[i] else 0 }

  /** The leading coefficient (zero for the zero polynomial). */
  function Lc(a: seq<int>): int { if a == [] then 0 else a[|a| - 1] }

  /** The degree as the source reports it: zero for the zero polynomial. */
  function Degree(a: seq<int>): nat { if a == [] then 0 else |a| - 1 }

  /** c + x * t, kept canonical. */
  function Cons(p: int, c: int, t: seq<int>): (r: seq<int>)
    requires InRange(c, p) && IsPoly(p, t)
    ensures IsPoly(p, r) && Hd(r) == c && Tl(r) == t
    ensures |r| == if t == [] && c == 0 then 0 else |t| + 1
  {
    if t == [] && c == 0 then [] else [c] + t
  }

  lemma HdTl(p: int, a: seq<int>)
    requires IsModulus(p) && IsPoly(p, a)
    ensures IsPoly(p, Tl(a)) && InRange(Hd(a), p) && Cons(p, Hd(a), Tl(a)) == a
    ensures a != [] ==> |Tl(a)| == |a| - 1
  {
    if a != [] {
      assert [a[0]] + a[1..] == a;
    }
  }

  /** Two canonical polynomials with the same head and tail are equal. */
  lemma Ext(p: int, a: seq<int>, b: seq<int>)
    requires IsModulus(p) && IsPoly(p, a) && IsPoly(p, b) && Hd(a) == Hd(b) && Tl(a) == Tl(b)
    ensures a == b
  {
    HdTl(p, a);
    HdTl(p, b);
  }

  function Const(p: int, c: int): (r: seq<int>)
    requires InRange(c, p)
    ensures IsPoly(p, r) && Hd(r) == c && Tl(r) == []
  {
    Cons(p, c, [])
  }

  function One(p: int): (r: seq<int>)
    requires IsModulus(p)
    ensures IsPoly(p, r) && r == [1]
  {
    Const(p, 1)
  }

  function Add(p: int, a: seq<int>, b: seq<int>): (r: seq<int>)
    requires IsModulus(p) && IsPoly(p, a) && IsPoly(p, b)
    ensures IsPoly(p, r)
    decreases |a| + |b|
  {
    if a == [] && b == [] then []
    else
      HdTl(p, a);
      HdTl(p, b);
      Cons(p, AddMod(Hd(a), Hd(b), p), Add(p, Tl(a), Tl(b)))
  }

  /** k * a for a residue k. */
  function Scale(p: int, k: int, a: seq<int>): (r: seq<int>)
    requires IsModulus(p) && InRange(k, p) && IsPoly(p, a)
    ensures IsPoly(p, r) && |r| <= |a|
    decreases |a|
  {
    if a == [] then []
    else
      HdTl(p, a);
      Cons(p, MulMod(k, Hd(a), p), Scale(p, k, Tl(a)))
  }

  /** a - b: b is scaled by p - 1, the residue of -1. */
  function Sub(p: int, a: seq<int>, b: seq<int>): (r: seq<int>)
    requires IsModulus(p) && IsPoly(p, a) && IsPoly(p, b)
    ensures IsPoly(p, r)
  {
    Add(p, a, Scale(p, p - 1, b))
  }

  /** x * a. */
  function Shift(p: int, a: seq<int>): (r: seq<int>)
    requires IsModulus(p) && IsPoly(p, a)
    ensures IsPoly(p, r) && Hd(r) == 0 && Tl(r) == a
    ensures a != [] ==> r == [0] + a
  {
    Cons(p, 0, a)
  }

  function Mul(p: int, a: seq<int>, b: seq<int>): (r: seq<int>)
    requires IsModulus(p) && IsPoly(p, a) && IsPoly(p, b)
    ensures IsPoly(p, r)
    decreases |a|
  {
    if a == [] then []
    else
      HdTl(p, a);
      Add(p, Scale(p, Hd(a), b), Shift(p, Mul(p, Tl(a), b)))
  }

  /** c * x^k. */
  function Monomial(p: int, c: int, k: nat): (r: seq<int>)
    requires IsModulus(p) && InRange(c, p)
    ensures IsPoly(p, r)
    decreases k
  {
    if k == 0 then Const(p, c) else Shift(p, Monomial(p, c, k - 1))
  }

  function Pow(p: int, a: seq<int>, n: nat): (r: seq<int>)
    requires IsModulus(p) && IsPoly(p, a)
    ensures IsPoly(p, r)
    decreases n
  {
    if n == 0 then One(p) else Mul(p, a, Pow(p, a, n - 1))
  }

  /** Every polynomial of a list is canonical. */
  predicate AllPoly(p: int, rs: seq<seq<int>>) {
    forall i :: 0 <= i < |rs| ==> IsPoly(p, rs[i])
  }

  lemma AllPolyTail(p: int, rs: seq<seq<int>>)
    requires AllPoly(p, rs) && rs != []
    ensures AllPoly(p, rs[1..])
  {
  }
}
