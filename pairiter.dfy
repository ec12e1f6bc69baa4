/** `PairIterator` of the multivariate GCD: walks the terms of two
    polynomials in step, in descending monomial order, and at each step hands
    out either the two terms of one monomial or the term of the larger
    monomial paired with the zero term, holding the other term back for a
    later step.  The model's iterators yield terms in descending order. */
module PairIteration {
  import opened Wrappers
  import opened Monomials

  /** A stream of terms in n variables: nonzero coefficients, monomials in
      strictly descending order. */
  predicate IsTermStream(n: nat, ts: seq<Term>)
  {
    (forall k :: 0 <= k < |ts| ==> |ts[k].exponents| == n && ts[k].coef != 0) &&
    (forall k, l :: 0 <= k < l < |ts| ==> Less(ts[l].exponents, ts[k].exponents))
  }

  /** The terms of a polynomial form such a stream. */
  lemma PolyIsTermStream(n: nat, p: int, ts: seq<Term>)
    requires IsPoly(n, p, ts)
    ensures IsTermStream(n, ts)
  {
  }

  /** The real terms of a sequence: those with a nonzero coefficient. */
  function RealTerms(ts: seq<Term>): (r: seq<Term>)
    ensures |r| <= |ts|
  {
    if ts == [] then []
    else
      var last := ts[|ts| - 1];
      RealTerms(ts[..|ts| - 1]) + (if last.coef != 0 then [last] else [])
  }

  function Firsts(pairs: seq<(Term, Term)>): (r: seq<Term>)
    ensures |r| == |pairs| && forall k :: 0 <= k < |pairs| ==> r[k] == pairs[k].0
  {
    seq(|pairs|, k requires 0 <= k < |pairs| => pairs[k].0)
  }

  function Seconds(pairs: seq<(Term, Term)>): (r: seq<Term>)
    ensures |r| == |pairs| && forall k :: 0 <= k < |pairs| ==> r[k] == pairs[k].1
  {
    seq(|pairs|, k requires 0 <= k < |pairs| => pairs[k].1)
  }

  /** The next term of a side: its first pending term, or the zero term. */
  function First(n: nat, s: seq<Term>): Term
  {
    if s == [] then ZeroTerm(n) else s[0]
  }

  /** The pending terms after the first. */
  function Others(s: seq<Term>): seq<Term>
  {
    if s == [] then [] else s[1..]
  }

  /** Taking the next term of one side: the held-back term when there is
      one (the cache is then cleared), else the iterator's next term, else
      the zero term; returns the term and what the iterator has left. */
  function Take(zero: Term, cached: Option<Term>, rest: seq<Term>): (Term, seq<Term>)
  {
    if cached.Some? then (cached.value, rest)
    else if rest != [] then (rest[0], rest[1..])
    else (zero, rest)
  }

  /** The terms of one side still to be handed out: the held-back term, if it
      is a real one, then what the underlying iterator has not returned. */
  function Pending(cached: Option<Term>, rest: seq<Term>): seq<Term>
  {
    if cached.Some? && cached.value.coef != 0 then [cached.value] + rest else rest
  }

  /** A held-back term of one side: a real term above everything the
      iterator has left, or the zero term once the iterator is exhausted. */
  predicate CacheFits(n: nat, cached: Option<Term>, rest: seq<Term>)
  {
    cached.Some? ==>
      |cached.value.exponents| == n &&
      (cached.value.coef == 0 ==> cached.value == ZeroTerm(n) && rest == []) &&
      (cached.value.coef != 0 && rest != [] ==>
         |rest[0].exponents| == n && Less(rest[0].exponents, cached.value.exponents))
  }

  class PairIterator {
    const n: nat
    const zeroTerm: Term
    /** What `aIterator` and `bIterator` have not returned yet. */
    var aRest: seq<Term>
    var bRest: seq<Term>
    /** The pair handed out by the last `advance` (null before the first
        one; the model starts both at the zero term). */
    var aTerm: Term
    var bTerm: Term
    /** `aTermCached`, `bTermCached`: a term held back (None for null). */
    var aCached: Option<Term>
    var bCached: Option<Term>

    ghost predicate Valid()
      reads this
    {
      zeroTerm == ZeroTerm(n) &&
      IsTermStream(n, aRest) && IsTermStream(n, bRest) &&
      CacheFits(n, aCached, aRest) && CacheFits(n, bCached, bRest)
    }

    function PendingA(): seq<Term>
      reads this
    {
      Pending(aCached, aRest)
    }

    function PendingB(): seq<Term>
      reads this
    {
      Pending(bCached, bRest)
    }

    constructor (n: nat, a: seq<Term>, b: seq<Term>)
      requires IsTermStream(n, a) && IsTermStream(n, b)
      ensures Valid() && this.n == n
      ensures aRest == a && bRest == b && aCached == None && bCached == None
      ensures PendingA() == a && PendingB() == b
    {
      this.n := n;
      zeroTerm := ZeroTerm(n);
      aRest, bRest := a, b;
      aTerm, bTerm := ZeroTerm(n), ZeroTerm(n);
      aCached, bCached := None, None;
    }

    /** `hasNext` as written: asks only the two underlying iterators. */
    function HasNext(): (r: bool)
      reads this
      requires Valid()
      ensures r ==> PendingA() != [] || PendingB() != []
    {
      aRest != [] || bRest != []
    }

    /** `hasNext` as evidently intended: also counts a held-back real term,
        so it holds exactly while some term of either side is pending. */
    function HasNextCorrected(): (r: bool)
      reads this
      requires Valid()
      ensures r <==> PendingA() != [] || PendingB() != []
      ensures HasNext() ==> r
    {
      aRest != [] || bRest != [] ||
      (aCached.Some? && aCached.value.coef != 0) || (bCached.Some? && bCached.value.coef != 0)
    }

    /** `advance`: takes the next term of each side (a held-back one first),
        compares their monomials, hands out both when they are equal, and
        otherwise hands out the larger one with the zero term on the other
        side, holding the smaller one back. */
    method Advance()
      requires Valid()
      modifies this
      ensures Valid()
      ensures MergeStep(n, old(PendingA()), old(PendingB()), aTerm, bTerm, PendingA(), PendingB())
      ensures var a, b := old(PendingA()), old(PendingB());
        var c := Compare(First(n, a).exponents, First(n, b).exponents);
        aRest == Others(a) && bRest == Others(b) &&
        aCached == (if c < 0 then Some(First(n, a)) else None) &&
        bCached == (if c > 0 then Some(First(n, b)) else None)
    {
      ghost var a, b := PendingA(), PendingB();
      var (at, ar) := Take(zeroTerm, aCached, aRest);
      var (bt, br) := Take(zeroTerm, bCached, bRest);
      TakeNext(n, aCached, aRest);
      TakeNext(n, bCached, bRest);
      var c := Compare(at.exponents, bt.exponents);
      if c < 0 {
        HoldBack(n, a, b, ar, br);
        aTerm, bTerm := zeroTerm, bt;
        aCached, bCached := Some(at), None;
      } else if c > 0 {
        CompareAntisymmetric(at.exponents, bt.exponents);
        HoldBack(n, b, a, br, ar);
        aTerm, bTerm := at, zeroTerm;
        aCached, bCached := None, Some(bt);
      } else {
        aTerm, bTerm := at, bt;
        aCached, bCached := None, None;
      }
      aRest, bRest := ar, br;
    }
  }

  /** One step of the pairing, on the pending terms a and b of the two sides
      before it and a2, b2 after it: equal monomials are handed out together;
      otherwise the larger one is handed out beside the zero term and the
      smaller one stays pending. */
  predicate MergeStep(n: nat, a: seq<Term>, b: seq<Term>, aTerm: Term, bTerm: Term,
                      a2: seq<Term>, b2: seq<Term>)
  {
    |First(n, a).exponents| == |First(n, b).exponents| &&
    var c := Compare(First(n, a).exponents, First(n, b).exponents);
    (c == 0 ==> aTerm == First(n, a) && bTerm == First(n, b) &&
                a2 == Others(a) && b2 == Others(b)) &&
    (c < 0 ==> aTerm == ZeroTerm(n) && bTerm == First(n, b) && b != [] &&
               a2 == a && b2 == Others(b)) &&
    (c > 0 ==> aTerm == First(n, a) && bTerm == ZeroTerm(n) && a != [] &&
               a2 == Others(a) && b2 == b)
  }

  /** Holding back the smaller next term of one side leaves that side's
      pending terms as they were, and the other side's next term is real. */
  lemma HoldBack(n: nat, a: seq<Term>, b: seq<Term>, ar: seq<Term>, br: seq<Term>)
    requires ar == Others(a) && |First(n, a).exponents| == n && |First(n, b).exponents| == n
    requires a != [] ==> a[0].coef != 0
    requires Less(First(n, a).exponents, First(n, b).exponents)
    ensures b != []
    ensures Pending(Some(First(n, a)), ar) == a
    ensures First(n, a).coef == 0 ==> a == []
  {
    ZerosLeast(First(n, a).exponents);
    CompareAntisymmetric(First(n, a).exponents, First(n, b).exponents);
    if a != [] {
      assert a == [a[0]] + a[1..];
    }
  }

  /** What taking the next term of a side leaves: the first pending term,
      with the other pending terms still in descending order. */
  lemma TakeNext(n: nat, cached: Option<Term>, rest: seq<Term>)
    requires IsTermStream(n, rest) && CacheFits(n, cached, rest)
    ensures var s := Pending(cached, rest);
      var (next, left) := Take(ZeroTerm(n), cached, rest);
      next == First(n, s) && left == Others(s) &&
      |next.exponents| == n &&
      IsTermStream(n, left) &&
      (next.coef == 0 <==> s == []) &&
      (next.coef == 0 ==> next == ZeroTerm(n) && left == []) &&
      (next.coef != 0 && left != [] ==> Less(left[0].exponents, next.exponents))
  {
  }

  /** The pending terms of a side form a descending stream. */
  lemma PendingIsStream(n: nat, cached: Option<Term>, rest: seq<Term>)
    requires IsTermStream(n, rest) && CacheFits(n, cached, rest)
    ensures IsTermStream(n, Pending(cached, rest))
  {
    var s := Pending(cached, rest);
    if cached.Some? && cached.value.coef != 0 {
      forall k, l | 0 <= k < l < |s|
        ensures Less(s[l].exponents, s[k].exponents)
      {
        if k == 0 && l > 1 {
          LessTransitive(rest[l - 1].exponents, rest[0].exponents, cached.value.exponents);
        }
      }
    }
  }

  /** What one step hands out accounts for what left each side; a step
      with terms pending makes progress; and a pair of two real terms is
      one monomial. */
  lemma MergeStepAccounts(n: nat, a: seq<Term>, b: seq<Term>, aTerm: Term, bTerm: Term,
                          a2: seq<Term>, b2: seq<Term>)
    requires IsTermStream(n, a) && IsTermStream(n, b)
    requires MergeStep(n, a, b, aTerm, bTerm, a2, b2)
    ensures (if aTerm.coef != 0 then [aTerm] else []) + a2 == a
    ensures (if bTerm.coef != 0 then [bTerm] else []) + b2 == b
    ensures a != [] || b != [] ==> |a2| + |b2| < |a| + |b| && (aTerm.coef != 0 || bTerm.coef != 0)
    ensures aTerm.coef != 0 && bTerm.coef != 0 ==> aTerm.exponents == bTerm.exponents
  {
    var c := Compare(First(n, a).exponents, First(n, b).exponents);
    if a != [] {
      assert a == [a[0]] + a[1..];
    }
    if b != [] {
      assert b == [b[0]] + b[1..];
    }
    if c < 0 {
      assert aTerm.coef == 0 && a2 == a && b != [] && bTerm == b[0] && b2 == b[1..];
    } else if c > 0 {
      assert bTerm.coef == 0 && b2 == b && a != [] && aTerm == a[0] && a2 == a[1..];
    } else {
      assert aTerm.exponents == bTerm.exponents && a2 == Others(a) && b2 == Others(b);
    }
  }

  /** The pairs handed out so far, with a2 and b2 still pending of the
      polynomials a and b: the real terms handed out and the pending ones
      make up each polynomial, each pair holds a real term, and a pair of
      two real terms is one monomial. */
  predicate PairsSoFar(pairs: seq<(Term, Term)>, a: seq<Term>, b: seq<Term>, a2: seq<Term>, b2: seq<Term>)
  {
    RealTerms(Firsts(pairs)) + a2 == a && RealTerms(Seconds(pairs)) + b2 == b &&
    (forall k :: 0 <= k < |pairs| ==> pairs[k].0.coef != 0 || pairs[k].1.coef != 0) &&
    (forall k :: 0 <= k < |pairs| && pairs[k].0.coef != 0 && pairs[k].1.coef != 0 ==>
       pairs[k].0.exponents == pairs[k].1.exponents)
  }

  /** Handing out a pair that accounts for what left each side keeps
      `PairsSoFar`. */
  lemma PairsSoFarStep(pairs: seq<(Term, Term)>, a: seq<Term>, b: seq<Term>,
                       pa: seq<Term>, pb: seq<Term>, aTerm: Term, bTerm: Term, pa2: seq<Term>, pb2: seq<Term>)
    requires PairsSoFar(pairs, a, b, pa, pb)
    requires (if aTerm.coef != 0 then [aTerm] else []) + pa2 == pa
    requires (if bTerm.coef != 0 then [bTerm] else []) + pb2 == pb
    requires aTerm.coef != 0 || bTerm.coef != 0
    requires aTerm.coef != 0 && bTerm.coef != 0 ==> aTerm.exponents == bTerm.exponents
    ensures PairsSoFar(pairs + [(aTerm, bTerm)], a, b, pa2, pb2)
  {
    AppendPair(pairs, (aTerm, bTerm));
    var fa := RealTerms(Firsts(pairs));
    var fb := RealTerms(Seconds(pairs));
    assert fa + (if aTerm.coef != 0 then [aTerm] else []) + pa2 == fa + pa;
    assert fb + (if bTerm.coef != 0 then [bTerm] else []) + pb2 == fb + pb;
  }

  /** Appending a pair adds its real terms to the real terms handed out. */
  lemma AppendPair(pairs: seq<(Term, Term)>, x: (Term, Term))
    ensures RealTerms(Firsts(pairs + [x])) == RealTerms(Firsts(pairs)) + (if x.0.coef != 0 then [x.0] else [])
    ensures RealTerms(Seconds(pairs + [x])) == RealTerms(Seconds(pairs)) + (if x.1.coef != 0 then [x.1] else [])
  {
    assert Firsts(pairs + [x])[..|pairs|] == Firsts(pairs);
    assert Seconds(pairs + [x])[..|pairs|] == Seconds(pairs);
  }

  /** The caller's loop over a `PairIterator`, run with the corrected
      `hasNext`: every term of both polynomials is handed out exactly once,
      in order, each pair holds a real term, and two real terms in one pair
      share their monomial. */
  method PairTerms(n: nat, a: seq<Term>, b: seq<Term>) returns (pairs: seq<(Term, Term)>)
    requires IsTermStream(n, a) && IsTermStream(n, b)
    ensures RealTerms(Firsts(pairs)) == a && RealTerms(Seconds(pairs)) == b
    ensures forall k :: 0 <= k < |pairs| ==> pairs[k].0.coef != 0 || pairs[k].1.coef != 0
    ensures forall k :: 0 <= k < |pairs| && pairs[k].0.coef != 0 && pairs[k].1.coef != 0 ==>
      pairs[k].0.exponents == pairs[k].1.exponents
  {
    var it := new PairIterator(n, a, b);
    pairs := [];
    while it.HasNextCorrected()
      invariant it.Valid() && it.n == n
      invariant PairsSoFar(pairs, a, b, it.PendingA(), it.PendingB())
      decreases |it.PendingA()| + |it.PendingB()|
    {
      ghost var pa, pb := it.PendingA(), it.PendingB();
      PendingIsStream(n, it.aCached, it.aRest);
      PendingIsStream(n, it.bCached, it.bRest);
      it.Advance();
      MergeStepAccounts(n, pa, pb, it.aTerm, it.bTerm, it.PendingA(), it.PendingB());
      PairsSoFarStep(pairs, a, b, pa, pb, it.aTerm, it.bTerm, it.PendingA(), it.PendingB());
      pairs := pairs + [(it.aTerm, it.bTerm)];
    }
  }

  /** `hasNext` as written drops a held-back term: for a = x^0 and b = x^1
      the first `advance` hands out (0, x) and holds the constant term of a
      back, after which `hasNext` is false although that term is pending. */
  method DroppedTerm() returns (handedOut: (Term, Term), hasNext: bool, hasNextCorrected: bool,
                                pending: seq<Term>)
    ensures handedOut == (ZeroTerm(1), Term([1], 1))
    ensures !hasNext && hasNextCorrected && pending == [Term([0], 1)]
  {
    var it := new PairIterator(1, [Term([0], 1)], [Term([1], 1)]);
    assert Compare([0], [1]) == -1;
    assert Zeros(1) == [0];
    it.Advance();
    handedOut := (it.aTerm, it.bTerm);
    hasNext := it.HasNext();
    hasNextCorrected := it.HasNextCorrected();
    pending := it.PendingA();
  }
}
