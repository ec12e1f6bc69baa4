/** The helpers of the Buchberger algorithms: exponent-vector predicates,
    the symmetric key of an index pair, the S-pair record with its lcm,
    the S-polynomial, Buchberger's two pair-skipping criteria and the
    minimisation of a basis by leading monomials. */
module Groebner {
  import opened Wrappers
  import opened ModArith
  import opened Monomials
  import opened MultiPoly

  // ---------------------------------------------------------------------
  // Exponent-vector predicates

  /** `dividesQ`: every exponent of the dividend is at least the divider's. */
  method DividesQ(dividend: seq<nat>, divider: seq<nat>) returns (r: bool)
    requires |dividend| == |divider|
    ensures r <==> Divides(divider, dividend)
  {
    for i := 0 to |dividend|
      invariant forall k :: 0 <= k < i ==> divider[k] <= dividend[k]
    {
      if dividend[i] < divider[i] {
        return false;
      }
    }
    return true;
  }

  /** Two monomials share a variable: some position is nonzero in both. */
  predicate SharesVariable(a: seq<nat>, b: seq<nat>)
    requires |a| == |b|
  {
    exists i :: 0 <= i < |a| && a[i] != 0 && b[i] != 0
  }

  /** `shareVariablesQ`. */
  method ShareVariablesQ(a: seq<nat>, b: seq<nat>) returns (r: bool)
    requires |a| == |b|
    ensures r <==> SharesVariable(a, b)
  {
    for i := 0 to |a|
      invariant forall k :: 0 <= k < i ==> a[k] == 0 || b[k] == 0
    {
      if a[i] != 0 && b[i] != 0 {
        return true;
      }
    }
    return false;
  }

  /** Two monomials share no variable exactly when their lcm is their
      product: the situation of Buchberger's first criterion. */
  lemma CoprimeIffLcmIsProduct(a: seq<nat>, b: seq<nat>)
    requires |a| == |b|
    ensures !SharesVariable(a, b) <==> Max(a, b) == Add(a, b)
  {
    if SharesVariable(a, b) {
      var i :| 0 <= i < |a| && a[i] != 0 && b[i] != 0;
      assert Max(a, b)[i] != Add(a, b)[i];
    } else {
      forall i | 0 <= i < |a|
        ensures Max(a, b)[i] == Add(a, b)[i]
      {
        assert a[i] == 0 || b[i] == 0;
      }
    }
  }

  // ---------------------------------------------------------------------
  // Pair keys

  /** `pack`: the larger index in the high 32 bits of a long (a shift by
      0x1_0000_0000), the smaller in the low ones.  Both indices are nonnegative Java ints, so the low
      index fits in 32 bits and the bitwise or is a sum. */
  function Pack(i: nat, j: nat): (key: nat)
    requires i <= MaxInt && j <= MaxInt
    ensures key < 0x8000_0000_0000_0000
  {
    if i > j then Pack(j, i) else j * 0x1_0000_0000 + i
  }

  /** The index pair a key stands for, smaller index first. */
  function Unpack(key: nat): (pair: (nat, nat))
  {
    (key % 0x1_0000_0000, key / 0x1_0000_0000)
  }

  /** A key gives back its pair, in either order of the arguments. */
  lemma UnpackPack(i: nat, j: nat)
    requires i <= MaxInt && j <= MaxInt
    ensures Unpack(Pack(i, j)) == (MinNat(i, j), MaxNat(i, j))
    ensures Pack(i, j) == Pack(j, i)
  {
    var lo, hi := MinNat(i, j), MaxNat(i, j);
    assert Pack(i, j) == hi * 0x1_0000_0000 + lo;
    ModUnique(hi * 0x1_0000_0000 + lo, 0x1_0000_0000, hi, lo);
  }

  /** Distinct unordered index pairs get distinct keys. */
  lemma PackInjective(i: nat, j: nat, k: nat, l: nat)
    requires i <= MaxInt && j <= MaxInt && k <= MaxInt && l <= MaxInt
    requires Pack(i, j) == Pack(k, l)
    ensures MinNat(i, j) == MinNat(k, l) && MaxNat(i, j) == MaxNat(k, l)
  {
    UnpackPack(i, j);
    UnpackPack(k, l);
  }

  // ---------------------------------------------------------------------
  // S-pairs

  /** Polynomials in n variables over Z_p. */
  predicate AllPolys(n: nat, p: int, fs: seq<seq<Term>>)
  {
    forall k :: 0 <= k < |fs| ==> IsPoly(n, p, fs[k])
  }

  /** Every term of f has n exponents, as the leading term of a pair needs. */
  predicate Sized(n: nat, f: seq<Term>)
  {
    forall k :: 0 <= k < |f| ==> |f[k].exponents| == n
  }

  predicate AllSized(n: nat, fs: seq<seq<Term>>)
  {
    forall k :: 0 <= k < |fs| ==> Sized(n, fs[k])
  }

  /** `SyzygyPair`: the two indices (smaller first), their polynomials and
      the monomial gamma = lcm of the two leading monomials, with
      coefficient one. */
  datatype SyzygyPair = SyzygyPair(i: nat, j: nat, fi: seq<Term>, fj: seq<Term>, gamma: Term)

  /** g is the least common multiple of the monomials a and b. */
  ghost predicate IsLcm(a: seq<nat>, b: seq<nat>, g: seq<nat>)
  {
    Divides(a, g) && Divides(b, g) &&
    forall m :: Divides(a, m) && Divides(b, m) ==> Divides(g, m)
  }

  /** The constructor from two indices and two polynomials: the pair is
      stored with the smaller index first, its polynomial moving with it. */
  function NewSyzygyPair(n: nat, i: nat, j: nat, fi: seq<Term>, fj: seq<Term>): (r: SyzygyPair)
    requires Sized(n, fi) && Sized(n, fj)
    ensures r.i <= r.j
    ensures ((r.i, r.fi) == (i, fi) && (r.j, r.fj) == (j, fj)) ||
            ((r.i, r.fi) == (j, fj) && (r.j, r.fj) == (i, fi))
    ensures r.gamma.coef == 1 && IsLcm(Lt(n, fi), Lt(n, fj), r.gamma.exponents)
  {
    MaxIsLcm(Lt(n, fi), Lt(n, fj));
    if i > j then
      MaxIsLcm(Lt(n, fj), Lt(n, fi));
      SyzygyPair(j, i, fj, fi, Term(Max(Lt(n, fj), Lt(n, fi)), 1))
    else
      SyzygyPair(i, j, fi, fj, Term(Max(Lt(n, fi), Lt(n, fj)), 1))
  }

  /** The constructor from two positions of a basis. */
  function NewSyzygyPairAt(n: nat, i: nat, j: nat, basis: seq<seq<Term>>): (r: SyzygyPair)
    requires i < |basis| && j < |basis| && AllSized(n, basis)
    ensures r.i <= r.j && ((r.i == i && r.j == j) || (r.i == j && r.j == i))
    ensures r.fi == basis[r.i] && r.fj == basis[r.j]
  {
    NewSyzygyPair(n, i, j, basis[i], basis[j])
  }

  /** `index`: the key of the pair. */
  function Index(pair: SyzygyPair): (key: nat)
    requires pair.i <= MaxInt && pair.j <= MaxInt
    ensures Unpack(key) == (pair.i, pair.j) || pair.i > pair.j
  {
    UnpackPack(pair.i, pair.j);
    Pack(pair.i, pair.j)
  }

  /** The pair does not depend on the order its indices were given in. */
  lemma NewSyzygyPairSymmetric(n: nat, i: nat, j: nat, fi: seq<Term>, fj: seq<Term>)
    requires Sized(n, fi) && Sized(n, fj) && i != j
    ensures NewSyzygyPair(n, i, j, fi, fj) == NewSyzygyPair(n, j, i, fj, fi)
  {
  }

  /** f multiplied by gamma / lt(f): its leading term becomes gamma. */
  function Reduced(n: nat, p: int, gamma: Term, f: seq<Term>): (r: seq<Term>)
    requires IsPrime(p) && IsPoly(n, p, f) && f != [] && IsTerm(n, p, gamma)
    requires Divides(f[0].exponents, gamma.exponents)
    ensures IsPoly(n, p, r) && r != [] && r[0] == gamma
  {
    var lc := f[0].coef;
    ModOfRange(lc, p);
    var factor := MulMod(gamma.coef, Inverse(lc, p), p);
    QuotientResidue(gamma.coef, lc, p);
    ScaleMonomialIsPoly(n, p, f, Sub(gamma.exponents, f[0].exponents), factor);
    var r := ScaleMonomial(p, f, Sub(gamma.exponents, f[0].exponents), factor);
    assert r[0].exponents == gamma.exponents;
    r
  }

  /** `syzygy(xGamma, a, b)`: both inputs scaled so that their leading terms
      become gamma, then subtracted, so gamma cancels and every remaining
      term lies below it. */
  function Syzygy(n: nat, p: int, gamma: Term, a: seq<Term>, b: seq<Term>): (r: seq<Term>)
    requires IsPrime(p) && IsPoly(n, p, a) && IsPoly(n, p, b) && a != [] && b != []
    requires IsTerm(n, p, gamma)
    requires Divides(a[0].exponents, gamma.exponents) && Divides(b[0].exponents, gamma.exponents)
    ensures IsPoly(n, p, r)
    ensures r != [] ==> Less(r[0].exponents, gamma.exponents)
  {
    var ra, rb := Reduced(n, p, gamma, a), Reduced(n, p, gamma, b);
    TailIsPoly(n, p, ra);
    TailIsPoly(n, p, rb);
    var r := Subtract(n, p, ra, rb);
    HeadAboveTail(n, p, ra);
    HeadAboveTail(n, p, rb);
    SubtractHeadBelow(n, p, ra[1..], rb[1..], r, gamma.exponents);
    r
  }

  lemma HeadAboveTail(n: nat, p: int, ts: seq<Term>)
    requires IsPoly(n, p, ts) && ts != []
    ensures ts[1..] != [] ==> Less(ts[1..][0].exponents, ts[0].exponents)
  {
    if |ts| > 1 {
      LeadingTermGreatest(n, p, ts, 1);
    }
  }

  /** Each coefficient of the syzygy is the difference of those of the two
      scaled inputs; in particular gamma itself has coefficient zero. */
  lemma SyzygyCoef(n: nat, p: int, gamma: Term, a: seq<Term>, b: seq<Term>, e: seq<nat>)
    requires IsPrime(p) && IsPoly(n, p, a) && IsPoly(n, p, b) && a != [] && b != []
    requires IsTerm(n, p, gamma) && |e| == n
    requires Divides(a[0].exponents, gamma.exponents) && Divides(b[0].exponents, gamma.exponents)
    ensures InRange(CoefAt(Reduced(n, p, gamma, a), e), p) && InRange(CoefAt(Reduced(n, p, gamma, b), e), p)
    ensures CoefAt(Syzygy(n, p, gamma, a, b), e) ==
      SubMod(CoefAt(Reduced(n, p, gamma, a), e), CoefAt(Reduced(n, p, gamma, b), e), p)
    ensures CoefAt(Syzygy(n, p, gamma, a, b), gamma.exponents) == 0
  {
    var ra, rb := Reduced(n, p, gamma, a), Reduced(n, p, gamma, b);
    SubtractCoef(n, p, ra, rb, e);
    SubtractCoef(n, p, ra, rb, gamma.exponents);
  }

  /** `syzygy(a, b)`: the S-polynomial, with gamma the lcm of the two
      leading monomials. */
  function SPolynomial(n: nat, p: int, a: seq<Term>, b: seq<Term>): (r: seq<Term>)
    requires IsPrime(p) && IsPoly(n, p, a) && IsPoly(n, p, b) && a != [] && b != []
    ensures IsPoly(n, p, r)
    ensures r != [] ==> Less(r[0].exponents, Max(a[0].exponents, b[0].exponents))
  {
    MaxIsLcm(a[0].exponents, b[0].exponents);
    Syzygy(n, p, Term(Max(a[0].exponents, b[0].exponents), 1), a, b)
  }

  /** `computeSyzygy` of a pair is the S-polynomial of its two polynomials. */
  lemma ComputeSyzygyIsSPolynomial(n: nat, p: int, i: nat, j: nat, fi: seq<Term>, fj: seq<Term>)
    requires IsPrime(p) && IsPoly(n, p, fi) && IsPoly(n, p, fj) && fi != [] && fj != []
    ensures var pair := NewSyzygyPair(n, i, j, fi, fj);
      IsTerm(n, p, pair.gamma) &&
      Divides(pair.fi[0].exponents, pair.gamma.exponents) && Divides(pair.fj[0].exponents, pair.gamma.exponents) &&
      Syzygy(n, p, pair.gamma, pair.fi, pair.fj) == SPolynomial(n, p, pair.fi, pair.fj)
  {
    var pair := NewSyzygyPair(n, i, j, fi, fj);
    assert pair.gamma == Term(Max(pair.fi[0].exponents, pair.fj[0].exponents), 1);
  }

  // ---------------------------------------------------------------------
  // Pair-skipping criteria

  /** The pair loop of `BuchbergerGB` (the reduction of each S-polynomial
      aside): pairs i < j in the order (0, 1), (0, 2), ..., (1, 2), ...,
      skipping those whose leading monomials share no variable. */
  method CriticalPairs(n: nat, lts: seq<seq<nat>>) returns (pairs: seq<(nat, nat)>)
    requires forall k :: 0 <= k < |lts| ==> |lts[k]| == n
    ensures forall q :: q in pairs <==> q.0 < q.1 < |lts| && SharesVariable(lts[q.0], lts[q.1])
    ensures forall k, l :: 0 <= k < l < |pairs| ==> PairBefore(pairs[k], pairs[l])
  {
    pairs := [];
    for i := 0 to |lts|
      invariant forall q :: q in pairs <==> q.0 < i && q.0 < q.1 < |lts| && SharesVariable(lts[q.0], lts[q.1])
      invariant forall k, l :: 0 <= k < l < |pairs| ==> PairBefore(pairs[k], pairs[l])
      invariant forall k :: 0 <= k < |pairs| ==> pairs[k].0 < i
    {
      for j := i + 1 to |lts|
        invariant forall q :: q in pairs <==>
          (q.0 < i || (q.0 == i && q.1 < j)) && q.0 < q.1 < |lts| && SharesVariable(lts[q.0], lts[q.1])
        invariant forall k, l :: 0 <= k < l < |pairs| ==> PairBefore(pairs[k], pairs[l])
        invariant forall k :: 0 <= k < |pairs| ==> PairBefore(pairs[k], (i, j))
      {
        var share := ShareVariablesQ(lts[i], lts[j]);
        if share {
          pairs := pairs + [(i, j)];
        }
      }
    }
  }

  /** The order the pair loop visits index pairs in. */
  predicate PairBefore(q: (nat, nat), r: (nat, nat))
  {
    q.0 < r.0 || (q.0 == r.0 && q.1 < r.1)
  }

  /** Element k of the basis lets the chain criterion drop the pair (i, j):
      it is live, distinct from both, neither (i, k) nor (j, k) is still
      pending, and its leading monomial divides lcm(lt_i, lt_j). */
  predicate ChainWitness(i: nat, j: nat, lcm: seq<nat>, lts: seq<Option<seq<nat>>>, pending: set<nat>, k: nat)
    requires i <= MaxInt && j <= MaxInt && k < |lts| && k <= MaxInt
  {
    lts[k].Some? && k != i && k != j &&
    Pack(i, k) !in pending && Pack(j, k) !in pending &&
    |lts[k].value| == |lcm| && Divides(lts[k].value, lcm)
  }

  /** The chain-criterion loop of `BuchbergerGB3`: the leading monomials of
      the basis (None for removed entries) and the keys of the pending
      pairs decide whether the pair (i, j) can be skipped. */
  method ChainCriterion(i: nat, j: nat, ltI: seq<nat>, ltJ: seq<nat>,
                        lts: seq<Option<seq<nat>>>, pending: set<nat>) returns (skip: bool)
    requires i <= MaxInt && j <= MaxInt && |lts| <= MaxInt + 1 && |ltI| == |ltJ|
    ensures skip <==> exists k :: 0 <= k < |lts| && ChainWitness(i, j, Max(ltI, ltJ), lts, pending, k)
  {
    var lcm := Max(ltI, ltJ);
    for k := 0 to |lts|
      invariant forall m :: 0 <= m < k ==> !ChainWitness(i, j, lcm, lts, pending, m)
    {
      if lts[k].None? {
        continue;
      }
      if k == i || k == j {
        continue;
      }
      if Pack(i, k) in pending || Pack(j, k) in pending {
        continue;
      }
      if |lts[k].value| == |lcm| {
        var d := DividesQ(lcm, lts[k].value);
        if d {
          assert ChainWitness(i, j, lcm, lts, pending, k);
          return true;
        }
      }
    }
    return false;
  }

  /** Why the chain criterion is sound: when lt_k divides lcm(lt_i, lt_j),
      the lcms of (i, k) and of (k, j) both divide lcm(lt_i, lt_j), so the
      S-polynomial of (i, j) is a combination of those of (i, k) and (k, j). */
  lemma ChainLcmDivides(a: seq<nat>, b: seq<nat>, c: seq<nat>)
    requires |a| == |b| == |c| && Divides(c, Max(a, b))
    ensures Divides(Max(a, c), Max(a, b)) && Divides(Max(c, b), Max(a, b))
  {
    MaxIsLcm(a, b);
    MaxIsLcm(a, c);
    MaxIsLcm(c, b);
  }

  // ---------------------------------------------------------------------
  // The initial pair queue of BuchbergerGB3

  /** q is the pair of two positions i < j of the basis. */
  ghost predicate IsPairOf(n: nat, basis: seq<seq<Term>>, q: SyzygyPair)
    requires AllSized(n, basis)
  {
    exists i, j :: 0 <= i < j < |basis| && q == NewSyzygyPairAt(n, i, j, basis)
  }

  /** The loop visits (a, b) before (i, j). */
  predicate Visited(a: nat, b: nat, i: nat, j: nat)
  {
    a < i || (a == i && b < j)
  }

  /** Every pair visited before (i, j) is registered under its key. */
  ghost predicate Registered(n: nat, basis: seq<seq<Term>>, i: nat, j: nat, registered: map<nat, SyzygyPair>)
    requires AllSized(n, basis) && |basis| <= MaxInt + 1
  {
    forall a, b :: 0 <= a < b < |basis| && Visited(a, b, i, j) ==> RegisteredAt(n, basis, registered, a, b)
  }

  /** The pair (a, b) is registered under its key. */
  ghost predicate RegisteredAt(n: nat, basis: seq<seq<Term>>, registered: map<nat, SyzygyPair>, a: nat, b: nat)
    requires AllSized(n, basis) && a < b < |basis| <= MaxInt + 1
  {
    Pack(a, b) in registered && registered[Pack(a, b)] == NewSyzygyPairAt(n, a, b, basis)
  }

  lemma RegisteredStep(n: nat, basis: seq<seq<Term>>, i: nat, j: nat, registered: map<nat, SyzygyPair>)
    requires AllSized(n, basis) && |basis| <= MaxInt + 1 && i < j < |basis|
    requires Registered(n, basis, i, j, registered)
    ensures Registered(n, basis, i, j + 1, registered[Pack(i, j) := NewSyzygyPairAt(n, i, j, basis)])
  {
    var r := registered[Pack(i, j) := NewSyzygyPairAt(n, i, j, basis)];
    forall a, b | 0 <= a < b < |basis| && Visited(a, b, i, j + 1)
      ensures RegisteredAt(n, basis, r, a, b)
    {
      if (a, b) != (i, j) {
        assert Visited(a, b, i, j) && RegisteredAt(n, basis, registered, a, b);
        UnpackPack(a, b);
        UnpackPack(i, j);
      }
    }
  }

  /** The queue as written: every gamma visited so far is a key, each key
      holding a pair of the basis with that gamma. */
  ghost predicate QueuedByGamma(n: nat, basis: seq<seq<Term>>, i: nat, j: nat, queue: map<seq<nat>, SyzygyPair>)
    requires AllSized(n, basis)
  {
    (forall a, b :: 0 <= a < b < |basis| && Visited(a, b, i, j) ==> GammaQueued(n, basis, queue, a, b)) &&
    (forall g :: g in queue ==> queue[g].gamma.exponents == g && IsPairOf(n, basis, queue[g]))
  }

  /** The gamma of the pair (a, b) is a key of the queue. */
  ghost predicate GammaQueued(n: nat, basis: seq<seq<Term>>, queue: map<seq<nat>, SyzygyPair>, a: nat, b: nat)
    requires AllSized(n, basis) && a < b < |basis|
  {
    NewSyzygyPairAt(n, a, b, basis).gamma.exponents in queue
  }

  lemma QueuedByGammaStep(n: nat, basis: seq<seq<Term>>, i: nat, j: nat, queue: map<seq<nat>, SyzygyPair>)
    requires AllSized(n, basis) && i < j < |basis| && QueuedByGamma(n, basis, i, j, queue)
    ensures var pair := NewSyzygyPairAt(n, i, j, basis);
      QueuedByGamma(n, basis, i, j + 1,
        if pair.gamma.exponents in queue then queue else queue[pair.gamma.exponents := pair])
  {
    var pair := NewSyzygyPairAt(n, i, j, basis);
    assert IsPairOf(n, basis, pair);
    var q := if pair.gamma.exponents in queue then queue else queue[pair.gamma.exponents := pair];
    forall a, b | 0 <= a < b < |basis| && Visited(a, b, i, j + 1)
      ensures GammaQueued(n, basis, q, a, b)
    {
      if (a, b) != (i, j) {
        assert Visited(a, b, i, j) && GammaQueued(n, basis, queue, a, b);
      }
    }
    forall g | g in q
      ensures q[g].gamma.exponents == g && IsPairOf(n, basis, q[g])
    {
      if g !in queue {
        assert q[g] == pair;
      } else {
        assert q[g] == queue[g];
      }
    }
  }

  /** The pair loop of `BuchbergerGB3` as written: every pair i < j is
      registered under its key, but the queue is a set ordered by gamma
      alone, so a pair whose gamma is already queued is not added. */
  method InitialPairsAsWritten(n: nat, basis: seq<seq<Term>>)
    returns (queue: map<seq<nat>, SyzygyPair>, registered: map<nat, SyzygyPair>)
    requires AllSized(n, basis) && |basis| <= MaxInt + 1
    ensures Registered(n, basis, |basis|, |basis| + 1, registered)
    ensures QueuedByGamma(n, basis, |basis|, |basis| + 1, queue)
  {
    queue, registered := map[], map[];
    for i: nat := 0 to |basis|
      invariant Registered(n, basis, i, i + 1, registered) && QueuedByGamma(n, basis, i, i + 1, queue)
    {
      for j: nat := i + 1 to |basis|
        invariant Registered(n, basis, i, j, registered) && QueuedByGamma(n, basis, i, j, queue)
      {
        var pair := NewSyzygyPairAt(n, i, j, basis);
        QueuedByGammaStep(n, basis, i, j, queue);
        RegisteredStep(n, basis, i, j, registered);
        if pair.gamma.exponents !in queue {
          queue := queue[pair.gamma.exponents := pair];
        }
        registered := registered[Pack(i, j) := pair];
      }
      VisitedRowEnd(n, basis, i, registered, queue);
    }
  }

  /** Finishing row i is starting row i + 1. */
  lemma VisitedRowEnd(n: nat, basis: seq<seq<Term>>, i: nat,
                      registered: map<nat, SyzygyPair>, queue: map<seq<nat>, SyzygyPair>)
    requires AllSized(n, basis) && |basis| <= MaxInt + 1 && i < |basis|
    requires Registered(n, basis, i, |basis|, registered) && QueuedByGamma(n, basis, i, |basis|, queue)
    ensures Registered(n, basis, i + 1, i + 2, registered) && QueuedByGamma(n, basis, i + 1, i + 2, queue)
  {
    assert forall a, b :: 0 <= a < b < |basis| && Visited(a, b, i + 1, i + 2) ==> Visited(a, b, i, |basis|);
  }

  /** Three leading monomials xy, xz and yz have the same pairwise lcm xyz:
      the three pairs are registered, but the queue holds one of them, so a
      registered pair is never taken from the queue. */
  method CollapsedPairQueue() returns (queue: map<seq<nat>, SyzygyPair>, registered: map<nat, SyzygyPair>)
    ensures queue.Keys == {[1, 1, 1]}
    ensures exists key :: key in registered && registered[key] !in queue.Values
  {
    var basis := CollapsingBasis();
    queue, registered := InitialPairsAsWritten(3, basis);
    CollapsedQueueKeys(basis, queue, registered);
  }

  /** The basis xy, xz, yz in three variables over Z_2. */
  function CollapsingBasis(): (basis: seq<seq<Term>>)
    ensures |basis| == 3 && AllPolys(3, 2, basis) && AllSized(3, basis)
    ensures forall i, j :: 0 <= i < j < 3 ==> NewSyzygyPairAt(3, i, j, basis).gamma.exponents == [1, 1, 1]
  {
    var basis := [[Term([1, 1, 0], 1)], [Term([1, 0, 1], 1)], [Term([0, 1, 1], 1)]];
    assert Max([1, 1, 0], [1, 0, 1]) == [1, 1, 1];
    assert Max([1, 1, 0], [0, 1, 1]) == [1, 1, 1];
    assert Max([1, 0, 1], [0, 1, 1]) == [1, 1, 1];
    basis
  }

  lemma CollapsedQueueKeys(basis: seq<seq<Term>>, queue: map<seq<nat>, SyzygyPair>, registered: map<nat, SyzygyPair>)
    requires |basis| == 3 && AllSized(3, basis)
    requires forall i, j :: 0 <= i < j < 3 ==> NewSyzygyPairAt(3, i, j, basis).gamma.exponents == [1, 1, 1]
    requires Registered(3, basis, 3, 4, registered) && QueuedByGamma(3, basis, 3, 4, queue)
    ensures queue.Keys == {[1, 1, 1]}
    ensures exists key :: key in registered && registered[key] !in queue.Values
  {
    forall g | g in queue
      ensures g == [1, 1, 1]
    {
      assert IsPairOf(3, basis, queue[g]);
      var i, j :| 0 <= i < j < 3 && queue[g] == NewSyzygyPairAt(3, i, j, basis);
    }
    assert Visited(0, 1, 3, 4) && GammaQueued(3, basis, queue, 0, 1);
    assert Visited(0, 2, 3, 4) && RegisteredAt(3, basis, registered, 0, 2);
    assert RegisteredAt(3, basis, registered, 0, 1);
    var p01, p02 := NewSyzygyPairAt(3, 0, 1, basis), NewSyzygyPairAt(3, 0, 2, basis);
    assert queue.Values == {queue[[1, 1, 1]]};
    if queue[[1, 1, 1]] == p01 {
      assert p01.j != p02.j;
      assert registered[Pack(0, 2)] !in queue.Values;
    } else {
      assert registered[Pack(0, 1)] !in queue.Values;
    }
  }

  /** The corrected queue: every pair visited so far, as its index pair. */
  ghost predicate QueuedByIndex(basis: seq<seq<Term>>, i: nat, j: nat, queue: set<(nat, nat)>)
  {
    forall q :: q in queue <==> q.0 < q.1 < |basis| && Visited(q.0, q.1, i, j)
  }

  lemma QueuedByIndexStep(basis: seq<seq<Term>>, i: nat, j: nat, queue: set<(nat, nat)>)
    requires i < j < |basis| && QueuedByIndex(basis, i, j, queue)
    ensures QueuedByIndex(basis, i, j + 1, queue + {(i, j)})
  {
  }

  /** The pair loop with the queue as a set of index pairs: every
      pair i < j is both registered and queued. */
  method InitialPairs(n: nat, basis: seq<seq<Term>>)
    returns (queue: set<(nat, nat)>, registered: map<nat, SyzygyPair>)
    requires AllSized(n, basis) && |basis| <= MaxInt + 1
    ensures forall q :: q in queue <==> q.0 < q.1 < |basis|
    ensures Registered(n, basis, |basis|, |basis| + 1, registered)
  {
    queue, registered := {}, map[];
    for i: nat := 0 to |basis|
      invariant Registered(n, basis, i, i + 1, registered) && QueuedByIndex(basis, i, i + 1, queue)
    {
      for j: nat := i + 1 to |basis|
        invariant Registered(n, basis, i, j, registered) && QueuedByIndex(basis, i, j, queue)
      {
        var pair := NewSyzygyPairAt(n, i, j, basis);
        RegisteredStep(n, basis, i, j, registered);
        QueuedByIndexStep(basis, i, j, queue);
        queue := queue + {(i, j)};
        registered := registered[Pack(i, j) := pair];
      }
      VisitedRowEnd'(n, basis, i, queue, registered);
    }
  }

  /** Finishing row i is starting row i + 1. */
  lemma VisitedRowEnd'(n: nat, basis: seq<seq<Term>>, i: nat,
                       queue: set<(nat, nat)>, registered: map<nat, SyzygyPair>)
    requires AllSized(n, basis) && |basis| <= MaxInt + 1 && i < |basis|
    requires Registered(n, basis, i, |basis|, registered) && QueuedByIndex(basis, i, |basis|, queue)
    ensures Registered(n, basis, i + 1, i + 2, registered) && QueuedByIndex(basis, i + 1, i + 2, queue)
  {
    assert forall a, b :: 0 <= a < b < |basis| && Visited(a, b, i + 1, i + 2) ==> Visited(a, b, i, |basis|);
  }

  // ---------------------------------------------------------------------
  // Minimisation

  /** Neither of two monomials divides the other. */
  predicate Incomparable(d: seq<nat>, e: seq<nat>)
  {
    !Divides(d, e) && !Divides(e, d)
  }

  /** The list with its element x removed. */
  function RemoveAt<T>(s: seq<T>, x: nat): (r: seq<T>)
    requires x < |s|
    ensures |r| == |s| - 1
    ensures forall y :: 0 <= y < |r| ==> r[y] == if y < x then s[y] else s[y + 1]
  {
    s[..x] + s[x + 1..]
  }

  lemma RemoveAtMultiset<T>(s: seq<T>, x: nat)
    requires x < |s|
    ensures multiset(RemoveAt(s, x)) <= multiset(s)
  {
    assert s == s[..x] + [s[x]] + s[x + 1..];
  }

  /** b2 lists, in order, the entries of b at the strictly increasing
      positions idx. */
  ghost predicate SubsequenceAt<T>(b: seq<T>, b2: seq<T>, idx: seq<nat>)
  {
    |idx| == |b2| &&
    (forall k :: 0 <= k < |idx| ==> idx[k] < |b| && b2[k] == b[idx[k]]) &&
    (forall k, l :: 0 <= k < l < |idx| ==> idx[k] < idx[l])
  }

  /** Removing an entry of a subsequence leaves a subsequence. */
  lemma SubsequenceRemove<T>(b: seq<T>, b2: seq<T>, idx: seq<nat>, x: nat)
    requires SubsequenceAt(b, b2, idx) && x < |b2|
    ensures SubsequenceAt(b, RemoveAt(b2, x), RemoveAt(idx, x))
  {
  }

  /** The result lists, in order, the monic associates of the entries of
      basis at the strictly increasing positions idx. */
  ghost predicate MonicSubsequence(n: nat, p: int, basis: seq<seq<Term>>, result: seq<seq<Term>>, idx: seq<nat>)
    requires IsPrime(p) && AllPolys(n, p, basis)
  {
    |idx| == |result| &&
    (forall k :: 0 <= k < |idx| ==> idx[k] < |basis| && result[k] == Monic(n, p, basis[idx[k]])) &&
    (forall k, l :: 0 <= k < l < |idx| ==> idx[k] < idx[l])
  }

  /** The leading monomials of a list of polynomials. */
  function LeadingMonomials(n: nat, p: int, b: seq<seq<Term>>): (m: seq<seq<nat>>)
    requires AllPolys(n, p, b)
    ensures |m| == |b| && forall k :: 0 <= k < |b| ==> m[k] == Lt(n, b[k])
  {
    seq(|b|, k requires 0 <= k < |b| => Lt(n, b[k]))
  }

  lemma LeadingMonomialsRemove(n: nat, p: int, b: seq<seq<Term>>, x: nat)
    requires AllPolys(n, p, b) && x < |b|
    ensures AllPolys(n, p, RemoveAt(b, x))
    ensures LeadingMonomials(n, p, RemoveAt(b, x)) == RemoveAt(LeadingMonomials(n, p, b), x)
  {
  }

  /** Every pair of distinct positions one of which lies above i holds
      incomparable monomials. */
  predicate Settled(m: seq<seq<nat>>, i: int)
  {
    forall k, l :: 0 <= k < |m| && 0 <= l < |m| && k != l && (k > i || l > i) ==> Incomparable(m[k], m[l])
  }

  /** Position i is incomparable with every position strictly between j and i. */
  predicate RowSettled(m: seq<seq<nat>>, i: nat, j: int)
    requires i < |m|
  {
    forall l :: 0 <= l && j < l < i ==> Incomparable(m[i], m[l])
  }

  /** Every target monomial is divisible by some monomial of m. */
  predicate Covers(m: seq<seq<nat>>, targets: seq<seq<nat>>)
  {
    forall k :: 0 <= k < |targets| ==> CoveredBy(m, targets[k])
  }

  /** Some monomial of m divides t. */
  predicate CoveredBy(m: seq<seq<nat>>, t: seq<nat>)
  {
    exists g :: 0 <= g < |m| && Divides(m[g], t)
  }

  /** g is the monic associate of an element of the basis. */
  predicate MonicOfInput(n: nat, p: int, basis: seq<seq<Term>>, g: seq<Term>)
    requires IsPrime(p)
  {
    exists f :: f in basis && IsPoly(n, p, f) && g == Monic(n, p, f)
  }

  /** Removing a monomial that another one divides keeps the coverage. */
  lemma RemoveDivisible(m: seq<seq<nat>>, targets: seq<seq<nat>>, x: nat, y: nat)
    requires x < |m| && y < |m| && x != y && Divides(m[y], m[x]) && Covers(m, targets)
    ensures Covers(RemoveAt(m, x), targets)
  {
    var r := RemoveAt(m, x);
    var y' := if y < x then y else y - 1;
    assert r[y'] == m[y];
    forall k | 0 <= k < |targets|
      ensures CoveredBy(r, targets[k])
    {
      var g :| 0 <= g < |m| && Divides(m[g], targets[k]);
      if g == x {
        DividesTrans(m[y], m[x], targets[k]);
        assert Divides(r[y'], targets[k]);
      } else {
        var g' := if g < x then g else g - 1;
        assert r[g'] == m[g];
      }
    }
  }

  /** Removing position i itself. */
  lemma RemoveCurrent(m: seq<seq<nat>>, i: nat)
    requires i < |m| && Settled(m, i)
    ensures Settled(RemoveAt(m, i), i as int - 1)
  {
    var r := RemoveAt(m, i);
    forall k, l | 0 <= k < |r| && 0 <= l < |r| && k != l && (k > i - 1 || l > i - 1)
      ensures Incomparable(r[k], r[l])
    {
      var k', l' := if k < i then k else k + 1, if l < i then l else l + 1;
      assert r[k] == m[k'] && r[l] == m[l'];
    }
  }

  /** Removing a position j below i, which moves i down by one. */
  lemma RemoveLower(m: seq<seq<nat>>, i: nat, j: nat)
    requires j < i < |m| && Settled(m, i) && RowSettled(m, i, j)
    ensures Settled(RemoveAt(m, j), i - 1) && RowSettled(RemoveAt(m, j), i - 1, j as int - 1)
  {
    var r := RemoveAt(m, j);
    forall k, l | 0 <= k < |r| && 0 <= l < |r| && k != l && (k > i - 1 || l > i - 1)
      ensures Incomparable(r[k], r[l])
    {
      var k', l' := if k < j then k else k + 1, if l < j then l else l + 1;
      assert r[k] == m[k'] && r[l] == m[l'];
    }
    forall l | 0 <= l && j - 1 < l < i - 1
      ensures Incomparable(r[i - 1], r[l])
    {
      assert r[i - 1] == m[i] && r[l] == m[l + 1];
    }
  }

  /** Position i compared with every position below it. */
  lemma RowDone(m: seq<seq<nat>>, i: nat)
    requires i < |m| && Settled(m, i) && RowSettled(m, i, -1)
    ensures Settled(m, i as int - 1)
  {
    forall k, l | 0 <= k < |m| && 0 <= l < |m| && k != l && (k > i - 1 || l > i - 1)
      ensures Incomparable(m[k], m[l])
    {
      if k == i && l < i {
        assert Incomparable(m[i], m[l]);
      } else if l == i && k < i {
        assert Incomparable(m[i], m[k]);
      }
    }
  }

  /** `minimizeGroebnerBases`: scanning i from the top and j below it, drop
      b[i] when lt(b[j]) divides lt(b[i]) and drop b[j] when lt(b[i])
      divides lt(b[j]); then make every survivor monic.  The survivors'
      leading monomials form an antichain under divisibility that still
      divides every input leading monomial, and each survivor is the monic
      associate of an input element; the survivors keep their relative
      order. */
  method MinimizeGroebnerBases(n: nat, p: int, basis: seq<seq<Term>>) returns (result: seq<seq<Term>>)
    requires IsPrime(p) && AllPolys(n, p, basis)
    ensures AllPolys(n, p, result) && |result| <= |basis|
    ensures forall k :: 0 <= k < |result| && result[k] != [] ==> result[k][0].coef == 1
    ensures Settled(LeadingMonomials(n, p, result), 0)
    ensures Covers(LeadingMonomials(n, p, result), LeadingMonomials(n, p, basis))
    ensures forall k :: 0 <= k < |result| ==> MonicOfInput(n, p, basis, result[k])
    ensures exists idx :: MonicSubsequence(n, p, basis, result, idx)
  {
    var b := basis;
    ghost var idx: seq<nat> := seq(|b|, k => k);
    ghost var targets := LeadingMonomials(n, p, basis);
    assert Covers(targets, targets) by {
      forall k | 0 <= k < |targets|
        ensures CoveredBy(targets, targets[k])
      {
        assert Divides(targets[k], targets[k]);
      }
    }
    var i := |b| - 1;
    while i >= 1
      invariant OuterState(n, p, basis, b, i, targets)
      invariant SubsequenceAt(basis, b, idx)
      decreases i
    {
      ghost var b1, i1 := b, i;
      b, i, idx := SettleRow(n, p, b, i, targets, basis, idx);
      OuterStateTrans(n, p, basis, b1, b, i1, i, targets);
    }
    result := MonicAll(n, p, b);
    MonicAllKeeps(n, p, b, basis, result);
    assert MonicSubsequence(n, p, basis, result, idx);
  }

  /** What the outer loop of `minimizeGroebnerBases` keeps: b2 is what is
      left of b, position i2 and every position above it are settled, and
      the leading monomials still cover the targets. */
  ghost predicate OuterState(n: nat, p: int, b: seq<seq<Term>>, b2: seq<seq<Term>>, i2: int, targets: seq<seq<nat>>)
  {
    AllPolys(n, p, b2) && -1 <= i2 < |b2| <= |b| && multiset(b2) <= multiset(b) &&
    Settled(LeadingMonomials(n, p, b2), i2) && Covers(LeadingMonomials(n, p, b2), targets)
  }

  /** What the inner loop keeps: in addition, position i2 is incomparable
      with every position between j and i2. */
  ghost predicate InnerState(n: nat, p: int, b: seq<seq<Term>>, b2: seq<seq<Term>>, i2: int, j: int,
                             targets: seq<seq<nat>>)
  {
    OuterState(n, p, b, b2, i2, targets) && -1 <= j < i2 &&
    RowSettled(LeadingMonomials(n, p, b2), i2, j)
  }

  /** lt(b2[j]) divides lt(b2[i2]): b2[i2] goes and the row is finished. */
  lemma DropCurrent(n: nat, p: int, b: seq<seq<Term>>, b2: seq<seq<Term>>, i2: nat, j: nat, targets: seq<seq<nat>>)
    requires InnerState(n, p, b, b2, i2, j, targets)
    requires Divides(Lt(n, b2[j]), Lt(n, b2[i2]))
    ensures OuterState(n, p, b, RemoveAt(b2, i2), i2 - 1, targets)
  {
    var m := LeadingMonomials(n, p, b2);
    RemoveDivisible(m, targets, i2, j);
    RemoveCurrent(m, i2);
    LeadingMonomialsRemove(n, p, b2, i2);
    RemoveAtMultiset(b2, i2);
  }

  /** lt(b2[i2]) divides lt(b2[j]): b2[j] goes and i2 moves down with it. */
  lemma DropLower(n: nat, p: int, b: seq<seq<Term>>, b2: seq<seq<Term>>, i2: nat, j: nat, targets: seq<seq<nat>>)
    requires InnerState(n, p, b, b2, i2, j, targets)
    requires Divides(Lt(n, b2[i2]), Lt(n, b2[j]))
    ensures InnerState(n, p, b, RemoveAt(b2, j), i2 - 1, j - 1, targets)
  {
    var m := LeadingMonomials(n, p, b2);
    RemoveDivisible(m, targets, j, i2);
    RemoveLower(m, i2, j);
    LeadingMonomialsRemove(n, p, b2, j);
    RemoveAtMultiset(b2, j);
  }

  /** Neither divides the other: both stay. */
  lemma KeepBoth(n: nat, p: int, b: seq<seq<Term>>, b2: seq<seq<Term>>, i2: nat, j: nat, targets: seq<seq<nat>>)
    requires InnerState(n, p, b, b2, i2, j, targets)
    requires !Divides(Lt(n, b2[j]), Lt(n, b2[i2])) && !Divides(Lt(n, b2[i2]), Lt(n, b2[j]))
    ensures InnerState(n, p, b, b2, i2, j - 1, targets)
  {
  }

  /** Row i2 compared with every position below it. */
  lemma RowFinished(n: nat, p: int, b: seq<seq<Term>>, b2: seq<seq<Term>>, i2: nat, targets: seq<seq<nat>>)
    requires InnerState(n, p, b, b2, i2, -1, targets)
    ensures OuterState(n, p, b, b2, i2 - 1, targets)
  {
    RowDone(LeadingMonomials(n, p, b2), i2);
  }

  /** One pass of the inner loop of `minimizeGroebnerBases` over j below i,
      followed by the outer loop's step to the next i. */
  method SettleRow(n: nat, p: int, b: seq<seq<Term>>, i: nat, ghost targets: seq<seq<nat>>,
                   ghost orig: seq<seq<Term>>, ghost idx: seq<nat>)
    returns (b2: seq<seq<Term>>, i2: int, ghost idx2: seq<nat>)
    requires OuterState(n, p, b, b, i, targets) && i >= 1
    requires SubsequenceAt(orig, b, idx)
    ensures OuterState(n, p, b, b2, i2, targets) && i2 < i
    ensures SubsequenceAt(orig, b2, idx2)
  {
    b2, i2, idx2 := b, i, idx;
    var j := i - 1;
    while j >= 0
      invariant InnerState(n, p, b, b2, i2, j, targets) && i2 <= i
      invariant SubsequenceAt(orig, b2, idx2)
      decreases j
    {
      var iDivisible := DividesQ(Lt(n, b2[i2]), Lt(n, b2[j]));
      if iDivisible {
        DropCurrent(n, p, b, b2, i2, j, targets);
        SubsequenceRemove(orig, b2, idx2, i2);
        b2, i2, idx2 := RemoveAt(b2, i2), i2 - 1, RemoveAt(idx2, i2);
        return;
      }
      var jDivisible := DividesQ(Lt(n, b2[j]), Lt(n, b2[i2]));
      if jDivisible {
        DropLower(n, p, b, b2, i2, j, targets);
        SubsequenceRemove(orig, b2, idx2, j);
        b2, i2, idx2 := RemoveAt(b2, j), i2 - 1, RemoveAt(idx2, j);
      } else {
        KeepBoth(n, p, b, b2, i2, j, targets);
      }
      j := j - 1;
    }
    RowFinished(n, p, b, b2, i2, targets);
    i2 := i2 - 1;
  }

  /** The states of two consecutive passes chain. */
  lemma OuterStateTrans(n: nat, p: int, b: seq<seq<Term>>, b1: seq<seq<Term>>, b2: seq<seq<Term>>, i1: int, i2: int,
                        targets: seq<seq<nat>>)
    requires OuterState(n, p, b, b1, i1, targets) && OuterState(n, p, b1, b2, i2, targets)
    ensures OuterState(n, p, b, b2, i2, targets)
  {
  }

  /** Making every element monic keeps the leading monomials, and every
      element of the result comes from the input. */
  lemma MonicAllKeeps(n: nat, p: int, b: seq<seq<Term>>, basis: seq<seq<Term>>, result: seq<seq<Term>>)
    requires IsPrime(p) && AllPolys(n, p, b) && AllPolys(n, p, result) && AllPolys(n, p, basis)
    requires |result| == |b| && forall k :: 0 <= k < |b| ==> result[k] == Monic(n, p, b[k])
    requires multiset(b) <= multiset(basis)
    ensures LeadingMonomials(n, p, result) == LeadingMonomials(n, p, b)
    ensures forall k :: 0 <= k < |result| && result[k] != [] ==> result[k][0].coef == 1
    ensures forall k :: 0 <= k < |result| ==> MonicOfInput(n, p, basis, result[k])
  {
    forall k | 0 <= k < |result|
      ensures LeadingMonomials(n, p, result)[k] == LeadingMonomials(n, p, b)[k]
      ensures result[k] != [] ==> result[k][0].coef == 1
      ensures MonicOfInput(n, p, basis, result[k])
    {
      assert b[k] in multiset(b);
      assert b[k] in basis;
    }
  }

  /** The closing loop of `minimizeGroebnerBases`: every element made monic. */
  method MonicAll(n: nat, p: int, b: seq<seq<Term>>) returns (result: seq<seq<Term>>)
    requires IsPrime(p) && AllPolys(n, p, b)
    ensures |result| == |b| && AllPolys(n, p, result)
    ensures forall k :: 0 <= k < |b| ==> result[k] == Monic(n, p, b[k])
  {
    result := b;
    for k := 0 to |b|
      invariant |result| == |b| && AllPolys(n, p, result)
      invariant forall m :: 0 <= m < k ==> result[m] == Monic(n, p, b[m])
      invariant forall m :: k <= m < |b| ==> result[m] == b[m]
    {
      result := result[k := Monic(n, p, result[k])];
    }
  }
}
