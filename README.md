# Univariate and multivariate polynomial core of rings, in Dafny

This project models the polynomial core of the rings library (packages
`cc.r2.core.poly` and, for the Groebner basis helpers,
`cc.redberry.rings.poly.multivar`) and proves what its code promises:

- **Domain** (`domain.dfy`): the integers modulo p. Covers residues, exact
  and partial division, square-and-multiply `pow`, negative one, and the
  field and finiteness flags.
- **lUnivariatePolynomialZp** (`polyzp.dfy`): a class with the fields
  `modulus`, `data` and `degree`. Its methods work in place (`monic`,
  `multiply`, `square`, `setModulusUnsafe`) or return fresh objects
  (`derivative`, `getRange`, `clone`, `setModulus`, `asPolyZSymmetric`,
  the factories). Each method is proved against the polynomial the object
  stands for.
  - The values behind it: `upoly.dfy`, `polyring.dfy`, `polycoef.dfy`,
    `polydiv.dfy` and `polymod.dfy` hold dense polynomials over Z_p,
    lowest degree first and trimmed. They give the ring laws, coefficient
    access, derivative, long division, divisibility and congruences
    modulo m.
- **PolynomialGCD** (`euclid.dfy`, `zgcd.dfy`):
  - Euclid's remainder sequence and `PolynomialRemainders.gcd()`;
  - the extended algorithm with its Bezout identity;
  - the monic gcd over Z_p and its n-ary overloads;
  - the trivial-case prelude of `ModularGCD` over Z[x].
- **ModularComposition** (`composition.dfy`): the power tables `xPowers`
  and `polyPowers`, `powModulusMod`, and the Horner and Brent–Kung
  compositions. Both compositions are proved to compute poly(point) mod m.
- **SquareFreeFactorization** (`decomposition.dfy`, `squarefree.dfy`,
  `binomial.dfy`):
  - factor decompositions as values;
  - Yun's and Musser's algorithms and the Z_p algorithm (Musser0);
  - `pRoot`, `isSquareFree`, the dispatch and `SquareFreePart`.
  The binomial theorem, the freshman's dream, Fermat's little theorem and
  the Frobenius identity r^p = r(x^p) over Z_p are proved. They justify
  the p-th root step.
- **MultivariateGCD** (`monomials.dfy`, `multigcd.dfy`, `pairiter.dfy`,
  `linzip.dfy`): the deterministic bookkeeping of the modular GCD
  algorithms:
  - `inversePermutation` and `trivialGCD`;
  - the monomial content and `reduceMonomialContent`;
  - degree bounds, the descending reorder and the extension degree in
    `preparedGCDInput`;
  - `PairIterator`;
  - the skeleton, evaluation rows and Vandermonde check of sparse
    interpolation;
  - the layout of the LinZip global system.
- **GroebnerBasis** (`multipoly.dfy`, `groebner.dfy`): the helpers of
  Buchberger's algorithm:
  - `dividesQ`, `shareVariablesQ` and `pack`;
  - `SyzygyPair` and `syzygy` (the S-polynomial);
  - the critical-pair loop and the chain criterion;
  - the initial pair queue of `BuchbergerGB3`;
  - `minimizeGroebnerBases`.

Coefficients are unbounded integers kept in [0, p). A failure the Java
code signals by an exception or a `null` is a `Result` or `Option`. A
sparse multivariate polynomial is a list of terms in descending
lexicographic order.

## Model

| member | source | states |
|---|---|---|
| Domain.ZpFiniteField | src/main/java/cc/r2/core/poly/Domain.java:35-46 | Z_p reports a size, so it is finite; it is a finite field exactly when p is prime |
| Domain.ValueOf | src/main/java/cc/r2/core/poly/Domain.java:190 | the residue of any integer lies in [0, p) and is congruent to it |
| Domain.NegativeOne | src/main/java/cc/r2/core/poly/Domain.java:154-156 | the negation of one is a residue r with r + 1 ≡ 0 (mod p) |
| Domain.IsMinusOne | src/main/java/cc/r2/core/poly/Domain.java:180-182 | holds exactly for p - 1; among residues, exactly for the one whose successor is ≡ 0 (mod p), the negation of one |
| Domain.DivideAndRemainder | src/main/java/cc/r2/core/poly/Domain.java:100 | over Z_p: fails exactly when the divisor is ≡ 0; otherwise a residue quotient and a zero remainder |
| Domain.DivideExact | src/main/java/cc/r2/core/poly/Domain.java:102-107 | fails exactly when the divisor is ≡ 0 (no exact quotient); otherwise q·b ≡ a (mod p) |
| Domain.QuotientTimesDivisor | src/main/java/cc/r2/core/poly/Domain.java:102-107 | (a·b⁻¹)·b ≡ a (mod p), the reason divideExact's quotient is exact |
| Domain.DivideOrNull | src/main/java/cc/r2/core/poly/Domain.java:109-116 | a divisor equal to one returns `a` itself, untouched; otherwise fails exactly when the divisor is ≡ 0, else a residue quotient |
| Domain.PowStep | src/main/java/cc/r2/core/poly/Domain.java:277-284 | one round of square-and-multiply keeps result·k2p^exponent ≡ base^e |
| Domain.Pow | src/main/java/cc/r2/core/poly/Domain.java:271-285 | a negative exponent is an error (and only it); otherwise the result is base^e mod p |
| Domain.PowZero | src/main/java/cc/r2/core/poly/Domain.java:275 | base^0 is one for every base |
| Domain.CreateZeroesArray | src/main/java/cc/r2/core/poly/Domain.java:240-246 | a fresh array of the given length, every entry zero |
| Domain.ValueOfArray | src/main/java/cc/r2/core/poly/Domain.java:192-197 | a fresh array of the same length holding each entry's residue |
| Domain.SetToValueOf | src/main/java/cc/r2/core/poly/Domain.java:207-210 | every entry replaced by its residue, in place, length unchanged |
| PolyZp.SymmetricForm | src/main/java/cc/r2/core/poly/univar2/lUnivariatePolynomialZp.java:165-168 | the representative in [-p/2, p/2] of a residue: maps back to the residue, zero exactly for zero |
| PolyZp.UnivariatePolynomialZp.Value | src/main/java/cc/r2/core/poly/univar2/lUnivariatePolynomialZp.java:14-22 | the polynomial an object stands for is canonical (trimmed, residues) |
| PolyZp.UnivariatePolynomialZp.Layout | src/main/java/cc/r2/core/poly/univar2/lUnivariatePolynomialZp.java:14-26 | the degree field indexes the leading entry, entries above it are zero, coefficient i is data[i], degree is the polynomial's degree |
| PolyZp.UnivariatePolynomialZp.IsZero | src/main/java/cc/r2/core/poly/univar2/lUnivariatePolynomialZp.java:272 | zero test holds exactly for the zero polynomial |
| PolyZp.UnivariatePolynomialZp.IsMonic | src/main/java/cc/r2/core/poly/univar2/lUnivariatePolynomialZp.java:270 | holds exactly when the leading coefficient is one |
| PolyZp.UnivariatePolynomialZp.WithDegree | src/main/java/cc/r2/core/poly/univar2/lUnivariatePolynomialZp.java:18-22 | the degree-trusting constructor stores exactly the given modulus, array and degree |
| PolyZp.UnivariatePolynomialZp.constructor | src/main/java/cc/r2/core/poly/univar2/lUnivariatePolynomialZp.java:24-27 | the array-only constructor fixes the degree: the object is valid and stands for the trimmed array |
| PolyZp.UnivariatePolynomialZp.SetModulusUnsafe | src/main/java/cc/r2/core/poly/univar2/lUnivariatePolynomialZp.java:141-143 | shares the array and degree; valid under the new modulus exactly when every entry is below it, then the same polynomial |
| PolyZp.UnivariatePolynomialZp.SetModulus | src/main/java/cc/r2/core/poly/univar2/lUnivariatePolynomialZp.java:151-156 | a fresh copy reduced coefficient-wise modulo the new modulus (the receiver is unchanged); same polynomial when the modulus is the same |
| PolyZp.UnivariatePolynomialZp.AsPolyZSymmetric | src/main/java/cc/r2/core/poly/univar2/lUnivariatePolynomialZp.java:165-170 | same length (degree kept), each coefficient its symmetric representative in [-p/2, p/2], congruent to the original, leading one nonzero |
| PolyZp.UnivariatePolynomialZp.GetRange | src/main/java/cc/r2/core/poly/univar2/lUnivariatePolynomialZp.java:197-199 | a fresh polynomial whose coefficient i is coefficient from+i of the receiver, for i < to-from |
| PolyZp.UnivariatePolynomialZp.Clone | src/main/java/cc/r2/core/poly/univar2/lUnivariatePolynomialZp.java:393-395 | a fresh object with its own array equal to the receiver's, same degree and value |
| PolyZp.UnivariatePolynomialZp.CreateMonomialInDomainAsWritten | src/main/java/cc/r2/core/poly/univar2/lUnivariatePolynomialZp.java:216-220 | as written: degree newDegree with an all-zero array below; the result is valid exactly when newDegree is 0 or the coefficient is not ≡ 0 |
| PolyZp.UnivariatePolynomialZp.CreateMonomialInDomain | src/main/java/cc/r2/core/poly/univar2/lUnivariatePolynomialZp.java:216-220 | corrected: a valid object standing for (c mod p)·x^newDegree (the zero polynomial when c ≡ 0) |
| PolyZp.UnivariatePolynomialZp.SetValue | src/main/java/cc/r2/core/poly/univar2/lUnivariatePolynomialZp.java:330-337 | replacing the data by a product's coefficients leaves a valid object standing for exactly that product |
| PolyZp.UnivariatePolynomialZp.ToZero | src/main/java/cc/r2/core/poly/univar2/lUnivariatePolynomialZp.java:314 | the object becomes the zero polynomial |
| PolyZp.UnivariatePolynomialZp.ScaleInPlace | src/main/java/cc/r2/core/poly/univar2/lUnivariatePolynomialZp.java:320 | multiply(long): every coefficient times k in place; the value is k times the old value |
| PolyZp.UnivariatePolynomialZp.Monic | src/main/java/cc/r2/core/poly/univar2/lUnivariatePolynomialZp.java:269-279 | in place; the new value is the monic associate: zero and monic inputs unchanged, a constant becomes one, otherwise scaled by lc⁻¹ |
| PolyZp.UnivariatePolynomialZp.MonicWithFactor | src/main/java/cc/r2/core/poly/univar2/lUnivariatePolynomialZp.java:288-290 | fails (reciprocal of a zero leading coefficient) exactly on the zero polynomial, leaving it unchanged; otherwise the value is (factor mod p) times the monic associate, so its leading coefficient is factor mod p |
| PolyZp.UnivariatePolynomialZp.Square | src/main/java/cc/r2/core/poly/univar2/lUnivariatePolynomialZp.java:344-364 | in place; the value becomes the square of the old value |
| PolyZp.UnivariatePolynomialZp.Multiply | src/main/java/cc/r2/core/poly/univar2/lUnivariatePolynomialZp.java:310-340 | in place; zero stays zero, a zero argument gives zero, different moduli are an error; otherwise the product of the old values |
| PolyZp.UnivariatePolynomialZp.Derivative | src/main/java/cc/r2/core/poly/univar2/lUnivariatePolynomialZp.java:367-383 | a fresh valid object standing for the formal derivative (constant → zero) |
| PolyZp.CopyOf | src/main/java/cc/r2/core/poly/univar2/lUnivariatePolynomialZp.java:152 | an array clone: fresh, same contents |
| PolyZp.TrimReduce | src/main/java/cc/r2/core/poly/univar2/lUnivariatePolynomialZp.java:151-156 | reducing every entry modulo q reduces every coefficient of the trimmed value; entries already residues are left alone |
| PolyZp.DerivativeCoefficients | src/main/java/cc/r2/core/poly/univar2/lUnivariatePolynomialZp.java:371-381 | both loop shapes give newData[i-1] = data[i]·(i mod p) mod p, so the terms whose index is a multiple of p vanish |
| PolyZp.Create | src/main/java/cc/r2/core/poly/univar2/lUnivariatePolynomialZp.java:41-45 | reduces the given array in place and wraps it: every coefficient is its residue, the object valid |
| PolyZp.Linear | src/main/java/cc/r2/core/poly/univar2/lUnivariatePolynomialZp.java:55-57 | cc + lc·x, both reduced |
| PolyZp.CreateMonomial | src/main/java/cc/r2/core/poly/univar2/lUnivariatePolynomialZp.java:75-81 | (c mod p)·x^e: exactly one possibly-nonzero coefficient, at e |
| PolyZp.Constant | src/main/java/cc/r2/core/poly/univar2/lUnivariatePolynomialZp.java:90-93 | the residue of value as a degree-0 polynomial |
| PolyZp.ZeroPolynomial | src/main/java/cc/r2/core/poly/univar2/lUnivariatePolynomialZp.java:101-103 | the zero polynomial |
| PolyZp.OnePolynomial | src/main/java/cc/r2/core/poly/univar2/lUnivariatePolynomialZp.java:121-123 | the constant one |
| PolyCoef.MonicLc | src/main/java/cc/r2/core/poly/univar2/lUnivariatePolynomialZp.java:269-279 | the monic associate keeps the length, has leading coefficient one, and equals its input exactly when the input is zero or already monic |
| PolyCoef.MonicIdempotent | src/main/java/cc/r2/core/poly/univar2/lUnivariatePolynomialZp.java:269-271 | making a monic polynomial monic changes nothing |
| PolyCoef.MonicAssociate | src/main/java/cc/r2/core/poly/univar2/lUnivariatePolynomialZp.java:278 | the monic associate and the input divide each other |
| PolyCoef.LcMonic | src/main/java/cc/r2/core/poly/univar2/lUnivariatePolynomialZp.java:278 | a polynomial is its leading coefficient times its monic associate |
| PolyCoef.CoefDeriv | src/main/java/cc/r2/core/poly/univar2/lUnivariatePolynomialZp.java:367-383 | coefficient i of the derivative is a[i+1]·((i+1) mod p) mod p, zero when p divides i+1; constants have derivative zero |
| PolyCoef.DerivAdd | src/main/java/cc/r2/core/poly/univar2/lUnivariatePolynomialZp.java:367-383 | the derivative is additive |
| PolyCoef.DerivScale | src/main/java/cc/r2/core/poly/univar2/lUnivariatePolynomialZp.java:367-383 | the derivative commutes with scaling |
| UnivariateGcd.PolynomialRemainders.Gcd | src/main/java/cc/r2/core/poly/univar2/PolynomialGCD.java:359-363 | the answer is the first element (the case [a, 0]) or the last one; SequenceGcd ties it to the gcd |
| UnivariateGcd.SequenceGcd | src/main/java/cc/r2/core/poly/univar2/PolynomialGCD.java:40-61 | the gcd() of the Euclid sequence is the gcd of the inputs (GcdOf) |
| UnivariateGcd.RemaindersChain | src/main/java/cc/r2/core/poly/univar2/PolynomialGCD.java:49-60 | each appended element is the nonzero remainder of the two before it, and the sequence stops at the first zero remainder |
| UnivariateGcd.EuclidSequenceShape | src/main/java/cc/r2/core/poly/univar2/PolynomialGCD.java:41-61 | the sequence starts with the higher-degree input, a zero input gives just the two inputs, and otherwise it is a remainder sequence |
| UnivariateGcd.LastRemainderDivisors | src/main/java/cc/r2/core/poly/univar2/PolynomialGCD.java:49-60 | the last nonzero remainder is divided by exactly the common divisors of the two inputs |
| UnivariateGcd.GcdDivisors | src/main/java/cc/r2/core/poly/univar2/PolynomialGCD.java:40-61 | d divides the gcd exactly when it divides both inputs; the gcd is zero exactly when both inputs are |
| UnivariateGcd.GcdDividesBoth | src/main/java/cc/r2/core/poly/univar2/PolynomialGCD.java:40-61 | the gcd divides both inputs |
| UnivariateGcd.Euclid | src/main/java/cc/r2/core/poly/univar2/PolynomialGCD.java:40-62 | the remainder-sequence loop builds exactly the Euclid sequence |
| UnivariateGcd.EuclidFromGcd | src/main/java/cc/r2/core/poly/univar2/PolynomialGCD.java:79-95 | the extended loop's remainder recurrence ends in the same gcd |
| UnivariateGcd.BezoutStep | src/main/java/cc/r2/core/poly/univar2/PolynomialGCD.java:84-94 | one rotation of (r, s, t) keeps r = a·s + b·t |
| UnivariateGcd.ExtendedEuclid | src/main/java/cc/r2/core/poly/univar2/PolynomialGCD.java:72-103 | returns g, s, t with g the gcd and g = a·s + b·t |
| UnivariateGcd.MonicGcdIsGcd | src/main/java/cc/r2/core/poly/univar2/PolynomialGCD.java:684-685 | the monic gcd is divided by exactly the common divisors, is zero only for two zero inputs, and is monic |
| UnivariateGcd.MonicGcdUnique | src/main/java/cc/r2/core/poly/univar2/PolynomialGCD.java:684-685 | any monic common divisor that every common divisor divides is the monic gcd |
| UnivariateGcd.MonicGcdComm | src/main/java/cc/r2/core/poly/univar2/PolynomialGCD.java:684-685 | the monic gcd does not depend on argument order |
| UnivariateGcd.PolynomialGcd | src/main/java/cc/r2/core/poly/univar2/PolynomialGCD.java:683-685 | the Z_p branch returns the Euclid gcd made monic |
| UnivariateGcd.FoldGcdDivisors | src/main/java/cc/r2/core/poly/univar2/PolynomialGCD.java:706-711 | the fold is divided by exactly the common divisors of all inputs |
| UnivariateGcd.FoldGcdMonic | src/main/java/cc/r2/core/poly/univar2/PolynomialGCD.java:706-711 | the fold over at least two inputs is zero or monic |
| UnivariateGcd.PolynomialGcdOfArray | src/main/java/cc/r2/core/poly/univar2/PolynomialGCD.java:706-711 | fails, as the out-of-bounds read of `polynomials[0]` does, exactly for an empty argument list; otherwise the left fold of the binary gcd from the first element |
| UnivariateGcd.PolynomialGcdOfIterable | src/main/java/cc/r2/core/poly/univar2/PolynomialGCD.java:719-724 | null exactly for no input; otherwise the left fold (the single element for one input) |
| ModularComposition.ComposeX | src/main/java/cc/r2/core/poly/univar2/ModularComposition.java:232-238 | composing with the point x gives the polynomial back (Horner by x rebuilds the coefficient list) |
| ModularComposition.ComposeSplit | src/main/java/cc/r2/core/poly/univar2/ModularComposition.java:183-194 | a coefficient range composed with pt splits at any midpoint into the low part plus pt^k times the high part, the identity Brent–Kung recombines by |
| ModularComposition.ComposeRangeAgree | src/main/java/cc/r2/core/poly/univar2/ModularComposition.java:187 | ranges with the same coefficients give the same composition |
| ModularComposition.Range | src/main/java/cc/r2/core/poly/univar2/ModularComposition.java:187 | getRange: coefficient i of the chunk is coefficient from+i of the input |
| ModularComposition.RangeCompose | src/main/java/cc/r2/core/poly/univar2/ModularComposition.java:187-188 | composing the chunk taken by getRange equals composing that range of coefficients in place |
| ModularComposition.PowerTableCongruent | src/main/java/cc/r2/core/poly/univar2/ModularComposition.java:45-52 | each table entry is congruent mod m to its power of pt |
| ModularComposition.RemPow | src/main/java/cc/r2/core/poly/univar2/ModularComposition.java:40 | reducing the base mod m before raising it to a power does not change the power mod m |
| ModularComposition.PowerTableAppend | src/main/java/cc/r2/core/poly/univar2/ModularComposition.java:51-52 | appending prev·base mod m to a table of n+1 powers gives a table of n+2 powers |
| ModularComposition.PolyPowers | src/main/java/cc/r2/core/poly/univar2/ModularComposition.java:38-53 | nIterations+2 entries: entry 0 is one, entry i is poly^i mod m |
| ModularComposition.MulMonomials | src/main/java/cc/r2/core/poly/univar2/ModularComposition.java:26 | x^a · x^b = x^(a+b) |
| ModularComposition.PowMonomial | src/main/java/cc/r2/core/poly/univar2/ModularComposition.java:26 | (x^q)^i = x^(q·i) |
| ModularComposition.XPowers | src/main/java/cc/r2/core/poly/univar2/ModularComposition.java:25-27 | deg(m)+2 entries; entry 0 is one and entry i is x^(i·p) mod m, p the field cardinality |
| ModularComposition.CombinePowers | src/main/java/cc/r2/core/poly/univar2/ModularComposition.java:75-86 | the combination Σ c[i]·P[i] of a power table of pt is congruent mod m to c(pt) |
| ModularComposition.PowModulusMod0 | src/main/java/cc/r2/core/poly/univar2/ModularComposition.java:75-86 | skipping zero coefficients, the result is (Σ data[i]·xPowers[i]) mod m |
| ModularComposition.PowModulusMod | src/main/java/cc/r2/core/poly/univar2/ModularComposition.java:66-72 | with a power table of pt of at least deg(m)+1 entries, the result is (poly mod m)(pt) mod m |
| ModularComposition.HornerAlgebra | src/main/java/cc/r2/core/poly/univar2/ModularComposition.java:237 | reducing the accumulated value mod m inside a Horner step does not change the result |
| ModularComposition.CompositionHorner | src/main/java/cc/r2/core/poly/univar2/ModularComposition.java:232-239 | a constant is returned unchanged; otherwise poly(point) mod m |
| ModularComposition.ChunkStartsAppend | src/main/java/cc/r2/core/poly/univar2/ModularComposition.java:183-190 | the next chunk starts where the previous ended, at min(i+t, deg+1) |
| ModularComposition.BrentKungStep | src/main/java/cc/r2/core/poly/univar2/ModularComposition.java:193-194 | one recombination step, res·pt^t + g_j mod m, extends the composed suffix of coefficients by one chunk |
| ModularComposition.ChunkCompositions | src/main/java/cc/r2/core/poly/univar2/ModularComposition.java:181-190 | the chunks [i, min(i+t, deg+1)) start at 0, follow each other and end at deg+1, so they cover the coefficients once; each g_j is its chunk composed with pt mod m |
| ModularComposition.RecombineChunks | src/main/java/cc/r2/core/poly/univar2/ModularComposition.java:191-195 | Horner in pt^t over the chunk values from the last down gives poly(pt) mod m |
| ModularComposition.CompositionBrentKung | src/main/java/cc/r2/core/poly/univar2/ModularComposition.java:173-196 | a constant is returned unchanged; otherwise poly(pt) mod m, the same value as CompositionHorner |
| SquareFree.ComposeRangeInflate | src/main/java/cc/r2/core/poly/univar2/ModularComposition.java:232-239 | Horner with the point x^p takes a polynomial to x^p: composing coefficients s.. with x^p gives that suffix in x^p |
| SquareFree.ComposeFrobenius | src/main/java/cc/r2/core/poly/univar2/ModularComposition.java:25-27 | composing with x^p, the point of the xPowers table, is raising to the p-th power |
| SquareFree.PowModulusModIsPower | src/main/java/cc/r2/core/poly/univar2/ModularComposition.java:66-72 | with the xPowers table, powModulusMod's result (poly mod m)(x^p) mod m is poly^p mod m |
| Decompositions.ConstantFactor | src/main/java/cc/r2/core/poly/univar2/SquareFreeFactorization.java:28 | constantFactor(c): unit c and no factors, standing for c |
| Decompositions.OneFactor | src/main/java/cc/r2/core/poly/univar2/SquareFreeFactorization.java:59 | oneFactor(c, f): unit c and the single factor f with exponent one |
| Decompositions.AddFactor | src/main/java/cc/r2/core/poly/univar2/SquareFreeFactorization.java:38 | addFactor(f, e) appends f with exponent e and keeps the unit |
| Decompositions.SetConstantFactor | src/main/java/cc/r2/core/poly/univar2/SquareFreeFactorization.java:164 | setConstantFactor(c) replaces the unit and leaves the factors and exponents alone |
| Decompositions.RaiseExponents | src/main/java/cc/r2/core/poly/univar2/SquareFreeFactorization.java:202 | raiseExponents(k) keeps unit and factors and multiplies every exponent by k |
| Decompositions.AddAll | src/main/java/cc/r2/core/poly/univar2/SquareFreeFactorization.java:203 | addAll(o) appends o's factors after d's and multiplies the units |
| Decompositions.ExpandAddFactor | src/main/java/cc/r2/core/poly/univar2/SquareFreeFactorization.java:38 | appending f^e multiplies what the decomposition stands for by f^e |
| Decompositions.ExpandAddAll | src/main/java/cc/r2/core/poly/univar2/SquareFreeFactorization.java:203 | addAll stands for the product of what the two decompositions stand for |
| Decompositions.ExpandRaise | src/main/java/cc/r2/core/poly/univar2/SquareFreeFactorization.java:202 | raising the exponents to k raises the factor product to the k-th power and keeps the unit |
| SquareFree.GcdFacts | src/main/java/cc/r2/core/poly/univar2/SquareFreeFactorization.java:113 | the monic gcd of two polynomials, not both zero, is monic and divides both |
| SquareFree.MusserStep | src/main/java/cc/r2/core/poly/univar2/SquareFreeFactorization.java:123-125 | one round of Musser's loop: with n == gcd(g, q), q/n and g/n are monic exact quotients and u == e·q^j·g becomes u == e·(q/n)^j·n^(j+1)·(g/n) |
| SquareFree.MusserLoop | src/main/java/cc/r2/core/poly/univar2/SquareFreeFactorization.java:112-132 | starting from poly/gcd, the recorded factors (monic, nonconstant, exponents rising with the round) times the leftover gcd give unit·poly; the leftover is monic and divides the starting gcd |
| SquareFree.YunRound | src/main/java/cc/r2/core/poly/univar2/SquareFreeFactorization.java:77-85 | one round of Yun's loop keeps quot₀ == (recorded factors)·quot, each recorded factor monic and not one |
| SquareFree.YunLoop | src/main/java/cc/r2/core/poly/univar2/SquareFreeFactorization.java:66-86 | the recorded factors have increasing exponents, are monic and nonconstant, and multiply to poly / gcd(poly, poly') |
| SquareFree.PRoot | src/main/java/cc/r2/core/poly/univar2/SquareFreeFactorization.java:227-240 | refuses exactly a modulus above Integer.MAX_VALUE; otherwise the descending fill of rootData gives the p-th root PRootOf |
| SquareFree.RootDataSpec | src/main/java/cc/r2/core/poly/univar2/SquareFreeFactorization.java:232-239 | the trimmed rootData the loop fills is the p-th root |
| SquareFree.CoefPRoot | src/main/java/cc/r2/core/poly/univar2/SquareFreeFactorization.java:231-237 | when every nonzero coefficient sits at a multiple of p (the asserts of lines 231 and 236), coefficient j of the root is coefficient j·p of the input |
| SquareFree.RootInflate | src/main/java/cc/r2/core/poly/univar2/SquareFreeFactorization.java:227-240 | the p-th root undoes r(x^p) |
| SquareFree.InflateRoot | src/main/java/cc/r2/core/poly/univar2/SquareFreeFactorization.java:231-237 | a polynomial whose nonzero coefficients sit at multiples of p is its root taken to x^p |
| SquareFree.DerivZeroIffPowers | src/main/java/cc/r2/core/poly/univar2/SquareFreeFactorization.java:178 | over Z_p the derivative is zero exactly when every nonzero coefficient sits at an index divisible by p: the branch condition of Musser0 |
| SquareFree.FrobeniusIdentity | src/main/java/cc/r2/core/poly/univar2/SquareFreeFactorization.java:207-211 | r^p == r(x^p) in Z_p[x] for a prime p, so raising the root's exponents to p gives back the polynomial whose root was taken |
| SquareFree.ExpandRaiseFrobenius | src/main/java/cc/r2/core/poly/univar2/SquareFreeFactorization.java:208-211 | a decomposition of the root with its exponents raised to p stands for the root taken to x^p |
| SquareFree.RootShorter | src/main/java/cc/r2/core/poly/univar2/SquareFreeFactorization.java:208-209 | the root of a nonconstant polynomial is shorter, so Musser0's recursion terminates |
| SquareFree.RootMonic | src/main/java/cc/r2/core/poly/univar2/SquareFreeFactorization.java:208-209 | the root of a monic polynomial with only p-divisible exponents is monic |
| SquareFree.Musser0 | src/main/java/cc/r2/core/poly/univar2/SquareFreeFactorization.java:169-213 | refuses only a modulus above Integer.MAX_VALUE; the unit is one (the input's constant for a constant), every factor monic and nonconstant with a positive exponent; when exact, the decomposition multiplies out to the monic associate of the input |
| SquareFree.Musser0Gcd | src/main/java/cc/r2/core/poly/univar2/SquareFreeFactorization.java:178-206 | poly alone when gcd(poly, poly') is one; otherwise Musser's loop and then the leftover; unit one, positive; when exact, it multiplies out to poly |
| SquareFree.Musser0Leftover | src/main/java/cc/r2/core/poly/univar2/SquareFreeFactorization.java:199-206 | a constant leftover adds nothing; a nonconstant one adds its root's decomposition with exponents raised to p; when exact, the result multiplies out to poly |
| SquareFree.Musser0Power | src/main/java/cc/r2/core/poly/univar2/SquareFreeFactorization.java:207-212 | zero derivative: the root's decomposition, exponents raised to p, unit one; when exact, it multiplies out to poly |
| SquareFree.ExponentOfX | src/main/java/cc/r2/core/poly/univar2/SquareFreeFactorization.java:32 | the exponent scan returns the index of the first nonzero coefficient, the lowest power of x |
| SquareFree.StripX | src/main/java/cc/r2/core/poly/univar2/SquareFreeFactorization.java:36-38 | a polynomial is x^e times its x-free range getRange(e, degree + 1), e its lowest power of x |
| SquareFree.XFreeShape | src/main/java/cc/r2/core/poly/univar2/SquareFreeFactorization.java:36 | the x-free range keeps the leading coefficient, has a nonzero constant term and is shorter by the lowest power |
| SquareFree.ContentSplit | src/main/java/cc/r2/core/poly/univar2/SquareFreeFactorization.java:53-57 | a nonconstant polynomial is its leading coefficient times its monic associate, of the same length |
| SquareFree.LinearCase | src/main/java/cc/r2/core/poly/univar2/SquareFreeFactorization.java:58-59 | for a linear polynomial oneFactor(lc, monic part) is well formed and multiplies out to the polynomial |
| SquareFree.Yun | src/main/java/cc/r2/core/poly/univar2/SquareFreeFactorization.java:49-64 | a constant is its own constant factor; otherwise the unit is the leading coefficient, a linear input gives one factor, and the factors (monic, nonconstant, increasing exponents) multiply to monic(a) / gcd(monic(a), monic(a)') |
| SquareFree.Musser | src/main/java/cc/r2/core/poly/univar2/SquareFreeFactorization.java:95-132 | a constant is its own constant factor; otherwise unit the leading coefficient, and the decomposition times a monic leftover dividing gcd(poly, poly') is the input |
| SquareFree.SquareFreeFactorizationZ | src/main/java/cc/r2/core/poly/univar2/SquareFreeFactorization.java:26-40 | a constant is its own constant factor; otherwise the unit is the leading coefficient, every exponent positive, and the factors multiply to Yun's part of the x-free range times x^e; x^e with exponent one is the only factor when the range is constant |
| SquareFree.ZpContent | src/main/java/cc/r2/core/poly/univar2/SquareFreeFactorization.java:164 | setting the unit to lc turns a decomposition of the monic associate into one of the polynomial |
| SquareFree.ZpMonic | src/main/java/cc/r2/core/poly/univar2/SquareFreeFactorization.java:152-162 | the x-free part's Musser0 decomposition, with x^e appended when e > 0; unit one, positive; when exact, it multiplies out to the monic poly |
| SquareFree.SquareFreeFactorizationZp | src/main/java/cc/r2/core/poly/univar2/SquareFreeFactorization.java:140-165 | a constant gives lc as constant factor; refuses only a modulus above Integer.MAX_VALUE; the unit is lc, every factor monic, nonconstant, with a positive exponent; when exact, the decomposition multiplies out to the input |
| SquareFree.SquareFreeFactorization | src/main/java/cc/r2/core/poly/univar2/SquareFreeFactorization.java:276-281 | Z_p is a field, so the dispatch gives SquareFreeFactorizationZp's answer, with the same guarantees |
| SquareFree.SquareFreeIff | src/main/java/cc/r2/core/poly/univar2/SquareFreeFactorization.java:265-267 | a nonzero polynomial passes isSquareFree (gcd(a, a') constant) exactly when every common divisor of a and a' is constant |
| SquareFree.NonMonomialSnoc | src/main/java/cc/r2/core/poly/univar2/SquareFreeFactorization.java:290 | one step of the stream reduce multiplies in the next factor unless it is a monomial |
| SquareFree.NonMonomialMonic | src/main/java/cc/r2/core/poly/univar2/SquareFreeFactorization.java:290 | the reduce over monic factors, starting from one, is monic |
| SquareFree.NonMonomialFactorDivides | src/main/java/cc/r2/core/poly/univar2/SquareFreeFactorization.java:290 | every non-monomial factor divides the reduced product |
| SquareFree.NonMonomialDivides | src/main/java/cc/r2/core/poly/univar2/SquareFreeFactorization.java:290 | under a positive decomposition of a, the product of the non-monomial factors divides a |
| SquareFree.SquareFreePart | src/main/java/cc/r2/core/poly/univar2/SquareFreeFactorization.java:289-291 | refuses only a modulus above Integer.MAX_VALUE; one for a constant; otherwise a monic polynomial that every non-monomial factor of the square-free factorization divides; when exact, it divides the input |
| Binomial.BinomPrime | src/main/java/cc/r2/core/poly/univar2/SquareFreeFactorization.java:207-211 | p divides C(p, k) for a prime p and 0 < k < p |
| Binomial.BinomialTheorem | src/main/java/cc/r2/core/poly/univar2/SquareFreeFactorization.java:207-211 | (a + b)^n is the sum of C(n, i) a^i b^(n-i), i from 0 to n, in Z_p[x] |
| Binomial.FreshmansDream | src/main/java/cc/r2/core/poly/univar2/SquareFreeFactorization.java:207-211 | (a + b)^p == a^p + b^p in Z_p[x] for a prime p |
| Binomial.Fermat | src/main/java/cc/r2/core/poly/univar2/SquareFreeFactorization.java:207-211 | c^p ≡ c (mod p) for a prime p |
| Binomial.PowConst | src/main/java/cc/r2/core/poly/univar2/SquareFreeFactorization.java:207-211 | a power of a constant polynomial is the constant of the power's residue |
| IntegerPolyGcd.IntGcdGreatest | src/main/java/cc/r2/core/poly/univar2/PolynomialGCD.java:379 | every common positive divisor of a and b divides their gcd |
| IntegerPolyGcd.ContentDivides | src/main/java/cc/r2/core/poly/univar2/PolynomialGCD.java:378 | the content is zero only for the zero polynomial and divides every coefficient |
| IntegerPolyGcd.ContentGreatest | src/main/java/cc/r2/core/poly/univar2/PolynomialGCD.java:378 | every positive common divisor of the coefficients divides the content |
| IntegerPolyGcd.PrimitivePartTimesContent | src/main/java/cc/r2/core/poly/univar2/PolynomialGCD.java:383 | the content times the primitive part (divideOrNull(content)) is the polynomial |
| IntegerPolyGcd.ExactQuotient | src/main/java/cc/r2/core/poly/univar2/PolynomialGCD.java:383 | dividing every coefficient by a positive common divisor g gives q with g·q == a |
| IntegerPolyGcd.ModularGcdPrelude | src/main/java/cc/r2/core/poly/univar2/PolynomialGCD.java:373-384 | a settled answer is a canonical Z[x] polynomial; a hand-over to the modular algorithm carries two canonical polynomials |
| IntegerPolyGcd.PreludeDivides | src/main/java/cc/r2/core/poly/univar2/PolynomialGCD.java:373-384 | every answer the prelude settles (the argument itself for one object, the other argument for a zero one, the constant gcd of the contents) divides both arguments |
| IntegerPolyGcd.PreludeConstant | src/main/java/cc/r2/core/poly/univar2/PolynomialGCD.java:378-381 | two nonzero arguments, one constant: the answer is the positive constant gcd(content(a), content(b)), which every common divisor of all coefficients divides |
| IntegerPolyGcd.PreludeModular | src/main/java/cc/r2/core/poly/univar2/PolynomialGCD.java:377-383 | two nonconstant arguments: the modular algorithm receives the primitive parts, the one of higher degree first, each times its content giving back its argument, and the gcd of the contents |
| MultivariateGcd.InversePermutation | src/main/java/cc/r2/core/poly/multivar/MultivariateGCD.java:64-69 | a fresh array of the same length that undoes the permutation on both sides and is itself a permutation |
| MultivariateGcd.ContentFromIsGcd | src/main/java/cc/r2/core/poly/multivar/MultivariateGCD.java:247-252 | the component-wise minimum over e and all terms divides each of them and every common divisor divides it |
| MultivariateGcd.MonomialContentIsGcd | src/main/java/cc/r2/core/poly/multivar/MultivariateGCD.java:250 | monomialContent is the gcd of all monomials of a nonzero polynomial |
| MultivariateGcd.GcdWithMonomialIsGcd | src/main/java/cc/r2/core/poly/multivar/MultivariateGCD.java:240-242 | gcdWithMonomial is the monomial gcd of the single term and all terms of the polynomial |
| MultivariateGcd.TrivialGcd | src/main/java/cc/r2/core/poly/multivar/MultivariateGCD.java:119-132 | a zero input gives the other, a constant input gives one, a single term gives its common content; no answer exactly when both have two or more terms |
| MultivariateGcd.TrivialGcdIsGcd | src/main/java/cc/r2/core/poly/multivar/MultivariateGCD.java:119-132 | every trivial answer is a polynomial; for two nonzero inputs it is one monomial with unit coefficient, the gcd of all monomials of both |
| MultivariateGcd.ReduceMonomialContent | src/main/java/cc/r2/core/poly/multivar/MultivariateGCD.java:247-260 | the monomial gcd has unit coefficient and n exponents; the quotients keep the number of terms |
| MultivariateGcd.ReduceMonomialContentSound | src/main/java/cc/r2/core/poly/multivar/MultivariateGCD.java:247-260 | the monomial gcd is the gcd of all monomials of both inputs, each quotient term times it gives the input term back with the same coefficient, and no variable divides both quotients any more |
| MultivariateGcd.NothingLeft | src/main/java/cc/r2/core/poly/multivar/MultivariateGCD.java:254-256 | after dividing by the monomial gcd the two monomial contents share no variable |
| MultivariateGcd.DegreesIsLcm | src/main/java/cc/r2/core/poly/multivar/MultivariateGCD.java:154-155 | degrees() is the least common multiple of all monomials: the largest exponent of each variable |
| MultivariateGcd.DegreeBounds | src/main/java/cc/r2/core/poly/multivar/MultivariateGCD.java:159-165 | bound i is min(aDegrees[i], bDegrees[i]); nUsed counts the nonzero bounds; last is the last nonzero bound (every bound after it zero), -1 exactly when none is |
| MultivariateGcd.SortDescending | src/main/java/cc/r2/core/poly/multivar/MultivariateGCD.java:199-202 | the bounds end up non-increasing and variables is a permutation with bound i equal to the old bound variables[i] |
| MultivariateGcd.LastPresentVariable | src/main/java/cc/r2/core/poly/multivar/MultivariateGCD.java:204-207 | last is the position before the first zero bound |
| MultivariateGcd.LastPresentTail | src/main/java/cc/r2/core/poly/multivar/MultivariateGCD.java:204-207 | on non-increasing bounds every bound after that position is zero |
| MultivariateGcd.EvaluationStackLimit | src/main/java/cc/r2/core/poly/multivar/MultivariateGCD.java:141-143 | -1 exactly when the cardinality is unknown or above Integer.MAX_VALUE; otherwise the cardinality |
| MultivariateGcd.ExtensionDegree | src/main/java/cc/r2/core/poly/multivar/MultivariateGCD.java:213-222 | degree 1 unless the field has fewer than 5·max bound elements; otherwise the least d >= 2 with size^(d-1) >= 5·max bound |
| MultivariateGcd.Reorder | src/main/java/cc/r2/core/poly/multivar/MultivariateGCD.java:196-222 | the bounds sorted descending with their permutation, the last present variable recomputed, and the extension degree for the largest bound |
| MultivariateGcd.PreparedGcdInput | src/main/java/cc/r2/core/poly/multivar/MultivariateGCD.java:135-225 | a trivial gcd is returned as is; otherwise the monomial gcd alone when no bound is nonzero, a univariate hand-over exactly when one bound is nonzero, and otherwise the monomial gcd, the stack limit, the descending reordering and the extension degree |
| PairIteration.PairIterator.HasNext | src/main/java/cc/r2/core/poly/multivar/MultivariateGCD.java:687-689 | as written: holds only while either underlying iterator has a term left, which implies a term is pending |
| PairIteration.PairIterator.HasNextCorrected | src/main/java/cc/r2/core/poly/multivar/MultivariateGCD.java:687-689 | corrected: holds exactly while some term of either side is pending, held-back terms included; implied by the written hasNext |
| PairIteration.PairIterator.Advance | src/main/java/cc/r2/core/poly/multivar/MultivariateGCD.java:694-717 | takes the next term of each side (a held-back one first), hands out both when their monomials are equal and otherwise only the greater, holding the smaller back |
| PairIteration.MergeStepAccounts | src/main/java/cc/r2/core/poly/multivar/MultivariateGCD.java:694-717 | what one advance hands out is exactly what left each side; a step with terms pending hands out a real term; two real terms handed out together share their monomial |
| PairIteration.PairTerms | src/main/java/cc/r2/core/poly/multivar/MultivariateGCD.java:673-717 | run to the corrected hasNext, the pairs hand out every term of each polynomial exactly once in order, each pair holding a real term, and two real terms of a pair share their monomial |
| PairIteration.DroppedTerm | src/main/java/cc/r2/core/poly/multivar/MultivariateGCD.java:687-689 | for a = 1 and b = x the first advance hands out (0, x) and holds 1 back; the written hasNext is then false while the corrected one is true, so the constant term is never handed out |
| LinZip.CoefficientRoundTrip | src/main/java/cc/r2/core/poly/multivar/MultivariateGCD.java:1539-1546 | multiplying the coefficient of x_0^e back by x_0^e gives exactly the terms with first exponent e |
| LinZip.WithFirstExponentComplete | src/main/java/cc/r2/core/poly/multivar/MultivariateGCD.java:1538-1546 | every term with first exponent e lands in the coefficient of x_0^e |
| LinZip.CoefficientIsPoly | src/main/java/cc/r2/core/poly/multivar/MultivariateGCD.java:1539-1546 | each coefficient is a polynomial with its terms in descending order |
| LinZip.GetSkeleton | src/main/java/cc/r2/core/poly/multivar/MultivariateGCD.java:1536-1549 | the keys are exactly the exponents of x_0 that occur, and each maps to the coefficient of that power |
| LinZip.EvaluateExceptFirst | src/main/java/cc/r2/core/poly/multivar/MultivariateGCD.java:1981-1991 | a residue equal to coefficient times the monomial without x_0 at the points raised to raiseFactor, modulo p |
| LinZip.EvaluationRowPower | src/main/java/cc/r2/core/poly/multivar/MultivariateGCD.java:1973-1974 | each entry of the row with raise factor r is the r-th power of the entry with raise factor one |
| LinZip.NewRow | src/main/java/cc/r2/core/poly/multivar/MultivariateGCD.java:1913-1915 | the row loop yields one evaluation per skeleton monomial with the next raise factor |
| LinZip.EvaluationRowsVandermonde | src/main/java/cc/r2/core/poly/multivar/MultivariateGCD.java:1971-1978 | rows appended with raise factors 1, 2, 3, ... form a Vandermonde matrix, as isVandermonde checks |
| LinZip.CheckVandermonde | src/main/java/cc/r2/core/poly/multivar/MultivariateGCD.java:1993-2001 | true exactly when every entry of row i is the (i+1)-th power of the entry of row 0 |
| LinZip.VandermondeSystem.OneMoreEquation | src/main/java/cc/r2/core/poly/multivar/MultivariateGCD.java:1971-1978 | appends the evaluation row with the next raise factor and the right-hand side |
| LinZip.LinZipSystem.OneMoreEquation | src/main/java/cc/r2/core/poly/multivar/MultivariateGCD.java:1912-1924 | appends the evaluation row; with a new scaling the scaling entry is -v and the right-hand side 0, otherwise 0 and v |
| LinZip.LinZipEquationMeaning | src/main/java/cc/r2/core/poly/multivar/MultivariateGCD.java:1918-1923 | the equation appended for value v says the row's value is v times the scaling unknown when a scaling is new, and v otherwise |
| LinZip.GlobalRowMeaning | src/main/java/cc/r2/core/poly/multivar/MultivariateGCD.java:1747-1752 | a global row's value is its sub-row's value on its system's unknowns plus, after the first equation, the scaling entry times its scaling unknown |
| LinZip.CollectUnknowns | src/main/java/cc/r2/core/poly/multivar/MultivariateGCD.java:1734-1737 | every skeleton monomial of every system, x_0 set to the system's degree, in order |
| LinZip.SolveLinZipLayout | src/main/java/cc/r2/core/poly/multivar/MultivariateGCD.java:1733-1758 | the unknowns in order and one global row per equation of each system, its sub-row at the system's column offset, its scaling entry in the column of its scaling unknown, and its right-hand side |
| Monomials.MinIsGcd | src/main/java/cc/r2/core/poly/multivar/MultivariateGCD.java:252 | the component-wise minimum (setMin) is the gcd of two monomials |
| Monomials.MaxIsLcm | rings/src/main/java/cc/redberry/rings/poly/multivar/GroebnerBasis.java:107 | the component-wise maximum (ArraysUtil.max) is the lcm of two monomials |
| Monomials.Compare | rings/src/main/java/cc/redberry/rings/poly/multivar/GroebnerBasis.java:77 | the comparison is -1, 0 or 1, and 0 exactly for equal exponent vectors |
| Monomials.CompareAntisymmetric | rings/src/main/java/cc/redberry/rings/poly/multivar/GroebnerBasis.java:77 | swapping the arguments negates the comparison |
| Monomials.LessTransitive | rings/src/main/java/cc/redberry/rings/poly/multivar/GroebnerBasis.java:77 | the order is transitive |
| Monomials.CompareAdd | rings/src/main/java/cc/redberry/rings/poly/multivar/GroebnerBasis.java:275-276 | multiplying both monomials by the same monomial keeps their order, so leading terms stay leading |
| Monomials.LeadingTermGreatest | rings/src/main/java/cc/redberry/rings/poly/multivar/GroebnerBasis.java:23 | every term of a polynomial lies below its leading term |
| MultiPoly.Subtract | rings/src/main/java/cc/redberry/rings/poly/multivar/GroebnerBasis.java:277 | the difference is a polynomial whose leading monomial lies at or below one of the leading monomials of the operands |
| MultiPoly.SubtractCoef | rings/src/main/java/cc/redberry/rings/poly/multivar/GroebnerBasis.java:277 | the difference subtracts coefficient by coefficient modulo p |
| MultiPoly.ScaleMonomialCoef | rings/src/main/java/cc/redberry/rings/poly/multivar/GroebnerBasis.java:275-276 | multiplying by c·x^d moves the coefficient of x^e to x^(e+d), multiplied by c |
| MultiPoly.Monic | rings/src/main/java/cc/redberry/rings/poly/multivar/GroebnerBasis.java:247-248 | monic keeps the monomials and the number of terms, with leading coefficient one |
| MultiPoly.MonicCoef | rings/src/main/java/cc/redberry/rings/poly/multivar/GroebnerBasis.java:247-248 | each coefficient of the monic associate is the original one times the inverse of the leading coefficient |
| Groebner.DividesQ | rings/src/main/java/cc/redberry/rings/poly/multivar/GroebnerBasis.java:207-212 | true exactly when every exponent of the dividend is at least the divider's |
| Groebner.ShareVariablesQ | rings/src/main/java/cc/redberry/rings/poly/multivar/GroebnerBasis.java:220-225 | true exactly when some variable occurs in both monomials |
| Groebner.CoprimeIffLcmIsProduct | rings/src/main/java/cc/redberry/rings/poly/multivar/GroebnerBasis.java:37-38 | two monomials share no variable exactly when their lcm is their product (Buchberger's first criterion) |
| Groebner.Pack | rings/src/main/java/cc/redberry/rings/poly/multivar/GroebnerBasis.java:214-218 | the key is a non-negative long |
| Groebner.UnpackPack | rings/src/main/java/cc/redberry/rings/poly/multivar/GroebnerBasis.java:214-218 | the key gives back the pair (smaller, larger) whatever the order of the arguments |
| Groebner.PackInjective | rings/src/main/java/cc/redberry/rings/poly/multivar/GroebnerBasis.java:214-218 | distinct unordered index pairs get distinct keys |
| Groebner.NewSyzygyPair | rings/src/main/java/cc/redberry/rings/poly/multivar/GroebnerBasis.java:190-198 | stores the smaller index first with its polynomial; gamma has unit coefficient and is the lcm of the two leading monomials |
| Groebner.NewSyzygyPairAt | rings/src/main/java/cc/redberry/rings/poly/multivar/GroebnerBasis.java:186-188 | the pair built from two positions holds the basis entries at those positions, smaller index first |
| Groebner.Index | rings/src/main/java/cc/redberry/rings/poly/multivar/GroebnerBasis.java:200 | the key of a stored pair unpacks to its two indices |
| Groebner.NewSyzygyPairSymmetric | rings/src/main/java/cc/redberry/rings/poly/multivar/GroebnerBasis.java:190-194 | the pair does not depend on the order of its indices |
| Groebner.Syzygy | rings/src/main/java/cc/redberry/rings/poly/multivar/GroebnerBasis.java:272-279 | the syzygy is a polynomial whose terms all lie below gamma |
| Groebner.SyzygyCoef | rings/src/main/java/cc/redberry/rings/poly/multivar/GroebnerBasis.java:272-279 | each coefficient of the syzygy is the difference of the two scaled inputs' coefficients; gamma's coefficient is zero |
| Groebner.SPolynomial | rings/src/main/java/cc/redberry/rings/poly/multivar/GroebnerBasis.java:267-270 | the S-polynomial is a polynomial whose terms lie below the lcm of the leading monomials |
| Groebner.ComputeSyzygyIsSPolynomial | rings/src/main/java/cc/redberry/rings/poly/multivar/GroebnerBasis.java:202-204 | computeSyzygy of a pair is the S-polynomial of its two polynomials |
| Groebner.CriticalPairs | rings/src/main/java/cc/redberry/rings/poly/multivar/GroebnerBasis.java:31-41 | the pairs visited are exactly those i < j whose leading monomials share a variable, in the order (0,1), (0,2), ..., (1,2), ... |
| Groebner.ChainCriterion | rings/src/main/java/cc/redberry/rings/poly/multivar/GroebnerBasis.java:105-117 | the pair is skipped exactly when some live k, neither i nor j, with neither (i,k) nor (j,k) pending, has a leading monomial dividing lcm(lt_i, lt_j) |
| Groebner.ChainLcmDivides | rings/src/main/java/cc/redberry/rings/poly/multivar/GroebnerBasis.java:105-117 | when lt_k divides lcm(lt_i, lt_j), the lcms of (i,k) and (k,j) both divide lcm(lt_i, lt_j) |
| Groebner.InitialPairsAsWritten | rings/src/main/java/cc/redberry/rings/poly/multivar/GroebnerBasis.java:75-84 | as written: every pair i < j is registered under its key, but the queue has one entry per distinct gamma |
| Groebner.CollapsedPairQueue | rings/src/main/java/cc/redberry/rings/poly/multivar/GroebnerBasis.java:77-84 | for the leading monomials xy, xz, yz the queue holds the single gamma xyz while three pairs are registered, so a registered pair is never queued |
| Groebner.InitialPairs | rings/src/main/java/cc/redberry/rings/poly/multivar/GroebnerBasis.java:75-84 | corrected: the queue holds exactly the pairs i < j, and every one of them is registered under its key |
| Groebner.MinimizeGroebnerBases | rings/src/main/java/cc/redberry/rings/poly/multivar/GroebnerBasis.java:231-249 | the result lists, in order, the monic associates of a subsequence of the input; its leading monomials divide no other, and every input leading monomial is divisible by one of them |
| Groebner.MonicAll | rings/src/main/java/cc/redberry/rings/poly/multivar/GroebnerBasis.java:247-248 | every element replaced by its monic associate |

## Left out

- Musser0: the promise that the decomposition multiplies out to the input holds only under the ghost flag `exact`. The flag records that every leftover gcd whose p-th root was taken had a zero derivative. The model does not prove that this always holds: that needs unique factorization in Z_p[x]. The same gap applies to Musser0Gcd, Musser0Leftover, Musser0Power, ZpMonic, SquareFreeFactorizationZp, SquareFreeFactorization and SquareFreePart. Each is listed on its own line below.
- Musser0Gcd: states unit one and monic, nonconstant factors, but multiplies out to poly only when `exact` holds.
- Musser0Leftover: multiplies out to poly only when `exact` holds. The leftover gcd's zero derivative is checked, not proved.
- Musser0Power: multiplies out to poly only when `exact` holds, which the recursive call decides.
- ZpMonic: multiplies out to the monic poly only when `exact` holds.
- SquareFreeFactorizationZp: multiplies out to the input only when `exact` holds. It does not state that the factors are square-free or pairwise coprime.
- SquareFreeFactorization: inherits SquareFreeFactorizationZp's gap.
- SquareFreePart: does not state that the result passes isSquareFree. It divides the input only when `exact` holds.
- Yun: takes a `fuel` bound on the rounds of its loop and gives None when the bound runs out. The model does not prove that fuel deg(a) + 1 always suffices. That needs unique factorization in Z_p[x], because over Z_p the loop's termination argument (the degree of quot falls) depends on the factors being coprime. The result is stated only as the product of its factors equalling monic(a) / gcd(monic(a), monic(a)'). It does not state that the unit times the factors to their exponents is a, nor that the factors are square-free and coprime.
- YunLoop: same fuel bound and same product-only statement as Yun.
- SquareFreeFactorizationZ: same fuel bound and same product-only statement as Yun, applied to the x-free part.
- Musser: states that the decomposition times a monic leftover dividing gcd(poly, poly') gives the input. It does not state that the leftover is one.
- Yun, Musser and SquareFreeFactorizationZ work over Z_p; lMutablePolynomialZ is not part of this model. The content (`contentAsPoly`) is taken as the leading coefficient, and the sign test (`signum`) is not modelled.
- PowModulusMod: its own contract states Rem(Compose(Rem(poly, m), pt), m) for the point of the given power table. That this is poly^p mod m when the table is xPowers is the separate lemma PowModulusModIsPower.
- PairIteration.PairIterator.Advance: assumes each polynomial's iterator yields its terms in descending order. That order comes from the polynomial's term map, which is not part of this model.
- MultivariateGcd.PreparedGcdInput: stores `variables` and leaves out `inversePermutation(variables)`, which GCDInput's constructor stores as `mapping`. InversePermutation is proved separately. It also drops the evaluated and renamed polynomials, the random evaluation of the unused variables (`evaluateAtRandomPreservingSkeleton`, `renameVariables`) and the univariate gcd of the one-variable case.
- MultivariateGcd.SortDescending: a selection sort that leaves the same sorted permutation. `ArraysUtil.quickSort` is not part of this model, and its order among equal bounds is not modelled.
- Monomials.Compare: the term order is fixed to lexicographic order. GroebnerBasis and MultivariateGCD take the ordering as a parameter, and the orders themselves are not part of this model.
- Groebner.Pack: the key is modelled as j·2^32 + i. That equals Java's `j << 32 | i` for non-negative ints. Indices above Integer.MAX_VALUE are excluded by `requires`, where Java would wrap around.
- Java `int` and `long` overflow is not modelled: integers are unbounded, so products of residues never wrap around. The constructor's refusal of a modulus above MAX_SUPPORTED_MODULUS (lUnivariatePolynomialZp.java, lines 29-31) is not modelled; every modulus p >= 2 is accepted.
- LinZip.CheckVandermonde: the `requires` that all rows be as long as row 0 and hold residues excludes ragged input, on which Java throws ArrayIndexOutOfBoundsException.
- LinZip.SolveLinZipLayout: the `requires` that no system have more than nUnknownScalings + 1 equations excludes inputs on which Java's `row[nUnknownsMonomials + j - 1]` is out of bounds.
- The `BuchbergerGB` and `BuchbergerGB3` main loops, `removeRedundant` and multivariate division (`MultivariateDivision.remainder`) are not modelled. Only their helpers, the pair bookkeeping and the chain criterion are.
- The random parts of the multivariate GCD (`ModularGCD0`, Brown, Zippel, the interpolation drivers, `PrivateRandom`) and `LinearAlgebra.solve` are not modelled. They depend on randomness and on code that is not part of this model.
- `ModularGCD0` over Z[x] beyond the trivial-case prelude is not modelled. Neither is `SubresultantEuclid`.
- IntegerPolyGcd: `lMutablePolynomialZ.content` and `LongArithmetics.gcd` are not part of this model. The content is modelled as the non-negative gcd of the coefficients.
- Domain: the abstract operations of the interface (`add`, `multiply`, `negate`, `reciprocal`, `gcd`, `isZero`, `isOne`, ...) are implemented in classes that are not part of this model. Their Z_p meaning is the modular arithmetic of ModArith. `parse`, `randomElement`, `getExtension` and the reflective `createArray` are not modelled. Domain is modelled over Z_p only.
- PolyZp: an empty `data` array (length 0) is not modelled. Every constructor and method requires at least one entry.
- Floating point, printing, `toString`, `hashCode` and `equals` are not modelled.

## Findings

| source | as written | input that shows it | evidently intended | confidence | as-written member | corrected member |
|---|---|---|---|---|---|---|
| src/main/java/cc/r2/core/poly/multivar/MultivariateGCD.java:687-689 | `hasNext()` asks only the two underlying iterators and ignores a term `advance()` has held back in `aTermCached` or `bTermCached` | a = 1, b = x: the first `advance()` hands out (0, x) and holds 1 back, after which `hasNext()` is false and the constant term is never handed out | `hasNext()` also holds while a held-back term is pending | not executed | PairIteration.DroppedTerm | PairIteration.PairTerms |
| rings/src/main/java/cc/redberry/rings/poly/multivar/GroebnerBasis.java:75-84 | the pair queue is a `TreeSet` ordered by `syzygyGamma` alone, so two pairs with the same lcm are equal to it and the second `add` is dropped, while `ijPairs` registers both | basis with leading monomials xy, xz, yz: three pairs are registered but only one is queued, so two S-polynomials are never formed | every pair i < j is queued (ties broken by the indices) | not executed | Groebner.CollapsedPairQueue | Groebner.InitialPairs |
| src/main/java/cc/r2/core/poly/univar2/lUnivariatePolynomialZp.java:216-220 | `createMonomial(coefficient, newDegree)` builds the object with the degree-trusting constructor, giving degree `newDegree` even when the reduced coefficient is zero | coefficient p, newDegree 1: degree 1 over the all-zero array [0, 0], so the leading entry is zero | the zero polynomial when the coefficient is ≡ 0 mod p | not executed | PolyZp.UnivariatePolynomialZp.CreateMonomialInDomainAsWritten | PolyZp.UnivariatePolynomialZp.CreateMonomialInDomain |
