# A verified model of the Stanford IBE library

The Stanford IBE library implements Boneh-Franklin identity-based encryption on
the curve y^2 = x^3 + 1 over F_p, p = 11 mod 12, with a Tate pairing into F_p^2,
threshold sharing of the master key, and an authenticated stream cipher around
it.  This project models its arithmetic and protocols in Dafny and proves what
they compute.

| files | what they model |
|---|---|
| NumberTheory, Powers, Bits, Naf | GMP's contract (`mpz_mod`, `mpz_invert`, bit tests), the ring Z[i], Fermat and Frobenius, signed-digit recoding |
| Fp2, FinalPower | fp2.c: F_p^2 with in-place results, and the final exponentiation of the pairing |
| EllipticCurve, PointGroup, Projective, Closure | the chord-and-tangent law, multiples and orders, the projective formulas, closure over F_p^2 |
| Curves, ScalarMul, Windows, WindowMul, PointAddition, ExtensionGroup, GeneralCourse, GeneralMul, SmallOrder | curve_init, point_add and the three scalar multiplications |
| Miller, SolinasPoints, TateLines, MillerLoop, TateCache, CachedPairing, MillerNorm | the pairing computed directly and from a cache, both against one textbook definition, and the laws of its value |
| HashToPoint, IdentityPoint, PhiGroup, TonelliShanks | hashing to the curve and to points of order q, the map Phi, square roots |
| ByteStrings, Serial, Parameters | strings, arrays of strings, integers, field elements, points, system parameters |
| Shamir, Threshold, KeyShares | secret sharing of the master, and extraction from key shares |
| Streaming | encryption and decryption of a stream in pieces |
| Instance, ExtractionExamples | inputs that meet the hypotheses, for p = 11, and inputs at which the code departs from the group law |

Objects that the C code updates in place are classes (`Elem`, `Point`, `Curve`,
`MillerCache`, `Params`, `EncryptCtx`, `DecryptCtx`), its loops are loops, and
each method is proved against a mathematical definition given separately.
Aliasing of results and operands is covered: contracts speak of the operands'
values before the call.  `mpz_t` is an unbounded integer; a residue is the
Euclidean remainder; congruence is equality of remainders.  A failing
`mpz_invert` leaves an arbitrary value.

Some C functions are divided into several methods here, because the C code
repeats a loop body or because one proof would be too long: `Doublings`,
`DoubleTo`, `RememberShift`, `CombineShift` and `CloseMiller` together are
tate_solinas_miller, for example.

## Hypotheses

* `Associative(p)`: the curve's law is associative.  Closure, commutativity,
  identity and inverses are proved.  `Instance` proves it for p = 11.
* `HasOrder(P, q, p)`: q is the order of P.
* `Order2(P, r, p)`, for points over F_p^2: the multiples of P add up and r is the
  order.  It holds for the points of E/F_p (`ExtensionGroup.RealOrder`), for their
  images under Phi (`PhiGroup.PhiOrder`), and at every point if the law over F_p^2 is
  associative (`ExtensionGroup.AssociativeAdditive`).
* For the cube root of unity, that 3 is a square modulo p.
* For the stream, that the cipher's output only grows with its input and that
  decryption undoes encryption (`Sound`, `Inverse`); the key derivation, the hash
  and the MAC are arbitrary functions.
* Random values (polynomial coefficients, abscissas, the salt) are parameters.

## Where the code does less than its comments say

* `fp2_neg` writes p, not 0, for a zero component.  `point_add` compares with it
  and therefore never recognises P + (-P) on E/F_p: it answers 2P
  (`PointAddition.OppositeSum`, `Instance.OppositeExample`).  Away from that sum it
  is right (`PointAddition.RealSum`).
* `point_add` and `general_point_mul` do not always answer with a point of the curve.
  `point_add` leaves it exactly when a point of order two is added to a point with its
  abscissa (`ExtensionGroup.CodeSumCloses`), as (10, 0) to itself over F_11
  (`Instance.ClashExample`).  `general_point_mul` stays on it for every scalar exactly
  when the order of the point is odd or not below q (`GeneralCourse.ProductValid`);
  otherwise the order itself is a scalar that leaves it (`GeneralCourse.EvenProduct`,
  `Instance.ProductExample`).
* `point_mul_postprocess` meets equal points for n = q - 2 when q = 1 mod 4 and
  for no other n below q (`ScalarMul.PointMulPostprocess`), for example n = 11 and
  q = 13 (`ScalarMul.FailingWalk`).
* `point_mul` gets stuck where a doubling or an addition of its windows meets the
  excluded points.  `Windows.MulOutcome` computes from n and the order r of P alone
  whether it does; the answer decides the result for every n > 0 and every order
  (`WindowMul.PointMul`).  For n + 42 below r the course is right.  For n below an odd
  r above 86 it is stuck exactly when n - 2w = r, where w is the value of the last
  window (`Windows.RoomOutcome`); n = 95 and r = 97 is an example
  (`Windows.FailingMultiplier`).
* On points of odd order r the table slots from r on are filled by dividing by
  zero.  `point_mul` reads them only for r at most 21 (`Windows.OutcomeDecided`,
  `Windows.OpenMultiplier`).
* `point_mul` always reports a finite point (`WindowMul.PointMul`), and point
  strings drop the infinity flag, so O is never an admissible result there.  For
  the same reason the loop of `map_byte_string_to_point` ends in its first pass
  (`IdentityPoint.MapToPoint`).
* `hash_G` yields p itself exactly for the digests whose stretched bits end in those
  of p (`IdentityPoint.OrdinateIsModulus`), for example the digest that spells p.
  `point_mul` treats that ordinate as 0.
* `map_byte_string_to_point` gives a point of order q when the course of the cofactor
  on the hashed point is right (`IdentityPoint.MapToPoint`), in particular for hashed
  points of order above (p+1)/q + 42.  On the digest that spells p it is not right,
  for every odd q (`IdentityPoint.FailingDigest`).
* `point_mul` asserts that its multiplier is positive, so `IBE_split_master` stops at a
  share of value 0, and `IBE_extract_share` and `IBE_combine` at a value or weight 0.
  Without assertions the result is an arbitrary canonical point, as in
  `KeyShares.AnyMultiple`.
* `IBE_combine` gives the key of the master exactly when the sums of `point_add` reach
  the master (`KeyShares.ThresholdExtraction`).  They do unless a partial sum is O
  (`KeyShares.SumsReachMaster`); then they need not
  (`ExtractionExamples.CombinationFails`).
* `byte_string_set_int` keeps only the lowest byte (`ByteStrings.IntRoundTrip`), so
  share indices, t and n must stay below 256.
* `zp_neg` does not write its result for a zero operand, and `fp2_sub_ui` never
  writes the imaginary component.
* `IBE_construct_master` returns the master modulo q in its shortest encoding.

## Model

| member | source | states |
|---|---|---|
| NumberTheory.MpzInvert | fp2.c:255 | answers whether an inverse exists modulo m and returns it in {0, ..., m-1}; without one the result is arbitrary, as GMP leaves it |
| NumberTheory.PrimeInvertible | fp2.c:252-255 | modulo a prime exactly the non-zero residues are invertible |
| NumberTheory.EuclidLemma | fp2.c:234-265 | F_p has no zero divisors, the fact that makes every division in the library meaningful |
| Fp2.ZpAdd | fp2.c:31-40 | one conditional subtraction is addition modulo p on canonical operands |
| Fp2.ZpSub | fp2.c:54-67 | one conditional addition is subtraction modulo p on canonical operands |
| Fp2.ZpNeg | fp2.c:42-52 | negation for non-zero operands; for zero the destination keeps its old value |
| Fp2.Elem.SetNeg | fp2.c:143-148 | congruent to the negative under every aliasing, but a zero component becomes p |
| Fp2.Elem.SetSubUi | fp2.c:164-169 | only the real component of the destination is written |
| Fp2.Elem.SetAdd | fp2.c:150-155 | addition in F_p^2, canonical on canonical operands, under every aliasing |
| Fp2.Elem.SetSub | fp2.c:157-162 | subtraction in F_p^2, canonical on canonical operands, under every aliasing |
| Fp2.Elem.SetSqr | fp2.c:171-198 | the difference-of-squares formula is the canonical square, also in place |
| Fp2.Elem.SetMulMpz | fp2.c:200-205 | multiplication by an integer, canonical |
| Fp2.Elem.SetMul | fp2.c:207-232 | the canonical product in Z_p[i], under every aliasing |
| Fp2.Elem.SetInv | fp2.c:234-265 | a canonical field inverse for every non-zero operand when p = 3 mod 4, and zero for an operand congruent to zero |
| Fp2.Elem.SetDiv | fp2.c:267-305 | a canonical field quotient for every non-zero divisor; zero for a divisor congruent to zero, whatever the failed inversion left behind |
| Fp2.NormZero | fp2.c:234-265 | a^2 + b^2 = 0 modulo p = 3 mod 4 forces a = b = 0, so the norm inverted is a unit |
| Fp2.QuotientUnique | fp2.c:267-305 | quotients in F_p^2 are unique: multiplying by a non-zero element is injective |
| Fp2.Elem.SetPow | fp2.c:307-398 | the sliding window computes x^n for every n >= 0 and every x, also when the result is x itself; every slot read was filled |
| Fp2.Elem.WindowSquarings | fp2.c:344-369 | one window squares once per bit and collects an odd index of at most 31 that the table holds |
| Fp2.Elem.SquareInPlace | fp2.c:333-341 | the squaring written out in the loop is the one of fp2_mul(a, a) |
| Fp2.PowerTable | fp2.c:314-326 | the table's odd slots are the odd powers |
| HashToPoint.SetCbrtUnity | fp2.c:108-133 | (p-1)/2 + b i with b in {0, ..., p-1}; when 3 is a square modulo p = 3 mod 4, a cube root of unity other than 1, and of the two the one with -2b a square |
| HashToPoint.UnityChoice | fp2.c:108-133 | no other element is like that, since -1 is no square modulo p = 3 mod 4 |
| HashToPoint.UnityRoot | fp2.c:108-133 | h (1 + s i) with 2h = -1 and s^2 = 3 is a non-trivial cube root of unity |
| Powers.Frobenius | curve.c:505-517 | for prime p = 3 mod 4 the p-th power in Z_p[i] is conjugation, from the binomial theorem and Fermat |
| Powers.Fermat | curve.c:505-517 | a^p = a, and a^(p-1) = 1 for units, modulo a prime |
| Powers.PrimeDividesChoose | curve.c:505-517 | p divides the inner binomial coefficients of its row |
| FinalPower.TatePower | curve.c:505-517 | raising to (p+1)/q and dividing the conjugate by the result raises to (p-1)(p+1)/q, for every argument, zero included |
| FinalPower.ConjugateQuotient | curve.c:505-517 | conj(t)/t is t^(p-1) |
| FinalPower.ScalarKilled | curve.c:541-548 | a unit factor from F_p disappears in any exponent divisible by p - 1 |
| FinalPower.RootOfUnity | curve.c:505-517 | every non-zero element lands on a q-th root of unity when q divides p + 1 |
| Naf.CarryStep | curve.c:1938-1942 | one step of the carry loop yields the non-adjacent form's digit and keeps the carry right |
| Naf.Recode | curve.c:1938-1942 | the loop writes exactly the digits of the non-adjacent form, for every n |
| Naf.NafCorrect | curve.c:1864-1872 | digits in {-1, 0, 1}, no two adjacent ones non-zero, weighted sum n, and exactly one of the two top positions is 1 and the other 0 |
| Curves.Curve.constructor | curve.c:85-155 | the exponents (p+1)/q, (2p-1)/3 and (p-1)(p+1)/q; for odd q >= 3 the Solinas exponents satisfy q = 2^|a| + sgn(b) 2^|b| + sgn(a) with |b| + 1 < |a| when the non-adjacent form of q has two (b = 0) or three non-zero digits, and are zero when it has more; |a| stays within the arrays sized by q |
| Curves.Curve.FindSolinas | curve.c:104-130 | the digit loop with its early exit finds the exponents from the digits' positions and signs |
| Curves.SolinasFinish | curve.c:104-130 | with two or three digits found, q is the value that the exponents denote and they are far enough apart |
| SolinasPoints.CurveHasPair | curve.c:85-155 | for every odd q >= 3 curve_init leaves exponents that the pairing accepts |
| EllipticCurve.AddOnCurve | curve.c:285-358 | the chord-and-tangent law keeps y^2 = x^3 + 1 over F_p |
| EllipticCurve.AddCommutes | curve.c:285-358 | the law is commutative, although slopes are taken from different ends |
| EllipticCurve.NegOnCurve | curve.c:306-312 | the reflection is on the curve and is a two-sided inverse |
| EllipticCurve.SameAbscissa | curve.c:306-312 | two points with one abscissa are equal or opposite, so the case split of the addition is complete |
| PointGroup.TimesAdd | curve.c:1845-1916 | (m + n) P = m P + n P for all integers, given associativity |
| PointGroup.TimesTimes | curve.c:1845-1916 | m (n P) = (m n) P for all integers, given associativity |
| PointGroup.TimesEqual | curve.c:1845-1916 | multiples of a point of order q are equal exactly when the multipliers are congruent modulo q |
| PointGroup.PrimeOrder | ibe_lib.c:193-198 | a finite point that a prime q annihilates has order exactly q |
| Instance.GroupEleven | curve.c:285-358 | associativity, a hypothesis elsewhere, holds on all points over F_11 |
| Instance.SettingEleven | curve.c:1527-1533 | p = 11, q = 3 and P = (0, 1) satisfy everything the pairing theorems assume |
| Projective.ZzpPointDouble | curve.c:1759-1792 | the tangent's third point when y is not 0 modulo p |
| Projective.ZzpPointAdd | curve.c:1794-1823 | the chord's third point when the abscissas differ modulo p |
| Projective.ProjDouble | curve.c:360-415 | doubling a representation of any curve point P represents 2P, and z becomes 0 modulo p exactly in the case of order two |
| Projective.ProjMixIn | curve.c:417-503 | adding an affine point to a representation represents the sum, z becomes 0 when the abscissas agree, outputs stay in {0, ..., p-1} |
| Projective.Halve | curve.c:491-494 | adding p to an odd value and shifting halves it modulo p without leaving {0, ..., p-1} |
| Projective.ToAffine | curve.c:1895-1903 | from any representation of P the one inversion recovers P exactly |
| ScalarMul.PointMulPreprocess | curve.c:1825-1843 | the table holds 2^i P for every i up to the bit length of q, for points of odd order q |
| ScalarMul.ChordSafe | curve.c:1879-1893 | i P and j P can be added by the chord exactly when i, j are neither congruent nor opposite modulo the order |
| ScalarMul.NoCollision | curve.c:1879-1893 | for odd q >= 7 and 0 < n < q the digit walk meets equal points only at the lowest digit of n = q - 2 with q = 1 mod 4, and never opposite points or O |
| ScalarMul.PointMulPostprocess | curve.c:1845-1916 | the result is n P for every 0 < n < q but n = q - 2 with q = 1 mod 4, and exactly then the final inversion has no inverse to find; every table index is filled |
| ScalarMul.FailingWalk | curve.c:1878-1896 | n = 11 on points of order 13: the walk is at 12 P when it adds -P |
| WindowMul.BuildTable | curve.c:1957-1972 | slot j holds j P for every odd j up to 31 that adding 2 P again and again can reach: j = 1, or an order r > 2 that is even or exceeds j; the other slots are arbitrary |
| WindowMul.FindLow | curve.c:2009-2013 | the low end of a window is its lowest non-zero digit within five |
| Windows.WindowOdd | curve.c:2014-2021 | every window of every n is odd and at most 21 in absolute value |
| WindowMul.DoubleWindow | curve.c:2009-2021 | the loop computes the window's value while the point is doubled up to the multiple of the higher digits, or gets stuck exactly when that multiple is O |
| WindowMul.MixAt | curve.c:2022-2028 | the addition from the table gives the sum, gets stuck exactly on equal or opposite points, and promises nothing for an unreachable slot |
| WindowMul.FirstWindow | curve.c:1977-1999 | the first window is odd, positive and at most 21, for every n > 0 |
| WindowMul.WindowIteration | curve.c:2003-2031 | one window goes from the multiple for the higher digits to the one including the window, or stops being right exactly where the course function says so |
| WindowMul.PointMul | curve.c:1918-2061 | for every n > 0 and a point of every order r: R = n P with an invertible last denominator when the course of (n, r) is right, no inverse at all when it is stuck; for any coordinates whatever never the infinity flag, always canonical |
| Windows.OutcomeDecided | curve.c:1918-2061 | only right or stuck is possible when the order exceeds 21 or is even and not 2 |
| Windows.OutcomeFinite | curve.c:2033-2058 | a course that is right does not lead to O |
| Windows.RoomOutcome | curve.c:1918-2061 | for n + 42 below the order r the course is right; for n below an odd r above 86 it is right unless the last window w satisfies n - 2w = r |
| Windows.WindowCollision | curve.c:2022-2028 | in both of these ranges the point collected and the table entry j coincide exactly when the window is the last and n - 2j is the order, and they are never opposite |
| Windows.FailingMultiplier | curve.c:2022-2034 | n = 95 on points of order 97 gets stuck |
| Windows.OpenMultiplier | curve.c:1957-1999 | n = 21 on points of order 21 reads a slot that was filled by dividing by zero |
| PointAddition.PointAdd | curve.c:285-358 | what the three branches and both O cases give, for every aliasing of R with P and Q: O exactly on equality with the uncorrected negation, with coordinates (0, 1); otherwise tangent or chord third points, of slope 0 where the divisor is zero; canonical on canonical operands |
| PointAddition.RealSum | curve.c:285-358 | on finite points of E/F_p point_add never answers O and equals the group law whenever the sum is not O |
| PointAddition.OppositeSum | curve.c:306-333 | on P and -P it answers 2 P whenever the ordinate is not zero, although the sum is O |
| Instance.OppositeExample | curve.c:306-333 | over F_11 point_add answers (2, 8) on (7, 5) and (7, 6), whose sum is O |
| Closure.SumCloses | curve.c:306-353 | for canonical points of y^2 = x^3 + 1 over F_p^2 a finite result is on the curve if and only if the sum is not that of a point of order two with its abscissa, or p = 3; in that case it is (-2x, 0) |
| ExtensionGroup.SumPoints | curve.c:285-358 | for any canonical coordinates, O included, the result is the sum as the code forms it, CodeSum; on points of the curve it is on the curve if and only if they do not clash, or p = 3 |
| ExtensionGroup.CodeSumCloses | curve.c:285-358 | the sum of points of the curve is on the curve if and only if neither is of order two and meets its abscissa, for every p > 3 |
| ExtensionGroup.PlusIsCode | curve.c:285-358 | it is the sum in the group over F_p^2 whenever that sum is not O |
| ExtensionGroup.OppositeIsCode | curve.c:306-331 | where the sum in the group is O, it is O or twice the first point |
| Instance.ClashExample | curve.c:306-331 | over F_11 the point (10, 0) added to itself gives (2, 0), which is not on the curve |
| Closure.ChordCloses | curve.c:334-351 | the chord branch keeps the curve over F_p^2 whenever its divisor is not zero |
| Closure.TangentCloses | curve.c:311-331 | the tangent branch keeps the curve over F_p^2 |
| PointAddition.TangentAdd | curve.c:311-331 | the result is the reflected third point of the tangent when 2y is not zero and of the line of slope 0 when it is, for every aliasing, canonical on canonical operands |
| PointAddition.ChordAdd | curve.c:334-351 | the result is the reflected third point of the chord when the abscissas differ modulo p and of the line of slope 0 when they do not, for every aliasing, canonical on canonical operands |
| Closure.PointValid | curve.c:1648-1675 | answers yes exactly for O and for solutions of y^2 = x^3 + 1 in F_p^2 |
| GeneralMul.AddWindow | curve.c:2110-2121 | one window performs a doubling for each of its bits and adds the table entry for the odd number that they spell |
| GeneralMul.BuildTable | curve.c:2092-2101 | slot j holds the sum of P and 2 P, 2 P, ... formed in that order, for every odd j and any canonical point over F_p^2 |
| GeneralMul.SetO | curve.c:70-76 | the representation of O: coordinates (0, 1) and the flag |
| GeneralMul.GeneralPointMul | curve.c:2063-2154 | for every integer a and every canonical P over F_p^2: Q is Product(a, P), the outcome of the sums that the windows of a mod q call for |
| GeneralCourse.ProductValid | curve.c:2063-2154 | for a point of order r and p > 3 the result is on the curve for every scalar if and only if r is odd or not below q |
| GeneralCourse.RealValid | curve.c:2063-2154 | so it is on E/F_p, for a point of order r, given associativity there only |
| GeneralCourse.OddProduct | curve.c:2063-2154 | on points of odd order no division by zero happens and the result is a multiple of P on the curve, for every scalar |
| GeneralCourse.EvenProduct | curve.c:2063-2154 | on points of even order r below q the scalar r ends off the curve |
| SmallOrder.ProductThree | curve.c:2092-2123 | on (0, 1), of order three for every p > 3, the multipliers 3 and 37 give twice the point, 17 and 33 the point itself: the order of the operands and the five-bit windows show |
| Instance.ProductExample | curve.c:2063-2154 | (10, 0) over F_11 with q = 3 and the scalar 2 is such an input |
| GeneralCourse.ProductMultiple | curve.c:2092-2123 | when a mod q is below the order of P, the result is (a mod q) P |
| GeneralCourse.ProductMade | curve.c:2092-2123 | for any valid P: the result is on the curve and made from P without a division by zero, unless a point of order two has been made from P |
| GeneralCourse.RealProduct | curve.c:2063-2078 | on points of E/F_p of order q the result is a P for every integer a |
| GeneralCourse.ExtensionProduct | curve.c:2063-2078 | on points over F_p^2 of order q whose multiples add up, the result is a P, for negative a as the opposite of -a P |
| ExtensionGroup.MadeOnCurve | curve.c:2092-2123 | everything made from a point of the curve by such additions is on the curve |
| ExtensionGroup.RealOrder | curve.c:2063-2078 | points of E/F_p have multiples that add up, and the same order, over F_p^2 |
| ExtensionGroup.PrimeOrder2 | ibe_lib.c:193-198 | a finite point over F_p^2 that a prime q annihilates has order exactly q |
| ExtensionGroup.AssociativeAdditive | curve.c:285-358 | multiples add up at every point when the law over F_p^2 is associative |
| SolinasPoints.ProperChord | curve.c:1618-1625 | 2^a P and +-2^b P have different abscissas, so the line between them is a chord |
| SolinasPoints.TailIsP | curve.c:1628-1634 | the last point has the abscissa of P because q P = O, in both signs |
| Miller.PowerOfRatioUnique | curve.c:1714-1723 | the pairing's value is determined by Miller's numerator and denominator |
| Miller.RatioUpTo | curve.c:541-548 | numerators and denominators known up to factors from F_p give the exact power of the exact ratio |
| Miller.RatioIsRootOfUnity | curve.c:1714-1723 | where numerator and denominator do not vanish the pairing's value is a q-th root of unity |
| TateLines.PtsGetVertical | curve.c:519-539 | multiplies by exactly z^2 times the vertical at the affine point, a factor from F_p |
| TateLines.PtsGetTangent | curve.c:541-617 | multiplies by exactly 2 y z^6 times the tangent at the affine point, a factor from F_p |
| TateLines.TateGetVertical | curve.c:619-638 | multiplies by the vertical through P, or does nothing for O |
| TateLines.TateGetTangent | curve.c:640-706 | multiplies by the tangent with its divisor 2y multiplied in, by the vertical at order two, or by nothing for O |
| TateLines.TateGetLine | curve.c:708-775 | multiplies by the chord with the difference of the abscissas multiplied in, or by the vertical or tangent that its case split selects; at O only the vertical at equal abscissas has an effect |
| TateLines.ChordIsLine | curve.c:748-766 | over F_p that chord is the line through both points up to a factor from F_p, even with an ordinate outside {0, ..., p-1} |
| MillerLoop.OneDoubling | curve.c:1566-1577 | one iteration takes f_(2^i) and 2^i P to f_(2^(i+1)) and 2^(i+1) P, up to F_p factors |
| MillerLoop.Doublings | curve.c:1599-1608 | the loop carries this through any range of exponents |
| MillerLoop.Normalise | curve.c:1579-1584 | the one inversion turns the projective multiple into the affine one |
| MillerLoop.RememberShift | curve.c:1586-1596 | the saved copies are f of +-2^b and the point +-2^b P, numerator and denominator exchanged for negative b |
| MillerLoop.CombineShift | curve.c:1618-1626 | the chord and the vertical combine f_(2^a) with f_(+-2^b) |
| MillerLoop.CloseMiller | curve.c:1628-1636 | the closing verticals, numerator and denominator, and the division give Miller's quotient up to F_p factors |
| MillerLoop.TateSolinasMiller | curve.c:1527-1646 | the projective loop returns Miller's textbook quotient for q up to factors from F_p, zero when its denominator vanishes |
| MillerLoop.TatePairing | curve.c:1714-1723 | for every finite Q the canonical e with e D^t = N^t for t = (p-1)(p+1)/q, and zero where D vanishes; N and D are fixed by MillerLaw, MillerVanishes and MillerEleven |
| MillerNorm.MillerLaw | curve.c:1527-1646 | at every (X, Y) on the curve over F_p^2, for all exponents a, b that denote q and P of order q: N(X, Y) N(X, -Y) = -V_P(X)^q D(X, Y) D(X, -Y), from line(Y) line(-Y) = -V_S V_T V_(S+T); every vertical, the closing one included, and every line counts |
| MillerNorm.OppositePairing | curve.c:1714-1723 | the pairings of P with Q and with -Q are inverse to each other where neither N nor D vanishes |
| MillerNorm.LineThrough | curve.c:640-706 | every line passes through its point and has coefficient 1 at Y |
| MillerNorm.ChordThrough | curve.c:708-775 | the chord passes through both of its points |
| MillerNorm.NumVanishes | curve.c:1566-1577 | f_(2^i) vanishes at 2^j P for every j below i |
| MillerNorm.MillerVanishes | curve.c:1527-1646 | the whole numerator vanishes at 2^j P for every j below |a|, and at 2^|a| P when b is not 0 |
| Instance.MillerEleven | curve.c:1527-1646 | for p = 11, q = 3 and P = (0, 1) Miller's quotient is Y - 1 at every point of the curve over F_121 |
| Instance.PairingEleven | curve.c:1714-1723 | so the pairing is the power of Y - 1 there |
| TateCache.PreprocessTangent | curve.c:1201-1241 | from projective coordinates: minus the affine slope and the constant of the tangent |
| TateCache.PreprocessVertical | curve.c:1184-1199 | minus the affine abscissa |
| TateCache.PreprocessLine | curve.c:1243-1266 | minus the slope and the constant of the chord, even with an ordinate outside {0, ..., p-1} |
| TateCache.MillerCache.constructor | curve.c:176-197 | the arrays have one entry per bit of q |
| TateCache.PreprocessStep | curve.c:1326-1334 | one iteration adds the i-th tangent and vertical to the cache, keeps the earlier entries and doubles the point |
| TateCache.PreprocessShift | curve.c:1343-1352 | the line through 2^a P and +-2^b P and the vertical at their sum |
| TateCache.TatePreprocess | curve.c:1268-1373 | the cache holds the coefficients of exactly the lines of the textbook algorithm, within arrays sized by q |
| CachedPairing.CachedStep | curve.c:1412-1432 | one iteration takes f_(2^i) to f_(2^(i+1)) exactly |
| CachedPairing.CachedShift | curve.c:1434-1449 | the saved copies are f of +-2^b exactly |
| CachedPairing.CachedCombine | curve.c:1470-1489 | the stored line and vertical combine f_(2^a) with f_(+-2^b) exactly |
| CachedPairing.MillerPostprocess | curve.c:1375-1517 | from such a cache the loop returns exactly the textbook quotient at Q |
| CachedPairing.TatePostprocess | curve.c:1519-1525 | the cached pairing is the canonical e with e D^t = N^t for t = (p-1)(p+1)/q, zero where D vanishes |
| CachedPairing.BothWays | curve.c:1519-1525 | tate_postprocess on the cache of tate_preprocess(P) equals tate_pairing(P, Q) for every finite Q, even where lines vanish |
| HashToPoint.XFromY | curve.c:222-229 | for prime p = 2 mod 3 and every y the result is the only x in {0, ..., p-1} with y^2 = x^3 + 1 |
| HashToPoint.CubesDiffer | curve.c:222-229 | cubing is injective modulo p = 2 mod 3 |
| HashToPoint.MpzFromHash | ibe_lib.c:72-126 | terminates for every string and limit with a value within the limit: the number laid out from the digest's value, as long as the limit, with leading ones cleared |
| HashToPoint.Layout | ibe_lib.c:94-114 | the do-while loop terminates and lays z, 1, z, 2, ... out from the lowest bit: StretchedNat, whose bits LaidOut gives |
| HashToPoint.LaidOut | ibe_lib.c:94-114 | bit for bit, with start(j) the sum of j lengths of z and of the lengths of 1, ..., j: from start(j) on a copy of z, then the number j + 1, each in full as long as the total has not been reached before it, and zeros behind the last |
| HashToPoint.TrimmedMeets | ibe_lib.c:120-122 | clearing leading bits gives the greatest remainder of the number modulo a power of two that is within the limit |
| HashToPoint.PhiOnCurve | ibe_lib.c:187-191 | multiplying the abscissa by a cube root of unity keeps the curve over F_p^2 |
| HashToPoint.Phi | ibe_lib.c:187-191 | the new point's coordinates, and that it stays on the curve, with source and target possibly the same |
| PhiGroup.PhiSum | ibe_lib.c:187-191 | Phi takes sums on the curve over F_p^2 to sums |
| PhiGroup.PhiOrder | ibe_lib.c:187-191 | Phi keeps the order of a point |
| PhiGroup.PhiProduct | ibe_lib.c:187-191 | general_point_mul at Phi of a point of order q of E/F_p answers Phi of the multiple, for every integer scalar |
| Instance.UnityEleven | fp2.c:108-133 | modulo 11 both 5 + 3i and 5 + 8i are cube roots of unity, and 5 + 3i is the one computed |
| IdentityPoint.HashedOnCurve | ibe_lib.c:239-256 | every digest gives a finite point of E/F_p, with the ordinate that hash_G yields, an ordinate p counting as 0 |
| IdentityPoint.MapToPoint | ibe_lib.c:239-281 | for every digest: the loop ends in its first pass with a finite canonical point, which is (p+1)/q times the hashed point when point_mul's course is right, and of order exactly q |
| IdentityPoint.OrdinateIsModulus | ibe_lib.c:215-225 | the ordinate is p if and only if the stretched bits of the digest end in the bits of p |
| HashToPoint.TrimmedIsLimit | ibe_lib.c:120-122 | clearing leading bits ends at the limit itself if and only if the low bits spell it |
| IdentityPoint.ModulusDigest | ibe_lib.c:215-225 | the digest that spells p is such a digest |
| IdentityPoint.FailingDigest | ibe_lib.c:239-281 | it is mapped to a point of order two, on which point_mul never gets the cofactor (p+1)/q right when q is odd |
| IdentityPoint.OrderQ | ibe_lib.c:193-198 | multiplying by (p+1)/q gives order q |
| ByteStrings.EncodeArray | byte_string.c:125-161 | the offset loops write count, lengths and strings, nothing else and in that order |
| ByteStrings.Format | byte_string.c:125-161 | byte for byte: count and lengths in two bytes each, most significant first and modulo 65536, then the strings, all in the order of the array |
| ByteStrings.PairFormat | byte_string.c:223-231 | the bytes of a pair: 0, 2, the two lengths, the two strings |
| ByteStrings.DecodeArray | byte_string.c:163-219 | accepts exactly the encodings of arrays with counts and lengths below 65536 and returns the array encoded |
| ByteStrings.Join | byte_string.c:223-231 | the encoding of a pair |
| ByteStrings.EncodeInjective | byte_string.c:125-219 | different arrays within those bounds have different encodings |
| ByteStrings.Split | byte_string.c:233-255 | the two halves of a pair, two empty strings for anything else |
| ByteStrings.HalvesOfPair | byte_string.c:223-255 | splitting recovers what was joined |
| ByteStrings.IntRoundTrip | byte_string.c:93-123 | integers survive exactly when they fit one byte, because the cast precedes the shift |
| ByteStrings.SetInt | byte_string.c:93-101 | three zero bytes and the lowest byte of the integer: [0, 0, 0, n mod 256] |
| ByteStrings.IntFrom | byte_string.c:113-123 | reads four bytes big-endian in 32-bit two's complement, which inverts the writing of single bytes; answers 0 for other lengths |
| Serial.SizeInBytes | ibe_lib.c:33-41 | the least positive number of bytes that x fits into, so one byte for zero |
| Serial.OutRaw | ibe_lib.c:43-58 | the lowest n bytes, most significant first, written from the end of the buffer |
| Serial.InpRaw | ibe_lib.c:60-70 | the number that the bytes denote, most significant first |
| Serial.SetMpz | ibe_lib.c:128-134 | the shortest string that denotes the number: it has no leading zero byte unless it is the one byte of zero |
| Serial.FirstByte | ibe_lib.c:128-134 | zero is [0]; every other number starts with a non-zero byte |
| Serial.RawAt | ibe_lib.c:43-58 | byte k of n is x / 256^(n-1-k) mod 256 |
| Serial.SetFp2 | ibe_lib.c:136-144 | the pair of the components' strings, real component first |
| Serial.SetPoint | ibe_lib.c:146-154 | the pair of the coordinates' pairs, abscissa first, without the infinity flag |
| Serial.MpzRoundTrip | ibe_lib.c:128-159 | every natural number is recovered from its string |
| Serial.RawOfBig | ibe_lib.c:43-70 | every byte string is recovered from its number and its length |
| Serial.Fp2From | ibe_lib.c:161-172 | the element that any string stands for |
| Serial.PointFrom | ibe_lib.c:174-185 | the coordinates that any string stands for; the infinity flag keeps its old value |
| Serial.Fp2Recovered | ibe_lib.c:136-172 | elements with components below 65536 bytes are recovered from their strings |
| Serial.PointRecovered | ibe_lib.c:146-185 | so are finite points |
| Serial.CanonicalStorable | ibe_lib.c:146-154 | canonical points fit the format whenever p has at most 16000 bytes |
| Serial.PointRoundTrip | ibe_lib.c:146-185 | the string determines the coordinates |
| Parameters.Params.Serialize | ibe_lib.c:893-925 | version, id, p, q, P, Ppub, sharet and sharen in this order, then one pair per share, as one array |
| Parameters.Params.Deserialize | ibe_lib.c:927-981 | reads every stored field, by its position, of any array that is as long as it announces |
| Parameters.StoredRoundTrip | ibe_lib.c:893-981 | what is read from a stored parameter set is that set, for sharet and sharen at most 255 |
| Parameters.StoredDetermines | ibe_lib.c:893-981 | different parameter sets within those bounds have different strings |
| Shamir.Division | ibe_lib.c:831-891 | synthetic division: f(X) = f(c) + (X - c) g(X) |
| Shamir.EvalTerm | ibe_lib.c:798-803 | the coefficient at position i belongs to the i-th power |
| Shamir.DotTerm | ibe_lib.c:831-891 | the weighted sum adds the products at equal positions |
| Shamir.WeightsSum | ibe_lib.c:859-874 | the Lagrange weights at zero of any distinct nodes add up to 1 |
| Shamir.Interpolation | ibe_lib.c:831-891 | the weighted sum of the values of any polynomial of degree below the number of distinct nodes is its constant term modulo q |
| Threshold.Horner | ibe_lib.c:798-803 | Horner's loop is evaluation modulo q |
| Threshold.SplitShares | ibe_lib.c:750-811 | share i is the pair of i and the value at the i-th abscissa of the polynomial with the master as constant term |
| Threshold.ShareWeight | ibe_lib.c:852-874 | the two running products and one inversion give the Lagrange weight of the i-th share when the abscissas are distinct |
| Threshold.ReadShare | ibe_lib.c:854-858 | index and value that any string stands for |
| Threshold.ShareRecovered | ibe_lib.c:806-858 | a share gives back the index and the value packed in it |
| Threshold.ConstructMaster | ibe_lib.c:831-891 | for any strings with indices in range: the encoding of a number below q, and for distinct abscissas of the weighted sum modulo q |
| Threshold.SharesDetermine | ibe_lib.c:831-891 | any t or more shares of a polynomial with at most t coefficients give its constant term |
| Threshold.SplitThenConstruct | ibe_lib.c:750-891 | for prime q, t <= n <= 256, any coefficients and distinct abscissas, any t distinct shares reconstruct the master modulo q, through the byte strings |
| Threshold.MasterUnchanged | ibe_lib.c:750-891 | a master below q in its own encoding comes back byte for byte |
| KeyShares.Extract | ibe_lib.c:449-467 | for an identity that is mapped to order q and a master that point_mul gets right, the key is the encoding of master times the identity's point |
| KeyShares.PlainBytes | ibe_lib.c:449-515 | the bytes of a key and of a key share: real coordinates with a zero byte as imaginary component, after the index |
| KeyShares.MultipleOfIdentity | ibe_lib.c:460-463 | for every digest and multiplier a finite canonical point; the multiple of the identity's point of order q when point_mul gets both multiplications right |
| KeyShares.ExtractShare | ibe_lib.c:480-515 | for every string the share carries its index and a canonical point; its value times the identity's point when point_mul gets both multiplications right |
| KeyShares.SplitMaster | ibe_lib.c:750-829 | the shares, and the verification points as the values' multiples of the public point, for the values that point_mul gets right |
| KeyShares.ReadIndices | ibe_lib.c:540-552 | any list of strings is refused exactly when two decoded indices agree |
| KeyShares.Combine | ibe_lib.c:528-592 | refuses exactly the lists with a repeated index, whatever the strings; otherwise, when they carry multiples y_i D and point_mul gets the weights right, returns the encoding of the multiple that the sums of point_add reach, CodeDot |
| KeyShares.AddKeyPart | curve.c:306-333 | adding w D to e D gives (e + w) D, except that opposite points give 2e D; never O |
| KeyShares.CodeDotIsDot | ibe_lib.c:564-584 | without a partial sum O that multiple is the Lagrange sum |
| KeyShares.SumsReachMaster | ibe_lib.c:564-584 | and then it is the master modulo q |
| ExtractionExamples.CombinationFails | ibe_lib.c:564-584 | modulo 13 the shares 3, 3, 5 of the master 5 at the abscissas 1, 2, 3 are combined to 10: the first two weighted shares are opposite |
| KeyShares.CombinedIsExtracted | ibe_lib.c:449-592 | that multiple is master times the identity's point, so threshold and direct extraction agree |
| KeyShares.KeyShareRecovered | ibe_lib.c:507-560 | a key share gives back its index and its point |
| KeyShares.ThresholdExtraction | ibe_lib.c:449-811 | splitting the master, extracting key shares with any t of the shares and combining them is never refused, and gives byte for byte the key that the master gives if and only if CodeDot is the master modulo q, for masters, values, weights and identities that point_mul gets right |
| ExtractionExamples.ExtractionEleven | ibe_lib.c:449-811 | p = 11, q = 3, the master 1 and the digest 17 satisfy everything that this assumes |
| Streaming.DecryptCtx.Update | crypto.c:291-386 | after any chunk the state is the one determined by all bytes received, and the output continues what the cipher has produced from them |
| Streaming.DecryptCtx.Absorb | crypto.c:348-384 | full flush, partial flush and filling each keep the last md_length bytes back and pass all others on once and in order, within auxbuf |
| Streaming.DecryptCtx.FullFlush | crypto.c:352-364 | everything held and the new bytes but the last md_length go on, and those refill the buffer |
| Streaming.DecryptCtx.PartialFlush | crypto.c:365-377 | the overflow goes on, the rest moves to the front, and the new bytes follow it |
| Streaming.DecryptCtx.StartBody | crypto.c:325-337 | the complete IV starts cipher and MAC, and auxbuf changes from key to buffer |
| Streaming.DecryptCtx.ReadIv | crypto.c:311-323 | IV bytes from any number of chunks are collected in order |
| Streaming.DecryptCtx.constructor | crypto.c:259-272 | a fresh context has received nothing, holds the key derived from the secret and the character 1 in auxbuf, and the hash of the secret and the character 2 as MAC key |
| Streaming.DecryptCtx.Advance | crypto.c:275-289 | MAC and cipher absorb the same bytes |
| Streaming.DecryptCtx.HeldIsBody | crypto.c:291-386 | the cipher has been given exactly the stream without its IV and its last min(md_length, rest) bytes, the MAC has the IV before them, and auxbuf holds exactly the tail |
| Streaming.DecryptCtx.Final | crypto.c:388-415 | succeeds exactly when the stream is at least iv_length + md_length long, ends in the MAC of everything before, and the cipher finishes |
| Streaming.EncryptCtx.Update | crypto.c:183-206 | the IV is sent once, before the first ciphertext bytes, and everything sent so far is the IV and the ciphertext of everything given; the MAC absorbs it |
| Streaming.EncryptCtx.Final | crypto.c:208-225 | the cipher's last bytes are followed by the MAC of everything sent |
| Streaming.EncryptCtx.constructor | crypto.c:158-181 | a fresh context has sent nothing, holds the salt as IV and the same two keys |
| Streaming.MakeKeys | crypto.c:132-156 | the cipher key derived from the secret with a 1 behind it, the MAC key the hash of the secret with a 2 behind it |
| Streaming.KeysDetermine | crypto.c:132-156 | for injective hash and derivation, equal keys come from equal secrets only, and conversely |
| Streaming.KeysApart | crypto.c:132-156 | no secret's cipher key is any secret's MAC key, even if one injective function makes both |
| Streaming.KeyBytes | crypto.c:132-156 | for functions that change nothing the keys are the secret followed by 49 and by 50 |
| Streaming.EncryptAll | crypto.c:183-225 | any way of cutting the message into at least one update sends the same stream: salt, ciphertext, and the MAC of both under the keys made of the secret and the characters 1 and 2 |
| Streaming.DecryptAll | crypto.c:275-415 | any way of cutting the stream gives the same verdict and the same message |
| Streaming.ProducedFrom | crypto.c:291-386 | what has come out before the end is the decryption of everything but the IV and the last md_length bytes, nothing as long as there is no more |
| Streaming.OpenedFrom | crypto.c:275-415 | IV, body and MAC open exactly if the MAC is that of IV and body and the cipher accepts the body, and to its plaintext; shorter streams are refused |
| Streaming.FlattenJoins | crypto.c:183-415 | pieces are joined in their order |
| Streaming.SealedOpens | crypto.c:183-415 | the stream of a message opens to that message |
| Streaming.RoundTrip | crypto.c:183-415 | encrypting in any pieces and decrypting in any other pieces accepts and returns the message |
| Streaming.SuiteExists | crypto.c:132-181 | the assumptions on cipher and MAC are consistent |
| TonelliShanks.Tonelli | nonsin.c:127-182 | terminates and returns the x in {0, ..., p-1} with x^2 = a modulo every odd prime p = 2^e s + 1 that is a^((s+1)/2) times a power of nq^s below the 2^(e-1)-th, given nq^((p-1)/2) = -1 and a^((p-1)/2) = 1 |
| TonelliShanks.OneRoot | nonsin.c:127-182 | of the two square roots only one has this form |
| TonelliShanks.FormedRound | nonsin.c:163-176 | one round decides one more binary digit of that power |
| TonelliShanks.FindOrder | nonsin.c:155-162 | the endless-looking inner loop ends with the least m for which b^(2^m) = 1, and m < r |
| TonelliShanks.Start | nonsin.c:140-153 | the initial x, b, y satisfy x^2 = a b, b^(2^(e-1)) = 1 and y^(2^(e-1)) = -1 |
| TonelliShanks.Round | nonsin.c:154-176 | one round keeps these relations for the smaller r = m |

## Left out

- KeyShares.Combine: says nothing about the key when the strings do not carry multiples of one point of order q, or when point_mul's course for a weight is not right, where its result is arbitrary.
- KeyShares.ThresholdExtraction: says nothing about the keys when point_mul's course for the identity, the master, a value or a weight is not right.
- KeyShares.Extract: says nothing about the key in the same cases.
- GeneralCourse.ProductValid: for p > 3; modulo 3 every sum of points of the curve is on it.
- GeneralCourse.ProductMultiple: does not say which multiple results when a mod q is not below the order of P.
- Parameters.Params.Deserialize: covers arrays that are as long as they announce; the C code reads beyond a shorter one.  The curve, Phi of the public point, the tables and the cache, which it recomputes, are not part of the method.
- Threshold.ConstructMaster: assumes indices within robustx, beyond which the C code reads; for abscissas that agree modulo q the failed inversion leaves the number below q arbitrary.  Indices are read once, not again for every pair.
- Serial.SetPoint: non-negative coordinates only, which every canonical point has.
- Streaming.DecryptCtx.Update: the caller's output buffer and failures inside the cipher library are not modelled; auxbuf and ivbuf and their bounds are.
- Streaming.RoundTrip: needs at least one encrypt update, since the IV is sent by the first one.
- Powers.Frobenius: for p = 3 mod 4 only, the representation of F_p^2 that the library is compiled for.
- HashToPoint.MpzFromHash: the hash function itself is a parameter; the method starts from the digest.
- Params keeps the shares' points as coordinate pairs, not as objects.
- simple_miller, general_miller and weil_pairing, and bilinearity of the pairing, which need divisor theory.
- Key encapsulation, BLS and identity-based signatures, which are algebra on top of bilinearity.
- IBE_setup's search for primes, primality tests and all randomness.
- nonsin.c apart from tonelli: an experimental pairing on other curves.
- fp2_set_str, fp2_out_str and the other input and output routines, the command-line programs, the network, mail and timing files.
- Allocation and freeing of memory and its bookkeeping.
