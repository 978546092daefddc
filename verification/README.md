# Cryptography course code, modelled in Dafny

This project models the teaching implementations of a small cryptography
course: number-theory utilities, a prime-field elliptic-curve toolkit, a
base-26 block encoding, three classical ciphers, and textbook RSA and ElGamal.
Each Python function becomes a Dafny function or method. Its contract is
stated in terms of the mathematics the function computes, and lemmas relate
the operations to each other: inverses, round trips, uniqueness, and
agreement between the two implementations of the same algorithm.

The modules follow the source files:

- `Arith` (arith.dfy): powers, Euclidean remainders, and the digits of Python's `bin(x)[2:]`. Python's `%` and `//` with a positive modulus are Dafny's `%` and `/`. Every modulus in the model is positive.
- `Euclid` (euclid.dfy) and `Primes` (primes.dfy): util.py.
- `ModExp` (modexp.dfy): the two square-and-multiply loops of util.py.
- `FindGenerator` (find_generator.dfy): find_generator.py, proved equal to the util.py versions.
- `EllipticCurve` (elliptic_curve.dfy) and `CurveArithmetic` (curve_arithmetic.dfy): elliptic_curve_cryptosystem.py.
  - Points are `Affine(x, y) | Infinity`.
  - A failed coprimality assertion of the modular inverse is an `Option` result.
- `SquareRoots` (square_roots.dfy): the square-root routine of elliptic_curve_cryptosystem.py next to its corrected form (see Findings).
- `NumericRepresentation` (numeric_representation.dfy): numeric_representation.py.
- `Text`, `Caesar`, `Permutation`, `Playfair` (text.dfy, caesar.dfy, permutation.dfy, playfair.dfy): Caesar_permutation_playfair_cipher.py.
- `Rsa` (rsa.dfy): the `RSA` class of RSA.py. The key is an immutable value, and `set_e` returns the updated key.
- `ElGamal` (elgamal.dfy): EIGamal.py.
- `Wrappers` (wrappers.dfy): the `Option` type.

Python `assert`s at the entry of a function become `requires` clauses.
Assertions and exceptions raised deeper inside become `None` results:
- the modular inverse's coprimality check;
- the "No solutions" check of the order loop;
- numpy's reshape and index errors in Playfair;
- the exceptions `is_point_on_curve` swallows.

## Model

| member | source | states |
|---|---|---|
| Arith.Bin | util.py:116 | The digits of `bin(x)[2:]` are never empty, start with 1 for x >= 1, and read back as x. |
| ModExp.LeftToRight | util.py:137-140 | After consuming any prefix of the digits, the loop's y is congruent to a raised to the value of that prefix, and is reduced once a digit has been read. |
| ModExp.ModExpLeft | util.py:126-141 | The left-to-right loop returns exactly a^x mod p for every x >= 0, including x = 0, whose digit string is "0". |
| ModExp.ModExpRight | util.py:108-123 | The right-to-left loop returns a^x mod p for x >= 1, so it agrees with the left-to-right loop. For x = 0 it returns the unreduced 1. |
| ModExp.RightStep | util.py:119-122 | One iteration keeps y * s^(value of the remaining digits) fixed modulo p: the loop invariant. |
| Euclid.GcdLoop | util.py:28-31 | The remainder loop returns a positive common divisor of its arguments when they are not both 0, and 0 on (0, 0). |
| Euclid.GcdLoopGreatest | util.py:28-33 | Every common divisor of the arguments divides the loop's result, so the result is the greatest common divisor. |
| Euclid.Gcd | util.py:21-33 | `gcd` returns a common divisor that every common divisor divides, and gcd(a, 0) = a. |
| Euclid.GcdCommutes | util.py:27 | Because of the initial swap, the argument order does not matter. |
| Euclid.GcdIsLoop | util.py:27-33 | The swap is not needed: the bare loop computes the same value. |
| Euclid.ExtendedEuclidLoop | util.py:62-67 | From any state satisfying the loop invariant, the loop returns a remainder that is a Bezout combination of a and b and is the gcd of the two starting remainders. Its x coefficient is bounded by b. |
| Euclid.ExtendedEuclidStep | util.py:63-66 | One iteration keeps u0 = a*u1 + b*u2 and v0 = a*v1 + b*v2, keeps the coefficients' alternating signs, and keeps the bound that limits them. |
| Euclid.ExtendedEuclid | util.py:52-67 | Returns (g, x, y) with a*x + b*y = g = gcd(a, b), and |x| <= b when b >= 1. |
| Euclid.ModInverse | util.py:71-87 | Succeeds exactly when a = 0 or a (reduced mod m if negative) is coprime to m. It returns 0 for a = 0; otherwise it returns x with a*x = 1 (mod m), and x < m once m >= 2. |
| Euclid.SolveModularInverseEquation | util.py:92-104 | Returns an x in [0, p) with a*x = b (mod p). |
| Euclid.SolveIsUnique | util.py:92-104 | Any y in [0, p) with a*y = b (mod p) is the returned solution: the solution is unique. |
| Primes.IsPrime | util.py:36-49 | For n >= 2, `isprime`'s trial division up to the square root (after the even test) accepts n exactly when n has no divisor in [2, n). It also accepts 0 and 1. |
| Primes.FindDivisors | util.py:6-17 | Returns exactly the d in [2, n) that divide n, strictly ascending. |
| Primes.FactorFrom | util.py:229-234 | The trial-division loop, started at a divisor below which n has no factor, yields primes at least that divisor, in non-decreasing order, whose product is n. |
| Primes.PrimeFactorization | util.py:218-235 | `[1, n]` when `isprime` accepts n. Otherwise the prime factors of n, non-decreasing, with product n. |
| Primes.OrderFrom | util.py:162-167 | From step i, the loop returns one of three outcomes. It returns the first j with a^(j+1) mod n = a, when that residue and every earlier one are non-zero, so a = 0 never gives a positive result. It returns 0 when no j below n qualifies. It fails (None) when a zero residue comes first. |
| Primes.OrderOfModulo | util.py:146-167 | A positive result is the least i >= 1 with a^(i+1) mod n = a, and that residue and every earlier one are non-zero. A result of 0 means no i in [1, n) qualifies. None is the "No solutions" assertion, raised at a zero residue. |
| Primes.OrderOfTwoModThirtyOne | util.py:156-157 | The first docstring example: the order of 2 modulo 31 is 5. |
| Primes.OrderOfThreeModSeven | util.py:158-159 | The second docstring example: the order of 3 modulo 7 is 6. |
| Primes.SmallestGeneratorFrom | util.py:185-193 | The search from i returns the least candidate in [i, p) that passes both tests, or None when none does. |
| Primes.SmallestGenerator | util.py:171-193 | For p accepted by `isprime`, returns the least i in [2, p) such that no listed divisor d of p-1 gives i^d mod p = 1 and i^(p-1) mod p = 1. Returns None when no i qualifies. |
| Primes.SeveralFrom | util.py:207-215 | The collection loop extends what it has found and stays ascending. It keeps only values passing the divisor test, at most `amount` of them. It misses a passing value only once `amount` are found, and never one below the last value found. |
| Primes.SeveralStep | util.py:207-214 | One iteration of the collection loop keeps its invariant: the values found are exactly the passing values below the current i. |
| Primes.SeveralGenerators | util.py:195-215 | Ascending values in [2, p-1) passing the divisor test, at most `amount` of them. Every passing value is included unless the search stopped at `amount`, and none below the last one is skipped. |
| FindGenerator.FindDivisorsLoop | find_generator.py:2-13 | The `for` loop lists exactly the divisors in [2, n), ascending, and equals util.py's `find_divisors`. |
| FindGenerator.DivisorHit | find_generator.py:32-35 | The inner `for ... break` reports a hit exactly when some listed divisor d gives i^d mod p = 1. |
| FindGenerator.FindSmallestGenerator | find_generator.py:16-39 | The `while` loop returns the least qualifying i in [2, p), or None, and coincides with util.py's `get_smallest_generator`. |
| FindGenerator.FindSeveralGenerators | find_generator.py:42-62 | The nested loops return the ascending, gap-free, at-most-`amount` list of passing values, and coincide with util.py's `find_several_generators`. |
| FindGenerator.SeveralIteration | find_generator.py:54-61 | One pass of the outer loop keeps the invariant. It stops exactly when `amount` values are found, and then its list is the final answer. |
| EllipticCurve.IsSingular | elliptic_curve_cryptosystem.py:15-23 | A singular equation (4a^3 + 27b^2 = 0 over the integers) has a <= 0, and a = 0 exactly when b = 0. |
| EllipticCurve.DoubleRootSingular | elliptic_curve_cryptosystem.py:15-23 | If the cubic x^3 + a*x + b and its derivative share an integer root t, the equation is singular, and the cubic factors as (x - t)^2 (x + 2t). |
| EllipticCurve.SingularDoubleRoot | elliptic_curve_cryptosystem.py:15-23 | Conversely, a singular equation has the double root t = -3b/(2a): the cubic and its derivative, cleared of the denominator 2a, vanish at -3b. |
| EllipticCurve.SingularExamples | elliptic_curve_cryptosystem.py:15-23 | The discriminant test is over the integers. y^2 = x^3 - 3x + 2 is singular, the course curve (2, 9) is not, and neither is (0, 23), although its discriminant vanishes modulo 23. |
| EllipticCurve.DecomposeByTwo | elliptic_curve_cryptosystem.py:26-38 | For a != 0, returns (s, t) with a = 2^s * t and t odd, and 0 < t <= a when a > 0. |
| EllipticCurve.DecomposeUnique | elliptic_curve_cryptosystem.py:26-38 | Any split a = 2^s * t with t odd is the one returned: the decomposition is unique. |
| EllipticCurve.Legendre | elliptic_curve_cryptosystem.py:42-79 | For odd n >= 3 and a >= 0, the symbol is -1, 0 or 1. It is 0 at a = 0 and 1 at a = 1. The recursion keeps the precondition and terminates. |
| EllipticCurve.LegendreZeroIff | elliptic_curve_cryptosystem.py:42-79 | The symbol is 0 exactly when a and n are not coprime. |
| EllipticCurve.LegendreZeroModPrime | elliptic_curve_cryptosystem.py:42-79 | For an odd prime modulus, the symbol is 0 exactly on the multiples of the modulus. |
| EllipticCurve.EquationPeriodic | elliptic_curve_cryptosystem.py:82-91 | The right-hand side x^3 + a*x + b mod p depends only on x mod p, so enumerating x in [0, p), as test.py:11 does, meets every value. |
| EllipticCurve.OddPart | elliptic_curve_cryptosystem.py:117 | The t of p - 1 = 2^s * t is odd and lies in (0, p - 1]. |
| EllipticCurve.Refine | elliptic_curve_cryptosystem.py:124-128 | The refinement loop never changes the root, whatever c is, because a remainder modulo p is never -1. |
| EllipticCurve.ResidueInvertible | elliptic_curve_cryptosystem.py:119 | The step-4 inverse of the residue exists for every residue modulo an accepted prime, so the square-root routine never fails there. |
| EllipticCurve.RootPair | elliptic_curve_cryptosystem.py:117-130 | The returned pair is (r, p - r), with r = v^((t+1)/2) mod p in [0, p). |
| EllipticCurve.SquareRootsWith | elliptic_curve_cryptosystem.py:94-130 | No roots exactly when the right-hand side's symbol is -1. Otherwise the pair (r, p - r), whose components sum to p, with r the principal root. |
| EllipticCurve.IsPointOnCurve | elliptic_curve_cryptosystem.py:134-149 | A point the test accepts is finite, has 0 <= y <= p, and lies over a modulus that is a genuine prime; every exception the source swallows gives false. |
| EllipticCurve.OnCurveIff | elliptic_curve_cryptosystem.py:134-149 | (x, y) is on the curve exactly when p is an odd prime accepted by `isprime`, the right-hand side's symbol is not -1, and y is r or p - r. |
| EllipticCurve.OnCurveMirror | elliptic_curve_cryptosystem.py:134-149 | A point on the curve has 0 <= y <= p, and its mirror image (x, p - y) is on the curve too. |
| EllipticCurve.TestModulus | test.py:8 | The course curve's modulus 23 is an odd prime accepted by `isprime`. |
| EllipticCurve.TestSymbol | elliptic_curve_cryptosystem.py:42-79 | The symbol of 9 modulo 23 is 1. |
| EllipticCurve.TestRoot | elliptic_curve_cryptosystem.py:82-130 | On the course curve, the right-hand side at x = 0 is 9, and its principal root is 3. |
| EllipticCurve.TestCurvePoint | test.py:6-8 | (0, 3) is a point of the course curve y^2 = x^3 + 2x + 9 over Z_23. |
| CurveArithmetic.TangentSlope | elliptic_curve_cryptosystem.py:205 | The tangent slope exists exactly when y = 0 (zero "inverse") or 2y is invertible modulo p. It is then k in [0, p) with k * 2y = 3x^2 + a (mod p), or 0 when y = 0. |
| CurveArithmetic.ChordSlope | elliptic_curve_cryptosystem.py:212 | The chord slope exists exactly when the x are equal or their difference is invertible. It is then k in [0, p) with k * (h.x - g.x) = h.y - g.y (mod p), or 0 when the x are equal. |
| CurveArithmetic.Tangent | elliptic_curve_cryptosystem.py:205-208 | The doubled point has reduced coordinates with x' + 2x = k^2 and y' + y = k(x - x') (mod p). |
| CurveArithmetic.Chord | elliptic_curve_cryptosystem.py:212-215 | The chord sum has reduced coordinates with x' + h.x + g.x = k^2 and y' + g.y = k(g.x - x') (mod p). |
| CurveArithmetic.AddTwoPoint | elliptic_curve_cryptosystem.py:191-215 | For points on the curve, the result is the point at infinity exactly for distinct points with the same x. Equal points go through the tangent rule, points with different x through the chord rule, and finite results are reduced. |
| CurveArithmetic.InverseModPrime | util.py:79-83 | Modulo a prime, the inverse fails exactly on nonzero multiples of the prime. |
| CurveArithmetic.DoublingDefined | elliptic_curve_cryptosystem.py:204-208 | Doubling a point of the curve fails only for y = p. |
| CurveArithmetic.ChordDefined | elliptic_curve_cryptosystem.py:212-215 | The chord rule fails exactly when the x differ by a nonzero multiple of p. |
| CurveArithmetic.AddDefined | elliptic_curve_cryptosystem.py:202-215 | `add_two_point` fails exactly for a doubled point with y = p, or two points whose x differ by a nonzero multiple of p. |
| CurveArithmetic.AddMirror | elliptic_curve_cryptosystem.py:209-211 | A point plus its mirror image (x, p - y), when the two differ, is the point at infinity. |
| CurveArithmetic.ChordCommutes | elliptic_curve_cryptosystem.py:212-215 | Modulo a prime, the chord rule gives the same point in either order. |
| CurveArithmetic.AddCommutes | elliptic_curve_cryptosystem.py:202-215 | `add_two_point` is commutative on points of the curve. |
| CurveArithmetic.MultiplyBits | elliptic_curve_cryptosystem.py:164-186 | The loop over no digits, or on the point at infinity, yields the point at infinity. |
| CurveArithmetic.PointMultiplication | elliptic_curve_cryptosystem.py:152-187 | [0]G is the point at infinity, [1]G = [-1]G = G, and [m] of the point at infinity is the point at infinity. |
| CurveArithmetic.NegativeMultiplier | elliptic_curve_cryptosystem.py:166-170 | For m < 0 the 'b' left by `bin(m)[2:]` only doubles the point at infinity, so the source returns [-m]G, the same point as for -m, rather than its negation. |
| CurveArithmetic.MultiplicationFinite | elliptic_curve_cryptosystem.py:163-187 | For m >= 1 and finite G, a defined [m]G is never the point at infinity. |
| CurveArithmetic.MultiplicationRecurrence | elliptic_curve_cryptosystem.py:166-186 | [2m]G is the doubling of [m]G, and [2m+1]G adds G to that doubling along the chord. |
| CurveArithmetic.MultiplicationReduced | elliptic_curve_cryptosystem.py:170-186 | For m >= 2 and finite G, a defined [m]G has coordinates in [0, p). |
| CurveArithmetic.MultiplicationTwo | elliptic_curve_cryptosystem.py:163-187 | [2]G is `add_two_point(G, G)`. |
| CurveArithmetic.OrbitExtend | elliptic_curve_cryptosystem.py:238-239 | Appending g plus the last point keeps the list an orbit of g on the curve. |
| CurveArithmetic.OrderLoop | elliptic_curve_cryptosystem.py:237-243 | When the `while q` loop finishes, it extends the points listed so far into an orbit of g closed by the point at infinity. |
| CurveArithmetic.OrderOfGivenPoint | elliptic_curve_cryptosystem.py:220-248 | A finished run lists g, 2G, 3G, ... on the curve, each g plus the previous, then the infinity marker reached from the last. So the order reported is at least 2. |
| SquareRoots.SquaresEqual | elliptic_curve_cryptosystem.py:98 | Modulo a prime, two residues with the same square are equal or opposite. So a pair (r, p - r) of roots is every root there is. |
| SquareRoots.SquareRootsOfOne | elliptic_curve_cryptosystem.py:125-126 | The only square roots of 1 modulo a prime are 1 and p - 1. These are the two values the refinement test can meet. |
| SquareRoots.HalfOf | elliptic_curve_cryptosystem.py:117 | For an even n = 2^s * t with t odd (so n = p - 1 for an odd p), s >= 1 and n/2 = t * 2^(s-1). |
| SquareRoots.StartInvariant | elliptic_curve_cryptosystem.py:119-122 | For a residue v with v^((p-1)/2) = 1, the starting root r = v^((t+1)/2) satisfies (r^2 * v^-1)^(2^(s-1)) = 1 (mod p). |
| SquareRoots.RefineCorrectedSquares | elliptic_curve_cryptosystem.py:124-128 | Loop invariant of the corrected step 6: with c = b^(t*2^(i-1)) and (r^2 * v^-1)^(2^(s-i)) = 1, the loop ends with r^2 = v (mod p), given b^((p-1)/2) = -1. |
| SquareRoots.CorrectedRootPair | elliptic_curve_cryptosystem.py:117-130 | The corrected routine returns (r, p - r) with r in [0, p). |
| SquareRoots.CorrectedRootSquares | elliptic_curve_cryptosystem.py:94-130 | Under Euler's criterion for the value and the draw, both values of the corrected pair square to the right-hand side modulo p, as the docstring promises. |
| SquareRoots.CorrectedRootsComplete | elliptic_curve_cryptosystem.py:94-130 | Under the same hypotheses, a y in [0, p) squares to the value exactly when it is one of the corrected pair. |
| SquareRoots.RootsAgreeThreeModFour | elliptic_curve_cryptosystem.py:117-130 | For p = 3 (mod 4) the loop has no pass, so the code as written returns the corrected pair. |
| SquareRoots.AsWrittenRootWrong | elliptic_curve_cryptosystem.py:94-147 | On y^2 = x^3 + 4 over Z_13 at x = 0, the code as written returns (3, 10), which do not square to 4, and `is_point_on_curve` rejects (0, 2) although 2^2 = 4. |
| SquareRoots.CorrectedRootExample | elliptic_curve_cryptosystem.py:124-128 | On the same value, with the non-residue 2, the corrected routine returns (11, 2), the true roots of 4 modulo 13. |
| NumericRepresentation.PaddedText | numeric_representation.py:10-14 | The cleaned text followed by copies of `padding` up to the next multiple of the block size, adding nothing when the length is already a multiple. |
| NumericRepresentation.PaddingArithmetic | numeric_representation.py:13-14 | The padded length is the next multiple of k, giving ceil(n / k) blocks. |
| NumericRepresentation.Blocks | numeric_representation.py:17 | Cutting into k-blocks gives len / k blocks of exactly k characters, which concatenate back to the text when k divides its length. |
| NumericRepresentation.BlocksOfConcat | numeric_representation.py:17 | Cutting a concatenation of k-blocks gives the blocks back. |
| NumericRepresentation.BlockSumValue | numeric_representation.py:22-24 | The positional sum of the inner loop is the block's value in base 26, most significant letter first. |
| NumericRepresentation.ConvertToNumeric | numeric_representation.py:3-27 | One number per block, ceil(len / blockSize) of them. Each is the base-26 value of its block, and lies in [0, 26^blockSize) for a letter text and letter padding. |
| NumericRepresentation.ConvertNumber | numeric_representation.py:38-45 | A number decodes to upper-case letters: at least blockSize of them, more only when its digits need more. |
| NumericRepresentation.ConvertToString | numeric_representation.py:30-47 | The decoding of a list of numbers is upper-case text. |
| NumericRepresentation.ConvertNumberLength | numeric_representation.py:38-45 | A number in [0, 26^k) decodes to exactly k letters. |
| NumericRepresentation.ZeroDecodes | numeric_representation.py:39-45 | The number 0 decodes to blockSize copies of 'A'. |
| NumericRepresentation.NumberRoundTrip | numeric_representation.py:38-45 | Re-encoding the letters a number decodes to gives the number back. |
| NumericRepresentation.BlockRoundTrip | numeric_representation.py:21-45 | Decoding the value of an upper-case block gives the block back. |
| NumericRepresentation.ConvertRoundTrip | numeric_representation.py:3-47 | Decoding the encoding of a text of letters and spaces gives the upper-cased, space-free, padded text. |
| NumericRepresentation.NumericRoundTrip | numeric_representation.py:3-47 | Encoding the decoding of numbers in [0, 26^blockSize) gives the numbers back. |
| NumericRepresentation.PaddedDecoding | numeric_representation.py:10-17 | A decoded text needs no cleaning or padding and cuts into the decoded blocks. |
| Text.UpperIdempotent | Caesar_permutation_playfair_cipher.py:3 | Upper-casing twice is upper-casing once, and upper-case text is left unchanged. |
| Text.UpperAppend | Caesar_permutation_playfair_cipher.py:3 | Upper-casing distributes over concatenation, so it acts character by character. |
| Text.RemoveSpaces | Caesar_permutation_playfair_cipher.py:4 | No space survives and every other character is kept as many times as it occurs; a single character is kept or dropped whole, which with RemoveSpacesAppend fixes the result. |
| Text.RemoveSpacesAppend | Caesar_permutation_playfair_cipher.py:4 | Deleting spaces distributes over concatenation. |
| Text.Clean | Caesar_permutation_playfair_cipher.py:3-4 | The cleaned text has no space, and is upper-case letters for a text of letters and spaces. |
| Caesar.ShiftLetter | Caesar_permutation_playfair_cipher.py:6-7 | The enciphered character is always a capital. For a capital, its place is (place + shift) mod 26. |
| Caesar.UnshiftLetter | Caesar_permutation_playfair_cipher.py:120 | The deciphered character is always a capital. For a capital, its place is (place - shift) mod 26. |
| Caesar.UnshiftShift | Caesar_permutation_playfair_cipher.py:6-7 | On capitals, shifting back undoes shifting forward, and vice versa, for every integer shift. |
| Caesar.CaesarCipher | Caesar_permutation_playfair_cipher.py:2-10 | One enciphered letter per character of the cleaned text, so the output length is the number of non-space characters. |
| Caesar.DecryptCaesarCipher | Caesar_permutation_playfair_cipher.py:115-122 | One deciphered letter per character of the cleaned text. |
| Caesar.CaesarRoundTrip | Caesar_permutation_playfair_cipher.py:115-122 | Decrypting the encryption of a text of letters and spaces with the same shift gives the upper-cased, space-free text. |
| Caesar.CaesarRoundTripInverse | Caesar_permutation_playfair_cipher.py:2-10 | Encrypting the decryption of an upper-case text gives the text back. |
| Permutation.Ranks | Caesar_permutation_playfair_cipher.py:24-28 | One rank per keyword character, each in [0, k). |
| Permutation.RanksPermutation | Caesar_permutation_playfair_cipher.py:132-136 | For a keyword of distinct characters, the rank list is a permutation of 0 .. k-1: injective and onto. |
| Permutation.UnpermuteRow | Caesar_permutation_playfair_cipher.py:140-143 | The rewritten row is no longer than the row. |
| Permutation.FillPermuted | Caesar_permutation_playfair_cipher.py:141-142 | After n assignments, slot t holds its original character exactly when one of the first n ranks is t, and is empty otherwise. |
| Permutation.RowRoundTrip | Caesar_permutation_playfair_cipher.py:139-143 | With a permutation of ranks, unpermuting a permuted row gives the row back. |
| Permutation.PaddedPlain | Caesar_permutation_playfair_cipher.py:31-33 | The upper-cased text followed by k - (len mod k) X's, a whole block when the length is a multiple of k. So the length is a multiple of k and strictly greater. |
| Permutation.PermutationCipher | Caesar_permutation_playfair_cipher.py:13-47 | The cipher text length is a multiple of the keyword length and strictly greater than the plain text's. |
| Permutation.DecryptPermutationCipher | Caesar_permutation_playfair_cipher.py:125-144 | Decryption of a text whose length is a multiple of the keyword length yields at most as many characters. |
| Permutation.PermutationRoundTrip | Caesar_permutation_playfair_cipher.py:125-144 | For a keyword of distinct characters, decrypting an encryption gives the upper-cased plain text followed by its X padding. |
| Playfair.AlphabetLetters | Caesar_permutation_playfair_cipher.py:70 | The table alphabet holds exactly the capitals other than J, each once, ascending. |
| Playfair.KeywordCells | Caesar_permutation_playfair_cipher.py:63-68 | The corrected keyword loop extends the cells it is given. It keeps them distinct, and claims exactly the keyword's characters with J filed under I. |
| Playfair.RemainingFrom | Caesar_permutation_playfair_cipher.py:70 | The unclaimed letters are exactly the alphabet letters not among the cells, ascending. |
| Playfair.TableCount | Caesar_permutation_playfair_cipher.py:70-71 | Cells and unclaimed letters always number 25 plus the stray cells outside the alphabet. |
| Playfair.TableShape | Caesar_permutation_playfair_cipher.py:60-72 | The corrected table exists exactly when the keyword is upper-case letters, and then holds every table letter once. |
| Playfair.TableOfCells | Caesar_permutation_playfair_cipher.py:70-71 | Distinct cells reshape into a table exactly when they are all table letters. |
| Playfair.AsWrittenAgrees | Caesar_permutation_playfair_cipher.py:63-68 | On keywords without J, the loop as written and the corrected loop claim the same cells. |
| Playfair.TableAsWrittenAgrees | Caesar_permutation_playfair_cipher.py:60-72 | On keywords without J, the table as written and the corrected table agree. |
| Playfair.AsWrittenTableFails | Caesar_permutation_playfair_cipher.py:63-71 | The loop as written turns "IJ" into 26 cells, which cannot be reshaped into 5x5. |
| Playfair.CorrectedTableHolds | Caesar_permutation_playfair_cipher.py:63-71 | The corrected loop builds a valid table from "IJ". |
| Playfair.KeywordTable | Caesar_permutation_playfair_cipher.py:60-72 | For a keyword of distinct letters without J, the table is the keyword followed by the remaining letters in ascending order. |
| Playfair.IndexOf | Caesar_permutation_playfair_cipher.py:92 | The lookup finds a letter exactly when it is in the table, and then at its first occurrence. |
| Playfair.Locate | Caesar_permutation_playfair_cipher.py:92 | The lookup's (row, column) lies in the table and holds the letter. |
| Playfair.CellIndex | Caesar_permutation_playfair_cipher.py:92 | In a table of distinct cells, looking up a cell's letter finds that cell. |
| Playfair.ShiftIsMod | Caesar_permutation_playfair_cipher.py:94-95 | The row and column shift is the source's (c + 1) % 5 when enciphering and (c - 1) % 5 when deciphering. |
| Playfair.ShiftBack | Caesar_permutation_playfair_cipher.py:176-180 | Shifting back undoes shifting forward, and the shift is injective. |
| Playfair.Move | Caesar_permutation_playfair_cipher.py:94-102 | The two moved positions share a row exactly when the originals do, and likewise a column. |
| Playfair.MoveInverse | Caesar_permutation_playfair_cipher.py:176-184 | The move in the opposite direction undoes the move: row and column shifts are reversed and the rectangle swap is its own inverse. |
| Playfair.Digram | Caesar_permutation_playfair_cipher.py:90-103 | A digram goes through exactly when the table has 25 cells and holds both letters. The result is then two table letters. |
| Playfair.DigramInverse | Caesar_permutation_playfair_cipher.py:172-185 | In a table of distinct cells, deciphering an enciphered digram gives it back, and vice versa. |
| Playfair.MapPairsDefined | Caesar_permutation_playfair_cipher.py:107-108 | The pairs go through exactly when all their letters are in the table. The output is then twice the number of pairs long and made of table letters. |
| Playfair.MapPairsInverse | Caesar_permutation_playfair_cipher.py:189-191 | Re-cutting the output into pairs and mapping it back gives the pairs' concatenation. |
| Playfair.DigramMaps | Caesar_permutation_playfair_cipher.py:172-185 | Both digram directions are pair maps on the table, and the backward one undoes the forward one. |
| Playfair.Cut | Caesar_permutation_playfair_cipher.py:78-87 | The text is cut into pairs of two letters, and a pair of equal letters is always "XX". |
| Playfair.CutInsertsOnlyX | Caesar_permutation_playfair_cipher.py:78-87 | With X's deleted, the cut spells the text with X's deleted. The cut is at least as long as the text and at most twice as long. |
| Playfair.CutLetters | Caesar_permutation_playfair_cipher.py:78-87 | The non-X letters of the cut are exactly those of the text. |
| Playfair.CutPlainText | Caesar_permutation_playfair_cipher.py:78-87 | The source's loop, which inserts X's into the text as it walks, yields exactly the pairs of the recursive cut. |
| Playfair.PlayfairCipher | Caesar_permutation_playfair_cipher.py:50-110 | A successful encryption is upper-case and twice as long as the number of cut pairs. |
| Playfair.DecryptPlayfairCipher | Caesar_permutation_playfair_cipher.py:147-193 | A successful decryption is upper-case and as long as the cipher text. |
| Playfair.PlayfairDefined | Caesar_permutation_playfair_cipher.py:50-110 | Encryption succeeds exactly when the keyword is letters and the upper-cased text consists of table letters. |
| Playfair.PlayfairRoundTrip | Caesar_permutation_playfair_cipher.py:147-193 | Decrypting an encryption with the same keyword gives the cut of the upper-cased plain text, with its X's inserted and padded. |
| Rsa.New | RSA.py:24-29 | The new key satisfies the key invariant: n = p*q, phi = (p-1)(q-1), and no public key yet. |
| Rsa.SetE | RSA.py:47-51 | Installs e and a d with e*d = 1 (mod phi), d < phi, and publishes (n, e). It leaves p, q, n and phi unchanged and keeps the key invariant. |
| Rsa.PrivateExponentUnique | RSA.py:49-50 | The stored d is the only exponent in [0, phi) inverting e. |
| Rsa.GetPublicKey | RSA.py:73-74 | On a consistent key, the returned pair is the published public key. |
| Rsa.Encrypt | RSA.py:53-61 | The cipher text lies in [0, n) and depends on the message only through its residue modulo n: it is that residue raised to e. |
| Rsa.Decrypt | RSA.py:63-71 | The recovered message lies in [0, n) and depends on the cipher text only through its residue modulo n. |
| Rsa.DecryptEncrypt | RSA.py:60-70 | Decrypting an encryption raises the message to e*d, with no hypothesis on the message. |
| Rsa.RsaRoundTrip | RSA.py:53-71 | On a consistent key, decryption undoes encryption for every message whose phi-th power is 1 modulo n. |
| Rsa.RsaRoundTripInverse | RSA.py:53-71 | Encryption undoes decryption under the same hypothesis on the cipher text. |
| Rsa.GenerateCandidates | RSA.py:31-45 | At most `amount` values, ascending, which are exactly the i*phi + 1 for i in [1, amount] that `isprime` rejects. |
| ElGamal.Encrypt | EIGamal.py:20-42 | With a supplied key k, there is no output exactly when dB^k mod p = 1. Otherwise C = m*dB^k (mod p) and the hint H = g^k mod p, both in [0, p). |
| ElGamal.Decrypt | EIGamal.py:44-56 | The recovered message lies in [0, p) and is C*H^(p-1-CB) mod p. It depends on C and H only through their residues modulo p. |
| ElGamal.DecryptEncrypt | EIGamal.py:20-56 | With dB = g^CB mod p, decrypting an encryption gives m*(g^(p-1))^k mod p, for every g and p. |
| ElGamal.ElGamalRoundTrip | EIGamal.py:20-56 | When g^(p-1) = 1 (mod p), decryption recovers m mod p. |
| ElGamal.Sign | EIGamal.py:59-77 | Returns (M, X, Y) with X = g^R mod p, Y in [0, p-1) and R*Y = M - r*X (mod p-1). |
| ElGamal.Verify | EIGamal.py:81-94 | The receiver's verdict K^X * X^Y = g^M (mod p) depends on K, g and the base X only through their residues modulo p. |
| ElGamal.SignVerifies | EIGamal.py:59-94 | When g^(p-1) = 1 (mod p), a signature made with r and R verifies against K = g^r mod p. |

## Left out

- Randomness: ElGamal's random key k and its redraw loop (EIGamal.py:31-39) are left out. The key is a parameter, and only the path with a supplied key is modelled.
- Randomness: the random non-residue loop of the square root (elliptic_curve_cryptosystem.py:113-115) is left out. Its value only feeds the refinement branch that never fires, so `EllipticCurve.SquareRootsWith` takes it as an argument.
- Printing, the `print_detail` flag and the debug output are left out. The model returns the list of points, and its length is the order.
- `isprime` computes a floating-point square root. The model uses the integer bound i*i <= n, which agrees for every n whose square root the float represents exactly.
- numpy arrays and regular expressions are modelled as strings and index arithmetic: a table of 25 cells in row order, and `Blocks` for `re.findall`.
- NumericRepresentation.Blocks: texts are assumed free of the newline character. Without the DOTALL flag the pattern `.{k}` of `re.findall` does not match a newline, so the source skips every window that contains one, while `Blocks` cuts every k characters. Every member built on `Blocks` inherits this: the permutation and Playfair ciphers and their decryptions, and `NumericRepresentation.ConvertToNumeric`. For example the source's `permutationCipher("AB", "A\nB")` keeps only the block "BX", two characters, where `Permutation.PermutationCipher` returns four.
- Permutation.PermutationCipher, Playfair.PlayfairDefined: their contracts describe the source only on text without a newline, as the `Blocks` line above explains.
- `Text.Upper` models `str.upper()` on ASCII only. Non-ASCII upper-casing, where Python can change the length, is not modelled.
- `NumericRepresentation.PaddedText` takes a single padding character. Python's string repetition also accepts longer padding strings, which the model does not cover.
- Negative exponents, negative numbers given to `isprime`, and non-positive moduli are excluded by `requires` or by `nat` parameters. Python does the following on those inputs:
  - `ModExp.ModExpLeft`, `ModExp.ModExpRight`: the exponent is a `nat`. For a negative x, `bin(x)[2:]` is "b" followed by the digits of |x|. The "b" is treated like a 0 digit, so Python returns a^|x| mod p. The docstrings (util.py:111 and util.py:129) ask for a positive x, so the model keeps to that domain.
  - A negative modulus: Python's `%` then returns a value in (p, 0], not one in [0, p). For example, `to_EIGamal_encryption` with p = -7, or `get_modular_exponentiation_from_left` with p = -7, returns such values. Every member that reduces modulo p requires p >= 1.
  - A zero modulus raises ZeroDivisionError.
  - `ElGamal.Decrypt` requires CB <= p - 1. For a larger CB the opener `H ** q` has a negative exponent: Python computes a float, or raises ZeroDivisionError when H == 0.
  - `ElGamal.Verify` requires non-negative M, X and Y. A negative one makes `**` compute a float.
  - `Primes.IsPrime` takes a `nat`. For a negative n, `pow(n, 0.5)` is a complex number and `int()` of it raises TypeError.
- `Rsa.SetE` requires phi >= 1, while the source also runs for phi <= 0 (p or q equal to 1, or negative), where Python's `%` with a non-positive modulus differs from the model's.
- Rsa.RsaRoundTrip: conditional on the hypothesis msg^phi = 1 (mod n). Euler's theorem gives this for every message coprime to n, but it is not proved here. For distinct primes p and q, the source's RSA also round-trips a message that is a multiple of p or q (by the Chinese remainder theorem). The hypothesis fails for such a message, so that case would stay uncovered even if Euler's theorem were proved.
- Rsa.RsaRoundTripInverse: conditional on the hypothesis c^phi = 1 (mod n) for the cipher text c, for the same reasons as `Rsa.RsaRoundTrip`. A cipher text that is a multiple of p or q is not covered.
- ElGamal.ElGamalRoundTrip: conditional on g^(p-1) = 1 (mod p). Fermat's little theorem gives this for a prime p and a g not divisible by p, but it is not proved here.
- ElGamal.SignVerifies: conditional on g^(p-1) = 1 (mod p), the same unproved consequence of Fermat's little theorem.
- Elliptic-curve group theory is not proved: associativity of `add_two_point`, or that doubled or added points lie on the curve. The model states what the code computes.
- The returned root r of `computing_square_roots` is not a square root in general. For p = 3 (mod 4) the code as written returns the corrected pair (`SquareRoots.RootsAgreeThreeModFour`). `SquareRoots.CorrectedRootSquares` shows that pair's values square to v, under its Euler's-criterion hypotheses. For p = 1 (mod 4) the property is false (see Findings). `EllipticCurve.SquareRootsWith` models the code as written. `SquareRoots.CorrectedRootSquares` proves the corrected loop right.
- SquareRoots.CorrectedRootSquares, SquareRoots.CorrectedRootsComplete: both assume Euler's criterion as hypotheses. The value must satisfy v^((p-1)/2) = 1 (mod p) or v = 0, and the draw must satisfy b^((p-1)/2) = -1 (mod p). The link between these and the Legendre symbol that `legendre_symbol` computes is not proved.
- `CurveArithmetic.OrderOfGivenPoint` carries a fuel bound, because termination of the `while q` loop rests on the finite group order, which is not proved. Running out of fuel is a separate outcome.
- `RSA_Digital_Signature` (RSA.py:76-104) calls the `RSA` constructor with one argument and cannot be built, so it is not modelled.
- RSA.py uses `gcd` (line 48) and find_generator.py uses `isprime` (line 28) without importing them. The model uses util.py's definitions.
- Caesar_permutation_playfair_cipher.py has no import statement at all, yet it uses `re.findall`, `np.array` and `np.argwhere`. As written, `permutationCipher`, `decryptPermutationCipher`, `playFairCipher` and `decryptPlayfairCipher` therefore raise NameError. The Caesar functions use neither module and run as written. The model assumes `import re` and `import numpy as np`, and describes what the functions compute with those imports in place.
- `RSA.encrypt` and `RSA.decrypt` before `set_e` read a missing attribute and raise. The model requires the exponents to be installed.
- `Playfair.Digram` returns None for a table that does not have 25 cells; no such table is ever built.
- `Playfair.CipherTable` is the corrected table. The cipher functions use it, and the table as written is kept beside it (see Findings).
- `EllipticCurve.Refine`: the refinement loop is modelled as written, with a test that never fires. `CurveArithmetic` and `is_point_on_curve` keep this as-written behaviour, and so does the point listing. It agrees with the corrected routine whenever p = 3 (mod 4) (`SquareRoots.RootsAgreeThreeModFour`), as for the curve of test.py with p = 23.

## Findings

| source | as written | input that shows it | evidently intended | confidence | as-written member | corrected member |
|---|---|---|---|---|---|---|
| Caesar_permutation_playfair_cipher.py:63-71 | The loop tests `char not in temp_list` before turning J into I, so a J after an I claims a second I cell. | keyword "IJ": the cells "II" plus 24 remaining letters make 26 cells, and the 5x5 reshape fails. | Merge J into I before the membership test, so that every letter is claimed once and the table always has 25 cells. | not executed | Playfair.AsWrittenTableFails | Playfair.CorrectedTableHolds |
| elliptic_curve_cryptosystem.py:124-128 | The test `d % p == -1` compares a remainder in [0, p) with -1, so it never fires, and r stays v^((t+1)/2). A second defect is hidden behind the first: `c` is squared only inside the branch, while Algorithm 3.36 of the Handbook of Applied Cryptography squares it on every pass. | p = 13, a = 0, b = 4, x = 0: the right-hand side is 4, and the code returns (3, 10), but 3^2 = 10^2 = 9 (mod 13). `is_point_on_curve(0, 4, 13, (0, 2))` is therefore False although 2^2 = 4. | Test d == p - 1 and square c on every pass, so that both returned values square to the right-hand side. | not executed | SquareRoots.AsWrittenRootWrong | SquareRoots.CorrectedRootSquares |
