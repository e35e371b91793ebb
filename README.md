# linal in Dafny

A model of `linal`, a small C++ header library for exact linear algebra. It
has four parts:

- **`linal::Matrix<T>`** (linal.h). A dense n × m matrix with:
  - the arithmetic operators, transpose and the two in-place appends;
  - the determinant by Leibniz expansion over all permutations;
  - the inverse by cofactors;
  - Gaussian elimination to reduced row-echelon form;
  - rank, kernel, image, sum of column spaces and the `is_solution` test;
  - the Jordan normal form from caller-supplied eigenvalues, by the rank sequence of (A − xI)^k;
  - eigenvector bases.
- **`Permutation`** (permutation.h): composition, inverse, fast power, equality, the lexicographic successor `next_perm` and the sign.
- **`Rational`** (rational.h): fractions kept in normal form by `normalize`.
- **`Polynomial<T>`** (polynomial.h): dense coefficient vectors with `ReDegree`, evaluation, `Normalize` and the ring operators.

The model is split into nine modules:

| module | file | contents |
|---|---|---|
| `Wrappers` | wrappers.dfy | `Option` |
| `Rationals` | rational.dfy | the `Rational` datatype, the pure operators, and the class `MutableRational` for the members that change a fraction in place |
| `Permutations` | permutation.dfy | permutations as sequences with their operations and laws, and the class `Permutation` over an `array<int>` whose methods run the source's loops |
| `Polynomials` | polynomial.dfy | coefficient functions, and the class `Polynomial` with the source's loops |
| `MatrixAlgebra` | matrix_algebra.dfy | product, power, difference, transpose, append, the Leibniz determinant, minors, cofactors and the inverse, on values |
| `Elimination` | elimination.dfy | `gauss()` as a function with its passes, and proofs that the result is in reduced row-echelon form, that a second run changes nothing and that the solutions of A x = 0 are kept |
| `Subspaces` | subspaces.dfy | `rk`, `is_solution`, `ker`, `im` and `sum` on values; rank–nullity; the kernel's columns solve A x = 0 |
| `Jordan` | jordan.dfy | `append_jordan_matrix`, `jnf` and `eigenvectors` on values; the shape of the result of `jnf`; every column returned by `eigenvectors` is an eigenvector |
| `Matrices` | matrix.dfy | the class `Matrix` with fields `n`, `m`, `a`, whose methods carry the source's loops and are proved to compute the functions above |

Matrix entries and polynomial coefficients are `real`. Every matrix
algorithm of the library runs on exact fractions: `gauss()` converts its
entries to `Rational` first. So the model uses exact reals, and `Rationals`
proves that `+ - * /` and unary `-` of the fraction type agree with real
arithmetic (`AddExact` and the others) and that `==` on normal forms is
equality of values (`EqIsValueEquality`). C++'s truncating `/` and `%` on
`int` are written out (`TruncDiv`, `TruncRem`). Integers are unbounded.

Where the C++ code is undefined (an index out of range, a size_t count
wrapped from a negative difference), the model either requires the condition
the caller must meet or returns a failure value. `Jordan.Jnf` returns `None`
and `Matrices.Matrix.Jnf` returns `ok == false`. `Polynomials.MulAsWritten`
returns `None`.

Two details of the code that the model spells out:

- `operator^` on a matrix starts from a copy. For `pow == 0` it overwrites the n × n corner with the identity and keeps the other columns. For `pow >= 2` it multiplies the n × m copy by the matrix `pow - 1` times. `MatrixAlgebra.MatPower` and `Matrices.Matrix.Pow` take every shape on which these loops stay inside the rows: `pow == 1` on any matrix, `pow == 0` with m >= n, and `pow >= 2` with m <= n (`MatrixAlgebra.PowerDefined`).
- `gauss()`'s `--i` on a `size_t` row index wraps at row 0 and is undone by the loop's `++i`. The model states the net effect: on a column with no pivot, the row stays and the column advances (`Elimination.NextRow`).

## Model

| member | source | states |
|---|---|---|
| Rationals.TruncRem | rational.h:6 | C++ `%`: the remainder is smaller than the divisor in magnitude and carries the sign of the dividend |
| Rationals.TruncDivRem | rational.h:6 | the truncating remainder is the Euclidean remainder of the magnitudes, negated for a negative dividend |
| Rationals.Gcd | rational.h:3-7 | gcd: Euclid's recursion on the truncating `%`; GcdDividesBoth, GcdGreatest and GcdZero prove the result a common divisor that every common divisor divides, and 0 only for (0, 0) |
| Rationals.GcdDividesBoth | rational.h:3-7 | gcd(a, b) divides a and b |
| Rationals.GcdGreatest | rational.h:3-7 | every common divisor of a and b divides gcd(a, b) |
| Rationals.GcdZero | rational.h:3-7 | gcd(a, b) is 0 exactly when both a and b are 0, so `normalize` divides by zero only on 0/0 |
| Rationals.GcdNonnegative | rational.h:3-7 | for non-negative arguments the gcd is non-negative |
| Rationals.GcdScale | rational.h:3-7 | gcd(k a, k b) = k gcd(a, b) for k > 0 |
| Rationals.CoprimeDivides | rational.h:3-7 | if b is coprime to a and divides a d, then b divides d |
| Rationals.Normalized | rational.h:24-31 | `normalize` on the pair (a, b): both divided by their gcd, signs flipped for a negative denominator; NormalizedIsNormal proves the result normal with the value a/b |
| Rationals.NormalizedParts | rational.h:24-31 | `normalize` writes a = g x and b = g y with g = gcd(a, b), and leaves x/y, or -x/-y when y < 0 |
| Rationals.CofactorsCoprime | rational.h:24-31 | after dividing by the gcd, the two parts are coprime |
| Rationals.NormalizedIsNormal | rational.h:24-31 | `normalize` yields a positive denominator and coprime parts, and keeps the value a/b |
| Rationals.NormalGcdUnit | rational.h:24-31 | a normal fraction's parts have gcd 1 or -1 |
| Rationals.NormalizedOfNormal | rational.h:24-31 | normalizing a normal fraction changes nothing |
| Rationals.NormalFormCanonical | rational.h:24-31 | two normal fractions are identical exactly when they have the same value |
| Rationals.NormalizedInteger | rational.h:35-37 | Rational(k) is k/1 |
| Rationals.FromInt | rational.h:35-37 | Rational(k) is the normal fraction k/1 |
| Rationals.Add | rational.h:45-48 | operator+: (ad + cb)/(bd), normalized; AddExact proves the sum exact and normal |
| Rationals.Sub | rational.h:55-58 | operator-: (ad - cb)/(bd), normalized; SubExact proves the difference exact and normal |
| Rationals.Times | rational.h:65-68 | operator*: (ac)/(bd), normalized; TimesExact proves the product exact and normal |
| Rationals.Div | rational.h:75-78 | operator/: (ad)/(bc), normalized, for c != 0; DivExact proves the quotient exact and normal |
| Rationals.Neg | rational.h:89-91 | unary operator-: (-a)/b, normalized; NegExact and NegValue prove it negates the value and keeps normal form |
| Rationals.AddExact | rational.h:45-48 | operator+ yields a normal fraction whose value is the sum of the values |
| Rationals.SubExact | rational.h:55-58 | operator- yields a normal fraction whose value is the difference |
| Rationals.TimesExact | rational.h:65-68 | operator* yields a normal fraction whose value is the product |
| Rationals.DivExact | rational.h:75-78 | operator/ by a nonzero fraction yields a normal fraction whose value is the quotient |
| Rationals.NegExact | rational.h:89-91 | unary minus of a normal fraction is (-a)/b itself |
| Rationals.NegValue | rational.h:89-91 | unary minus keeps normal form and negates the value |
| Rationals.NegNeg | rational.h:89-91 | negating twice gives back the fraction |
| Rationals.Eq | rational.h:117-120 | operator==: numerators equal and denominators equal; EqIsValueEquality proves this is equality of values on normal fractions |
| Rationals.EqIsValueEquality | rational.h:117-120 | on normal fractions, operator== holds exactly when the values are equal, in both directions |
| Rationals.NonzeroQuotient | rational.h:75-78 | the quotient of two nonzero fractions is a nonzero fraction with the quotient value |
| Rationals.ValueOne | rational.h:24-37 | the only normal fraction of value 1 is Rational(1) |
| Rationals.ProductOne | rational.h:65-68 | a product of fractions whose values multiply to 1 is Rational(1) |
| Rationals.DivTimesReciprocal | rational.h:65-78 | (a/b) * (b/a) == 1 as fractions, for nonzero a and b |
| Rationals.MutableRational.Get | rational.h:15-21 | the fraction the variable holds, as numerator() and denominator() return it |
| Rationals.MutableRational.Normalize | rational.h:24-31 | in place: the stored pair becomes `Normalized` of the old pair, which is normal and has the old value |
| Rationals.MutableRational.constructor | rational.h:35-37 | Rational(num, den) stores the normal form of num/den, with that value |
| Rationals.MutableRational.Zero | rational.h:35-37 | Rational() is 0/1 |
| Rationals.MutableRational.AddAssign | rational.h:93-97 | `x += y`: x becomes x + y, normal, with the summed value; the new x is returned |
| Rationals.MutableRational.SubAssign | rational.h:99-103 | `x -= y`: x becomes x - y, with the difference value |
| Rationals.MutableRational.MulAssign | rational.h:105-109 | `x *= y`: x becomes x * y, with the product value |
| Rationals.MutableRational.DivAssign | rational.h:111-115 | `x /= y` for nonzero y: x becomes x / y, with the quotient value |
| Rationals.MutableRational.PreIncrement | rational.h:132-135 | `++x`: x grows by 1 and the new value is returned |
| Rationals.MutableRational.PostIncrement | rational.h:137-141 | `x++`: x grows by 1 and the old value is returned |
| Rationals.MutableRational.PreDecrement | rational.h:143-146 | `--x`: x shrinks by 1 and the new value is returned |
| Rationals.MutableRational.PostDecrement | rational.h:148-152 | `x--`: x shrinks by 1 and the old value is returned |
| Permutations.Identity | permutation.h:15-19 | Permutation(n) is a sequence of n values in [0, n) |
| Permutations.IsPermutation | permutation.h:21-26 | the values of p are 0 .. n - 1, each once: the class's unchecked assumption after the shift to [0, n) |
| Permutations.IdentityIsPermutation | permutation.h:15-19 | the identity is a permutation |
| Permutations.FromOneBased | permutation.h:22-26 | Permutation(vector) stores each value minus 1 |
| Permutations.FromOneBasedIsPermutation | permutation.h:21-26 | distinct values in [1, n] give a permutation of [0, n) |
| Permutations.OneBasedValid | permutation.h:21-26 | the converted vector is a permutation exactly when the input meets the stated assumption of distinct values in [1, n] |
| Permutations.Compose | permutation.h:43-48 | a * b has the size of a |
| Permutations.ComposePermutation | permutation.h:43-48 | a composition of permutations is a permutation |
| Permutations.ComposeAssociative | permutation.h:43-48 | composition is associative |
| Permutations.ComposeIdentity | permutation.h:43-48 | the identity is a unit on both sides |
| Permutations.Onto | permutation.h:50-57 | every value in [0, n) is an image, which `ans[p[i]] = i` needs to fill the inverse |
| Permutations.IndexOf | permutation.h:50-57 | the first index holding v, or -1 exactly when v does not occur |
| Permutations.Inverse | permutation.h:50-57 | `^ -1` yields a sequence of values in [0, n) |
| Permutations.InverseIsPermutation | permutation.h:50-57 | the inverse is a permutation and inverse[p[i]] == i |
| Permutations.InverseUnique | permutation.h:50-57 | any r with r[p[i]] == i for all i is the inverse |
| Permutations.InverseLeft | permutation.h:50-57 | p^-1 * p is the identity |
| Permutations.InverseRight | permutation.h:50-57 | p * p^-1 is the identity |
| Permutations.Iterate | permutation.h:58-63 | p composed with itself k times has values in [0, n) |
| Permutations.IteratePermutation | permutation.h:58-63 | every iterate of a permutation is a permutation |
| Permutations.IterateAdd | permutation.h:58-63 | p^a * p^b == p^(a+b) |
| Permutations.PowerWith | permutation.h:50-64 | the recursion of `operator^` has values in [0, n) |
| Permutations.Power | permutation.h:50-64 | `p ^ k` has values in [0, n) |
| Permutations.PowerWithNonNegative | permutation.h:58-63 | for k >= 0 the recursion of `operator^` computes the k-fold composite |
| Permutations.PowerWithNegative | permutation.h:50-63 | for k < 0 it computes the (-k)-fold composite of the inverse |
| Permutations.PowerNonNegative | permutation.h:58-63 | `p ^ k` for k >= 0 is p composed with itself k times |
| Permutations.PowerNegative | permutation.h:50-63 | `p ^ k` for k < 0 is p^-1 composed with itself -k times |
| Permutations.PowerPermutation | permutation.h:50-64 | every power of a permutation is a permutation |
| Permutations.NegOnePow | permutation.h:91-98 | (-1)^n is 1 for even n and -1 for odd n |
| Permutations.Sign | permutation.h:91-98 | sign() is 1 or -1 |
| Permutations.SignOfIncreasing | permutation.h:91-98 | an increasing sequence has no inversions and sign 1 |
| Permutations.SignIdentity | permutation.h:91-98 | the identity has sign 1 |
| Permutations.InversionsCountPairs | permutation.h:93-96 | the double loop counts exactly the inverted pairs (i, j) with i < j |
| Permutations.Inversions | permutation.h:91-98 | the number of flips the double loop of sign() makes; InversionsCountPairs proves it counts the pairs i < j with p[i] > p[j] |
| Permutations.SignCountsInvertedPairs | permutation.h:89-98 | sign() is (-1) to the number of inverted pairs |
| Permutations.LexAsymmetric | permutation.h:73-87 | the lexicographic order that `next_perm` follows is asymmetric |
| Permutations.LexTransitive | permutation.h:73-87 | and transitive |
| Permutations.LexTotal | permutation.h:73-87 | and total on distinct sequences of equal length |
| Permutations.IncreasingIsFirst | permutation.h:73-87 | the increasing arrangement is lexicographically least among its rearrangements |
| Permutations.DecreasingIsLast | permutation.h:73-87 | the decreasing arrangement is lexicographically greatest |
| Permutations.LastAscent | permutation.h:74-75 | the outer loop's stop index i: 0, or an ascent p[i-1] < p[i] |
| Permutations.LastAscentIsLast | permutation.h:74-75 | no ascent lies after it |
| Permutations.MinAbove | permutation.h:76-79 | the inner loop's mn: an index of the suffix whose value exceeds p[i-1] |
| Permutations.MinAboveIsLeast | permutation.h:76-79 | p[mn] is the least such value |
| Permutations.Swap | permutation.h:80 | std::swap keeps the length |
| Permutations.SwapFacts | permutation.h:80 | swap exchanges the two entries, keeps every other and keeps the multiset |
| Permutations.ReverseAt | permutation.h:81-82 | entry k of the reversal is entry |t| - 1 - k |
| Permutations.ReverseMultiset | permutation.h:81-82 | reversing keeps the multiset |
| Permutations.ReverseOfDecreasing | permutation.h:81-82 | reversing a decreasing run makes it increasing |
| Permutations.ReverseFrom | permutation.h:81-82 | reversing the suffix from i keeps the length |
| Permutations.ReverseFromFacts | permutation.h:81-82 | it keeps the prefix before i, reverses the rest and keeps the multiset |
| Permutations.SuffixDecreasing | permutation.h:73-87 | the suffix after the last ascent is decreasing |
| Permutations.NextPerm | permutation.h:73-87 | next_perm: None when there is no ascent, otherwise swap with the least larger suffix entry and reverse the suffix; NextPermNone, NextPermGreater and NextPermImmediate prove it is the lexicographic successor |
| Permutations.NextPermNone | permutation.h:73-87 | next_perm returns false exactly on a decreasing sequence, the last permutation |
| Permutations.NextPermShape | permutation.h:73-87 | on success, the new sequence is a rearrangement that keeps the prefix before the ascent |
| Permutations.NextPermIsPermutation | permutation.h:73-87 | next_perm maps permutations to permutations |
| Permutations.NextPermPrefix | permutation.h:76-82 | on success, the entries before the ascent stay and p[i-1] becomes the least larger suffix value |
| Permutations.NextPermGreater | permutation.h:73-87 | next_perm strictly increases the sequence lexicographically |
| Permutations.NextPermFacts | permutation.h:73-87 | the new suffix after the ascent is increasing and the multiset is kept |
| Permutations.NextPermImmediate | permutation.h:73-87 | no rearrangement lies strictly between s and next_perm(s): it is the immediate successor |
| Permutations.PermutationByMultiset | permutation.h:73-87 | a rearrangement of a permutation is a permutation |
| Permutations.DistinctMultiplicity | permutation.h:73-87 | distinct entries means every multiplicity is at most 1 |
| Permutations.Weight | permutation.h:73-87 | the place weight b^e of the lexicographic rank is at least 1 |
| Permutations.RankBound | permutation.h:73-87 | the rank of a sequence with entries below b lies in [0, b^|s|) |
| Permutations.RankLess | permutation.h:73-87 | lexicographic order implies a smaller rank, so repeated next_perm terminates |
| Permutations.RankOrder | permutation.h:73-87 | a smaller rank implies lexicographic order on equal lengths |
| Permutations.Enumeration | permutation.h:73-87 | the sequence visited by repeated next_perm starts at s |
| Permutations.NextPermStep | permutation.h:73-87 | one next_perm step stays a permutation, grows lexicographically and lowers the termination measure |
| Permutations.EnumerationUnfold | permutation.h:73-87 | the enumeration is [s] when next_perm fails and s followed by the enumeration from next_perm(s) otherwise |
| Permutations.EnumerationMember | permutation.h:73-87 | every enumerated entry is a permutation of the same size |
| Permutations.EnumerationSteps | permutation.h:73-87 | consecutive entries are related by next_perm, and next_perm fails after the last one |
| Permutations.EnumerationRankIncreasing | permutation.h:73-87 | ranks strictly increase along the enumeration |
| Permutations.EnumerationIncreasing | permutation.h:73-87 | the entries strictly increase lexicographically |
| Permutations.EnumerationDistinct | permutation.h:73-87 | no permutation is visited twice |
| Permutations.EnumerationLast | permutation.h:73-87 | the last entry is decreasing |
| Permutations.EnumerationComplete | permutation.h:73-87 | every permutation lexicographically at or after s is visited |
| Permutations.EnumerationFromIdentity | permutation.h:73-87 | starting at the identity, every permutation of size n is visited, as det() needs |
| Permutations.IdentityIncreasing | permutation.h:15-19 | the identity is increasing, the lexicographic minimum |
| Permutations.LastAscentAt | permutation.h:74-75 | the index found by the loop is the last ascent |
| Permutations.NextPermAt | permutation.h:73-87 | next_perm is the swap with the least larger value, then the reversed suffix |
| Permutations.NextPermNoAscent | permutation.h:73-87 | with no ascent, next_perm fails |
| Permutations.Permutation.OfSize | permutation.h:15-19 | Permutation(n) fills a fresh array with the identity |
| Permutations.Permutation.OfOneBased | permutation.h:22-26 | Permutation(vector) stores each value minus 1; the object is valid exactly when the input meets the stated assumption |
| Permutations.Permutation.Times | permutation.h:43-48 | the loop writes p[other[i]] at i: the result is Compose(p, other) |
| Permutations.Permutation.Invert | permutation.h:50-57 | the loop `ans[p[i]] = i` yields the inverse |
| Permutations.Permutation.Pow | permutation.h:50-64 | the recursive `operator^` yields `Power(p, k)`, for negative k too |
| Permutations.Permutation.Equals | permutation.h:66-71 | operator== holds exactly when the first n entries agree, and for equal sizes exactly when the permutations are equal |
| Permutations.Permutation.NextInPlace | permutation.h:73-87 | in place: returns true and the array holds NextPerm(old), or returns false and the array is unchanged exactly when there is none |
| Permutations.Permutation.FindAscent | permutation.h:74-75 | the descending scan stops at the last ascent |
| Permutations.Permutation.SmallestAbove | permutation.h:76-79 | the inner scan finds MinAbove |
| Permutations.Permutation.AdvanceAt | permutation.h:76-83 | swap and suffix reversal at the ascent give ReverseFrom(Swap(...)) |
| Permutations.Permutation.ReverseSuffix | permutation.h:81-82 | the two-index swap loop reverses the suffix from i |
| Permutations.Permutation.CountSign | permutation.h:89-98 | the double loop computes Sign(p) |
| Polynomials.Trim | polynomial.h:74-77 | `ReDegree` leaves a prefix with no trailing zero, and drops only zeros |
| Polynomials.Coef | polynomial.h:42-46 | the const operator[] returns the stored coefficient inside the vector and 0 beyond it, in both directions |
| Polynomials.Degree | polynomial.h:57-61 | Degree() is size - 1, hence -1 for the zero polynomial |
| Polynomials.TrimOfTrimmed | polynomial.h:74-77 | `ReDegree` on a trimmed vector changes nothing |
| Polynomials.TrimIdempotent | polynomial.h:74-77 | `ReDegree` is idempotent |
| Polynomials.TrimCoef | polynomial.h:74-77 | `ReDegree` keeps every coefficient as seen through operator[] |
| Polynomials.TrimmedExtensional | polynomial.h:91-94 | two trimmed vectors with the same coefficients are equal |
| Polynomials.TrimmedEqualIff | polynomial.h:91-94 | trimmed vectors are equal exactly when all coefficients agree |
| Polynomials.Add | polynomial.h:121-135 | operator+ is trimmed and adds coefficient by coefficient |
| Polynomials.Sub | polynomial.h:159-173 | operator- is trimmed and subtracts coefficient by coefficient |
| Polynomials.AddCommutative | polynomial.h:121-135 | a + b == b + a |
| Polynomials.AddAssociative | polynomial.h:121-135 | (a + b) + c == a + (b + c) |
| Polynomials.AddZero | polynomial.h:121-135 | adding the zero polynomial trims |
| Polynomials.SubAfterAdd | polynomial.h:159-173 | (a + b) - b == a, trimmed |
| Polynomials.SubSelf | polynomial.h:159-173 | a - a is the zero polynomial |
| Polynomials.AddDegree | polynomial.h:123 | the sum's degree is at most max(degrees) |
| Polynomials.ConvSum | polynomial.h:201-203 | the first n terms a[i] b[k - i] added into ans[k] by the double loop |
| Polynomials.Conv | polynomial.h:201-203 | coefficient k of the product, all terms; Mul, MulCommutative and MulAssociative state its laws |
| Polynomials.ConvSumVanishes | polynomial.h:201-203 | terms of the product sum outside the overlap are zero |
| Polynomials.Mul | polynomial.h:198-207 | operator* is trimmed, fits the buffer and has coefficient k equal to the sum of a[i] b[j] over i + j == k |
| Polynomials.ConvOutside | polynomial.h:200-203 | product coefficients outside the buffer are zero |
| Polynomials.ProductBufferAsWritten | polynomial.h:200 | the buffer size `a.Degree() + b.Degree() + 1` is negative exactly for zero times zero, and otherwise the corrected length |
| Polynomials.MulAsWritten | polynomial.h:198-207 | operator* as written fails exactly for zero times zero, and otherwise agrees with Mul |
| Polynomials.ZeroTimesZero | polynomial.h:200 | zero times zero asks for a buffer of size -1, which fails as written; corrected, the product is the zero polynomial |
| Polynomials.ConvSumZeroRight | polynomial.h:201-203 | against a zero polynomial, the product sum is zero |
| Polynomials.MulZero | polynomial.h:198-207 | anything times zero is zero, on both sides |
| Polynomials.LeadingConv | polynomial.h:201-203 | the top coefficient of the product is the product of the leading coefficients |
| Polynomials.MulDegree | polynomial.h:198-207 | degree(a * b) == degree(a) + degree(b) for nonzero a and b |
| Polynomials.ConvSumFront | polynomial.h:201-203 | the product sum splits off a[0] times b |
| Polynomials.ConvFront | polynomial.h:201-203 | product coefficient k is a[0] b[k] plus the product of the tail of a, shifted |
| Polynomials.ConvSumAdditive | polynomial.h:201-203 | the product sum is additive in the left factor |
| Polynomials.ConvSumExtend | polynomial.h:201-203 | summing past the end of a adds nothing |
| Polynomials.ConvAdditive | polynomial.h:201-203 | product coefficients are additive in the left factor |
| Polynomials.MulDistributes | polynomial.h:121-207 | (a + b) * c == a * c + b * c |
| Polynomials.ConvSumBack | polynomial.h:201-203 | splitting the constant term off the right factor of the first n terms |
| Polynomials.ConvBack | polynomial.h:201-203 | coefficient k of b * a is b[k] a[0] plus coefficient k - 1 of b * a[1..] |
| Polynomials.ConvCommutative | polynomial.h:201-203 | coefficient k of a * b equals coefficient k of b * a |
| Polynomials.MulCommutative | polynomial.h:198-207 | a * b == b * a |
| Polynomials.ConvSumScale | polynomial.h:201-203 | the first n terms of a scaled left factor are scaled |
| Polynomials.ConvRaise | polynomial.h:201-203 | raising the left factor by one power shifts each product coefficient up by one |
| Polynomials.ProductFrontAt | polynomial.h:201-203 | coefficient i of a * b is a[0] b[i] plus coefficient i - 1 of a[1..] * b |
| Polynomials.ConvProductFront | polynomial.h:201-203 | coefficient k of (a * b) * c splits along a * b = a[0] b + x (a[1..] * b) |
| Polynomials.ConvAssociative | polynomial.h:201-203 | coefficient k of (a * b) * c equals coefficient k of a * (b * c) |
| Polynomials.ConvAssociativeStep | polynomial.h:201-203 | the induction step of ConvAssociative, peeling a[0] off both sides |
| Polynomials.ConvScale | polynomial.h:201-203 | a product coefficient with a scaled left factor is scaled |
| Polynomials.MulAssociative | polynomial.h:198-207 | (a * b) * c == a * (b * c) |
| Polynomials.MulDistributesLeft | polynomial.h:121-207 | c * (a + b) == c * a + c * b |
| Polynomials.ConvOne | polynomial.h:201-203 | coefficient k of the product of 1 and a is coefficient k of a |
| Polynomials.MulOne | polynomial.h:198-207 | the constant polynomial 1 is a two-sided unit: 1 * a and a * 1 are a, trimmed |
| Polynomials.EvalSum | polynomial.h:48-55 | what operator() has accumulated after n steps: the sum of a[i] x^i over i < n |
| Polynomials.Eval | polynomial.h:48-55 | operator(): the sum of a[i] x^i; EvalAdd, EvalSub, EvalTrim and EvalAtZero state its laws |
| Polynomials.EvalSumExtend | polynomial.h:48-55 | summing past the last coefficient adds nothing |
| Polynomials.EvalSumCongruent | polynomial.h:48-55 | evaluation depends only on the coefficients |
| Polynomials.EvalTrim | polynomial.h:48-77 | `ReDegree` does not change values |
| Polynomials.EvalAtZero | polynomial.h:48-55 | evaluating at 0 gives the constant term |
| Polynomials.EvalSumAtZero | polynomial.h:48-55 | the partial sums at 0 are the constant term |
| Polynomials.PowZero | polynomial.h:48-55 | 0^n == 0 for n > 0 |
| Polynomials.EvalSumAdditive | polynomial.h:48-55 | partial evaluation sums are additive |
| Polynomials.EvalAdd | polynomial.h:121-135 | the value of a + b is the sum of the values |
| Polynomials.EvalSub | polynomial.h:159-173 | the value of a - b is the difference of the values |
| Polynomials.Monic | polynomial.h:80-86 | what `Normalize` leaves: the size is kept; MonicLeading, MonicIdempotent and MonicZero state the rest |
| Polynomials.MonicLeading | polynomial.h:80-86 | `Normalize` keeps the size, makes the leading coefficient 1 and divides every coefficient by the old leading one |
| Polynomials.MonicIdempotent | polynomial.h:80-86 | normalizing twice is normalizing once |
| Polynomials.MonicZero | polynomial.h:80-86 | the zero polynomial is left alone |
| Polynomials.Polynomial.constructor | polynomial.h:11-13 | Polynomial(vector) stores the vector trimmed |
| Polynomials.Polynomial.Constant | polynomial.h:15-17 | Polynomial(c) is [c], or the zero polynomial for c == 0 |
| Polynomials.Polynomial.FromRange | polynomial.h:19-24 | the iterator constructor pushes the range back, then trims |
| Polynomials.Polynomial.ReDegree | polynomial.h:74-77 | popping zeros off the back in place leaves Trim of the old vector |
| Polynomials.Polynomial.Set | polynomial.h:36-40 | the non-const operator[] grows the vector with zeros to index i and writes there; every other coefficient is kept |
| Polynomials.Polynomial.Evaluate | polynomial.h:48-55 | the loop accumulating coefficient times running power computes Eval(a, x) |
| Polynomials.Polynomial.Normalize | polynomial.h:80-86 | in place, the vector becomes Monic of the old one and stays trimmed |
| Polynomials.Polynomial.Equals | polynomial.h:91-94 | operator== on valid polynomials holds exactly when all coefficients agree |
| Polynomials.Polynomial.AddAssign | polynomial.h:147-151 | `a += b` makes a the trimmed sum |
| Polynomials.Polynomial.SubAssign | polynomial.h:186-190 | `a -= b` makes a the trimmed difference |
| Polynomials.Polynomial.MulAssign | polynomial.h:219-223 | `a *= b` makes a the trimmed product |
| Polynomials.SumLength | polynomial.h:123 | the buffer of + and - has max(size) entries |
| Polynomials.Plus | polynomial.h:121-135 | the three-way loop yields a fresh polynomial holding Add(p, q) |
| Polynomials.Minus | polynomial.h:159-173 | the three-way loop yields a fresh polynomial holding Sub(p, q) |
| Polynomials.Times | polynomial.h:198-207 | the double loop `ans[i + j] += a[i] * b[j]` yields Mul(p, q) |
| MatrixAlgebra.Zeros | linal.h:16-20 | the r x c zero matrix is r x c |
| MatrixAlgebra.IdentityMatrix | linal.h:60-63 | the identity is n x n |
| MatrixAlgebra.DotUpTo | linal.h:40-47 | ans[i][j] after l rounds of the k loop: the sum of a[i][k] b[k][j] over k < l |
| MatrixAlgebra.Product | linal.h:40-47 | operator* of (|a| x m) by (m x p) is |a| x p |
| MatrixAlgebra.ProductIdentityLeft | linal.h:40-47 | I * A == A |
| MatrixAlgebra.ProductIdentityRight | linal.h:40-47 | A * I == A |
| MatrixAlgebra.DotTranspose | linal.h:40-47 | the inner loop of the product equals the one of the transposed product |
| MatrixAlgebra.ProductTranspose | linal.h:40-98 | (A B)^T == B^T A^T |
| MatrixAlgebra.IdentityCorner | linal.h:60-63 | the copy after the pow == 0 loops is n x m |
| MatrixAlgebra.MatPower | linal.h:57-69 | operator^(pow) on every shape it is defined on (pow == 1; pow == 0 with m >= n; pow >= 2 with m <= n) is n x m |
| MatrixAlgebra.PowerZero | linal.h:58-63 | A^0 agrees with I on the n x n corner and with A on the columns beyond it; for a square A it is I |
| MatrixAlgebra.PowerStep | linal.h:64-67 | for m <= n, A^(k+1) == A^k * A, the loop's step, A^1 included |
| MatrixAlgebra.PowerOfIdentity | linal.h:57-69 | I^k == I |
| MatrixAlgebra.Difference | linal.h:71-77 | operator- on n x n matrices is n x n |
| MatrixAlgebra.DifferenceLaws | linal.h:71-77 | A - A == 0 and A - 0 == A |
| MatrixAlgebra.Transpose | linal.h:92-98 | transpose of |a| x c is c x |a| |
| MatrixAlgebra.TransposeInvolutive | linal.h:92-98 | transposing twice gives back the matrix |
| MatrixAlgebra.AppendRight | linal.h:85-90 | append_right makes each row as long as the two rows together |
| MatrixAlgebra.AppendRightByTranspose | linal.h:79-90 | appending to the right is appending the transposes downwards, transposed back |
| MatrixAlgebra.Perms | linal.h:104-111 | the permutations det() visits start at the identity and all have size n |
| MatrixAlgebra.EnumerationOfSize | linal.h:104-111 | every permutation of the enumeration from the identity has size n |
| MatrixAlgebra.PermsMember | linal.h:104-111 | each visited permutation is a permutation of size n |
| MatrixAlgebra.DiagProduct | linal.h:106-109 | `sum` after k rounds of the inner loop: a[0][p[0]] * ... * a[k - 1][p[k - 1]] |
| MatrixAlgebra.Term | linal.h:106-110 | the summand `p.sign() * sum` of one permutation |
| MatrixAlgebra.LeibnizSum | linal.h:102-111 | `ans` after the do/while has visited the permutations ps |
| MatrixAlgebra.Det | linal.h:100-114 | det(): the Leibniz sum over the permutations next_perm visits from the identity; DetIdentity and DetZeroRow state its values |
| MatrixAlgebra.LeibnizPrefix | linal.h:105-111 | one round of the do/while adds the next term to the sum |
| MatrixAlgebra.TermOf | linal.h:106-110 | `p.sign() * sum` is the Leibniz term of p |
| MatrixAlgebra.PermsSteps | linal.h:111 | next_perm moves from the k-th to the (k+1)-th visited permutation and fails after the last |
| MatrixAlgebra.PermsAdvance | linal.h:111 | the loop condition is true exactly when another permutation follows |
| MatrixAlgebra.DiagProductZero | linal.h:106-109 | a zero factor makes the product zero |
| MatrixAlgebra.DiagProductIdentity | linal.h:106-109 | along the identity permutation, the identity matrix yields product 1 |
| MatrixAlgebra.LeibnizZero | linal.h:100-113 | a sum of zero products is zero |
| MatrixAlgebra.DetZeroRow | linal.h:100-113 | a matrix with a zero row has determinant 0 |
| MatrixAlgebra.OffIdentity | linal.h:106-109 | along any other permutation the identity matrix yields product 0 |
| MatrixAlgebra.DetIdentity | linal.h:100-113 | det(I) == 1 |
| MatrixAlgebra.LeibnizSplit | linal.h:105-111 | the sum over the permutations is the first term plus the sum over the rest |
| MatrixAlgebra.DropColumn | linal.h:121-133 | removing column j keeps the row count |
| MatrixAlgebra.DropColumnAt | linal.h:121-133 | row k without column j is the row's entries before and after j |
| MatrixAlgebra.Minor | linal.h:121-133 | b, without row i and column j, is (n-1) x (n-1) |
| MatrixAlgebra.MinorRect | linal.h:121-133 | dropping a column leaves n - 1 columns |
| MatrixAlgebra.MinorAt | linal.h:122-133 | b[k][l] is a[k or k+1][l or l+1] according to the four quadrant loops |
| MatrixAlgebra.Cofactor | linal.h:121-136 | the determinant of the (i, j) minor, negated for odd i + j; CofactorOfIdentity states its values on I |
| MatrixAlgebra.CofactorOf | linal.h:134-136 | b.det(), negated for odd i + j, is the cofactor |
| MatrixAlgebra.Cofactors | linal.h:134-136 | the cofactor matrix is n x n |
| MatrixAlgebra.AdjugateRow | linal.h:137 | a row of the inverse has k entries |
| MatrixAlgebra.AdjugateRows | linal.h:134-137 | the first k rows of the inverse form a k x n matrix |
| MatrixAlgebra.AdjugateRowAt | linal.h:137 | entry i of row j is cofactor (i, j) over det |
| MatrixAlgebra.AdjugateRowsAt | linal.h:134-137 | row j of the inverse is the adjugate row j |
| MatrixAlgebra.InverseMatrix | linal.h:115-141 | inverse() is n x n |
| MatrixAlgebra.InverseAt | linal.h:134-137 | ans[j][i] is cofactor(i, j) / det, the transposed adjugate over the determinant |
| MatrixAlgebra.MinorOfIdentityDiagonal | linal.h:121-133 | a diagonal minor of I is the smaller identity |
| MatrixAlgebra.MinorOfIdentityZeroRow | linal.h:121-133 | an off-diagonal minor of I has a zero row |
| MatrixAlgebra.DetMinorOfIdentity | linal.h:121-134 | the minors of I have determinant 1 on the diagonal and 0 off it |
| MatrixAlgebra.CofactorOfIdentity | linal.h:134-136 | the cofactors of I are the entries of I |
| MatrixAlgebra.InverseOfIdentity | linal.h:115-141 | inverse(I) == I |
| MatrixAlgebra.InverseOfIdentityAt | linal.h:134-137 | entry by entry, inverse(I) agrees with I |
| Elimination.LeadFrom | linal.h:206-210 | the first nonzero entry at or after k, or the row length if none |
| Elimination.Lead | linal.h:206-210 | the row's leading (first nonzero) column, or its length for a zero row |
| Elimination.LeadFromBefore | linal.h:206-210 | before the lead every entry is zero |
| Elimination.LeadBefore | linal.h:206-210 | entries before Lead are zero |
| Elimination.LeadFromIs | linal.h:206-210 | an index preceded by zeros and holding a nonzero entry is the lead |
| Elimination.LeadIs | linal.h:206-210 | the lead is characterised by zeros before and a nonzero at it |
| Elimination.ZeroRowLead | linal.h:249-253 | a row is zero exactly when its lead is its length |
| Elimination.LeadAgree | linal.h:206-210 | rows that agree up to past the lead have the same lead |
| Elimination.ZeroRowsLast | linal.h:159-188 | in gauss()'s form, zero rows come after all nonzero rows |
| Elimination.LeadsDistinct | linal.h:159-188 | in gauss()'s form, two rows never share a pivot column |
| Elimination.EchelonStart | linal.h:165 | before the first pass the loop invariant holds |
| Elimination.EchelonDone | linal.h:165 | when rows or columns run out, the invariant gives reduced row-echelon form |
| Elimination.FirstNonzeroRow | linal.h:166-170 | the search returns the first row at or after j with a nonzero in column c, or the row count |
| Elimination.FirstNonzeroRowBefore | linal.h:166-170 | rows skipped by the search have 0 in column c |
| Elimination.FirstNonzeroRowIs | linal.h:166-170 | a row preceded by zeros in column c and nonzero there is the one found |
| Elimination.SwapRows | linal.h:168 | swap(ans[i], ans[j]) exchanges two rows and keeps the others |
| Elimination.PivotUp | linal.h:166-171 | the search and swap keep the shape |
| Elimination.RowDivFrom | linal.h:177-178 | the scaled row has the row's length |
| Elimination.RowDivFromAt | linal.h:177-178 | entries before the pivot column stay, entries from it on are divided by k |
| Elimination.RowDivFromPrefix | linal.h:177-178 | entries before the pivot column are unchanged |
| Elimination.RowMinus | linal.h:181-183 | the updated row has length l |
| Elimination.RowMinusAt | linal.h:183 | each entry becomes u[t] - v[t] * k with k read before the loop |
| Elimination.ScaleRow | linal.h:176-178 | the pivot becomes 1, entries before it stay, other rows are unchanged |
| Elimination.EliminateRows | linal.h:179-185 | the elimination keeps the pivot row and the shape |
| Elimination.EliminateRowsAt | linal.h:179-185 | every other row r becomes a[r] - a[i] * a[r][c] |
| Elimination.GaussFrom | linal.h:165-186 | the remaining passes keep the shape |
| Elimination.Pass | linal.h:166-185 | one pass of the main loop keeps the shape |
| Elimination.NextRow | linal.h:172-175 | the row index either stays, for a column without pivot, or advances |
| Elimination.Gauss | linal.h:159-188 | gauss() has the matrix's shape |
| Elimination.PivotUpStep | linal.h:166-172 | the search and swap keep the loop invariant, and a zero pivot means column c is zero from row i down |
| Elimination.SkipColumnStep | linal.h:172-175 | skipping a column without pivot keeps the invariant |
| Elimination.ScaleStep | linal.h:176-178 | scaling keeps the invariant |
| Elimination.EliminateStep | linal.h:179-185 | eliminating around a unit pivot advances the invariant by one row and one column |
| Elimination.PassStep | linal.h:165-186 | each pass advances the invariant |
| Elimination.GaussFromRref | linal.h:165-186 | the remaining passes end in reduced row-echelon form |
| Elimination.IsRref | linal.h:159-188 | the property gauss() establishes: leading 1s alone in their columns, pivot columns strictly increasing |
| Elimination.GaussRref | linal.h:159-188 | gauss() returns a matrix in reduced row-echelon form: leading 1s, zeros above and below them, pivot columns increasing, zero rows last |
| Elimination.SwapSame | linal.h:168 | swapping a row with itself changes nothing |
| Elimination.ScaleByOne | linal.h:176-178 | dividing by a pivot of 1 changes nothing |
| Elimination.EliminateCleared | linal.h:179-185 | eliminating a column that is already clear changes nothing |
| Elimination.FixedPivot | linal.h:165-186 | on a reduced matrix, a pass at a pivot changes nothing and advances the row |
| Elimination.FixedSkip | linal.h:165-186 | on a reduced matrix, a pass at a non-pivot column changes nothing |
| Elimination.GaussFromStep | linal.h:165-186 | the remaining passes are one pass followed by the rest |
| Elimination.GaussFromUnchanged | linal.h:165-186 | a pass that changes nothing can be skipped |
| Elimination.GaussFromFixed | linal.h:165-186 | when every pass changes nothing, the result is the input |
| Elimination.FixedPass | linal.h:165-186 | on a reduced matrix, each pass is a fixed point |
| Elimination.PassesFixedStep | linal.h:165-186 | a fixed pass followed by fixed passes gives all fixed passes |
| Elimination.RrefPassesFixed | linal.h:165-186 | on a reduced matrix, every remaining pass is a fixed point |
| Elimination.GaussOfRref | linal.h:159-188 | gauss() leaves a matrix in reduced row-echelon form unchanged |
| Elimination.GaussIdempotent | linal.h:159-188 | gauss(gauss(A)) == gauss(A) |
| Elimination.RowDotCombination | linal.h:183 | row u - k v dotted with x is u.x - k (v.x) |
| Elimination.RowDotScale | linal.h:178 | a row scaled by k dotted with x is k times the dot product |
| Elimination.SwapKeepsSolutions | linal.h:168 | swapping rows keeps the solutions of A x = 0 |
| Elimination.ScaleKeepsSolutions | linal.h:176-178 | scaling the pivot row by a nonzero keeps the solutions |
| Elimination.EliminateRowDot | linal.h:179-185 | after elimination, row r dotted with x is a[r].x - a[r][c] (a[i].x) |
| Elimination.EliminateKeepsSolutions | linal.h:179-185 | elimination keeps the solutions of A x = 0, in both directions |
| Elimination.ZeroFromAll | linal.h:165-186 | the recursive zero-below predicate means all entries of the lower-left block are zero |
| Elimination.PivotUpZero | linal.h:166-172 | the search and swap keep the lower-left block zero |
| Elimination.PassZeroBelow | linal.h:165-186 | each pass keeps the lower-left block zero |
| Elimination.PassKeepsSolutions | linal.h:165-186 | a pass keeps the solutions of A x = 0 |
| Elimination.GaussFromKeepsSolutions | linal.h:165-186 | the remaining passes keep the solutions |
| Elimination.GaussKeepsSolutions | linal.h:159-188 | gauss(A) x = 0 exactly when A x = 0 |
| Subspaces.NonzeroCount | linal.h:248-254 | the number of nonzero rows among the first k is at most k |
| Subspaces.LeadAtLeastIndex | linal.h:245-256 | in gauss()'s form, row r's pivot column is at least r and inside the matrix |
| Subspaces.NonzeroCountBound | linal.h:245-256 | in gauss()'s form, there are at most m nonzero rows |
| Subspaces.Rank | linal.h:245-256 | rk() counts the nonzero rows of gauss(), so at most the row count |
| Subspaces.RankBounds | linal.h:245-256 | rk() is at most the row count and the column count |
| Subspaces.RankOfGauss | linal.h:245-256 | rk(gauss(A)) == rk(A) |
| Subspaces.NonzeroCountAll | linal.h:248-254 | if all counted rows are nonzero, the count is k |
| Subspaces.NonzeroCountNone | linal.h:248-254 | if all counted rows are zero, the count is 0 |
| Subspaces.IdentityLead | linal.h:245-256 | row r of I leads at column r |
| Subspaces.IdentityRref | linal.h:159-188 | I is in reduced row-echelon form |
| Subspaces.RankIdentity | linal.h:245-256 | rk(I) == n |
| Subspaces.RankZero | linal.h:245-256 | rk(0) == 0 |
| Subspaces.IsSolution | linal.h:190-199 | is_solution(x): every entry of A * x is zero |
| Subspaces.IsSolutionZeros | linal.h:190-199 | is_solution(x) holds exactly when A * x is the zero matrix |
| Subspaces.Column | linal.h:190-199 | a vector as a one-column matrix |
| Subspaces.Col | linal.h:224 | column q of a matrix holds b[t][q] |
| Subspaces.DotColumn | linal.h:44-45 | entry (r, q) of a product is row r dotted with column q |
| Subspaces.IsSolutionColumn | linal.h:190-199 | for one column, is_solution is A x = 0 |
| Subspaces.FirstOneFrom | linal.h:206-210 | the scan finds the first 1 at or after j, or the row length |
| Subspaces.FirstOne | linal.h:206-210 | the scan of ker() finds the first entry equal to 1, or the row length |
| Subspaces.FirstOneFromIs | linal.h:206-210 | an index holding 1 after no 1s is the one found |
| Subspaces.FirstOneOfRref | linal.h:206-210 | in gauss()'s form, the first 1 of a row is its pivot |
| Subspaces.MainUpTo | linal.h:204-212 | after k rows, main has m entries, each -1 or a row index below k |
| Subspaces.Main | linal.h:204-212 | main maps columns to -1 or a row of the matrix |
| Subspaces.MainUpToLeads | linal.h:204-212 | main[j] is -1 exactly when no scanned row leads at j, and otherwise names a row that does |
| Subspaces.MainOfRref | linal.h:204-212 | in gauss()'s form, main is exactly the pivot map |
| Subspaces.KerVector | linal.h:217-221 | the vector built for a free column has m entries |
| Subspaces.KerVectorDot | linal.h:217-221 | row r dotted with the free column's vector cancels its entry at j against the pivot's coefficient |
| Subspaces.KerVectorSolves | linal.h:214-223 | each vector built for a free column solves gauss(A) x = 0 |
| Subspaces.FreeCount | linal.h:214-216 | the number of free columns among the first k is at most k |
| Subspaces.KerRows | linal.h:213-223 | the rows appended for free columns form a FreeCount x m matrix |
| Subspaces.KerRowsSolve | linal.h:213-223 | every appended row solves gauss(A) x = 0 |
| Subspaces.KerOf | linal.h:213-224 | the transposed list is m x FreeCount |
| Subspaces.Nullity | linal.h:213-223 | the number of columns of ker(): one per free column of gauss(), so at most m |
| Subspaces.Ker | linal.h:201-225 | ker() is m x Nullity(A) |
| Subspaces.TransposeColumn | linal.h:224 | column q after the transpose is row q before it |
| Subspaces.KerColumnSolves | linal.h:201-225 | every column of ker() solves A x = 0 |
| Subspaces.KerRowsNonzero | linal.h:217-222 | every vector cur has a 1 at its free column, so none is zero |
| Subspaces.KerColumnNonzero | linal.h:201-225 | no column of ker() is the zero vector |
| Subspaces.KerSolves | linal.h:201-225 | A * ker(A) is the zero matrix |
| Subspaces.KerIsSolution | linal.h:190-225 | is_solution(ker()) holds |
| Subspaces.MainCount | linal.h:204-216 | the main and free columns among the first k add up to k |
| Subspaces.LeadsBelowStep | linal.h:204-212 | counting pivots below j + 1 adds the pivots at j |
| Subspaces.LeadsAtNone | linal.h:204-212 | no row leading at j means no pivot at j |
| Subspaces.LeadsAtOne | linal.h:204-212 | in gauss()'s form, a pivot column holds exactly one pivot |
| Subspaces.MainCountLeads | linal.h:204-212 | the main columns below j are the pivots below j |
| Subspaces.MainLeadsAt | linal.h:204-212 | column j has a pivot exactly when main[j] != -1 |
| Subspaces.LeadsBelowZero | linal.h:204-212 | no pivots lie below column 0 |
| Subspaces.LeadsBelowNonzero | linal.h:245-256 | the pivots are the nonzero rows |
| Subspaces.RankNullity | linal.h:201-256 | rk(A) plus the number of columns of ker(A) is m |
| Subspaces.NonzeroRows | linal.h:230-241 | the kept lines form a NonzeroCount x m matrix |
| Subspaces.NonzeroRowsPrefix | linal.h:230-241 | in gauss()'s form, the kept lines are the leading rows |
| Subspaces.RrefPrefix | linal.h:230-241 | the leading rows of a reduced matrix are reduced |
| Subspaces.Image | linal.h:227-243 | im() has |a| rows and rk(A^T) columns |
| Subspaces.ImageColumns | linal.h:227-243 | im()'s columns are the nonzero rows of gauss(A^T), reduced and nonzero |
| Subspaces.NonzeroCountPrefix | linal.h:248-254 | trailing zero rows do not change the count |
| Subspaces.TransposeIdentity | linal.h:92-98 | I^T == I |
| Subspaces.ImageIdentity | linal.h:227-243 | im(I) == I |
| Subspaces.Sum | linal.h:301-306 | sum(a, b) has |a| rows and rk((a b)^T) columns |
| Subspaces.SumIsImage | linal.h:301-306 | im() of the matrix with the columns of both is sum(a, b) |
| Subspaces.SumWithNothing | linal.h:301-306 | sum(a, b) with b of no columns is im(a) |
| Jordan.Shift | linal.h:273-275 | cur after `cur[i][i] -= x` is n x n |
| Jordan.ShiftDotUpTo | linal.h:274-275 | row r of A - xI dotted with v is a[r].v - x v[r] |
| Jordan.EigenEquation | linal.h:292-295 | (A - xI) v = 0 exactly when A v = x v |
| Jordan.JordanBlock | linal.h:258-265 | append_jordan_matrix keeps the matrix n x n |
| Jordan.JordanBlockAt | linal.h:258-265 | it writes x on the block's diagonal and 1 just above it inside the block, and changes no other entry |
| Jordan.PowerRank | linal.h:276-277 | `(cur ^ i).rk()` for cur = A - xI, at most n |
| Jordan.Ranks | linal.h:272-277 | ranks has n + 2 entries |
| Jordan.PlaceBlocks | linal.h:280-283 | placing count blocks keeps the matrix n x n |
| Jordan.BlockCount | linal.h:279 | the number of blocks of size i: ranks[i - 1] - 2 ranks[i] + ranks[i + 1] |
| Jordan.BlocksFrom | linal.h:278-284 | the loop over block sizes keeps the matrix n x n |
| Jordan.EigenFrom | linal.h:271-285 | the loop over eigenvalues keeps the matrix n x n |
| Jordan.Jnf | linal.h:267-287 | jnf() is n x n when defined |
| Jordan.JordanShapeStart | linal.h:269-270 | the zero matrix with last_free = 0 has Jordan shape |
| Jordan.PlaceOneShape | linal.h:281-282 | placing a block of size sz >= 1 for an eigenvalue at last_free keeps Jordan shape |
| Jordan.PlaceBlocksShape | linal.h:280-283 | placing count blocks keeps Jordan shape |
| Jordan.BlocksFromShape | linal.h:278-284 | the loop over block sizes keeps Jordan shape |
| Jordan.EigenFromShape | linal.h:271-285 | the loop over eigenvalues keeps Jordan shape |
| Jordan.JnfShape | linal.h:267-287 | jnf() is bidiagonal: supplied eigenvalues on the diagonal, 0 or 1 just above it, 1 only inside a block of equal diagonal entries, zeros elsewhere |
| Jordan.JnfNoEigenvalues | linal.h:267-287 | with no eigenvalues, jnf() is the zero matrix |
| Jordan.AppendAll | linal.h:290-297 | the concatenated kernels have n rows |
| Jordan.AppendAllRect | linal.h:290-297 | the concatenation of kernels with w_k columns is n x sum(w_k) |
| Jordan.AppendAllColumn | linal.h:290-297 | every column of the concatenation is a column of one of the kernels |
| Jordan.AppendRightColumn | linal.h:85-90 | the columns of the appended matrix are those of the left part, then those of the right part |
| Jordan.Kernels | linal.h:291-295 | one kernel per eigenvalue |
| Jordan.Nullities | linal.h:291-295 | one column count per eigenvalue |
| Jordan.KernelsRect | linal.h:291-295 | each kernel is n x its nullity |
| Jordan.Eigenvectors | linal.h:289-298 | eigenvectors() is n x the total nullity |
| Jordan.AppendKernel | linal.h:295 | appending the next kernel extends the concatenation and the column count by one eigenvalue |
| Jordan.AppendAllSnoc | linal.h:295 | concatenating one more matrix appends it on the right |
| Jordan.TotalSnoc | linal.h:295 | the column count grows by the next nullity |
| Jordan.AppendedAll | linal.h:289-298 | after the loop, the concatenation is eigenvectors() |
| Jordan.EigenColumn | linal.h:289-298 | column q of eigenvectors() has one entry per row of A |
| Jordan.EigenvectorIndex | linal.h:289-298 | each column of eigenvectors() is nonzero and lies in the kernel of A - xI for some supplied x |
| Jordan.EigenvectorsAreEigen | linal.h:289-298 | each column v of eigenvectors() is nonzero and satisfies A v = x v for some supplied eigenvalue x |
| Jordan.EigenOf | linal.h:292-295 | a kernel vector of A - xI satisfies A v = x v |
| Matrices.Matrix.constructor | linal.h:16-20 | Matrix(n, m) is n x m of zeros, square for m = -1 |
| Matrices.Matrix.FromRows | linal.h:22 | Matrix(vector) takes the rows and reads m from the first row; valid exactly when all rows have that length |
| Matrices.Matrix.Copy | linal.h:49-55 | copying takes n, m and the rows |
| Matrices.Matrix.Mul | linal.h:40-47 | the triple loop yields Product(a, other.a) |
| Matrices.Matrix.Pow | linal.h:57-69 | ^ yields MatPower(A, pow), an n x m matrix, on every shape operator^ is defined on |
| Matrices.Matrix.Minus | linal.h:71-77 | the double loop yields the entrywise difference |
| Matrices.Matrix.Transpose | linal.h:92-98 | the double loop yields the transpose |
| Matrices.Matrix.AppendDown | linal.h:79-83 | in place: n grows by other's n and other's rows are pushed back, keeping validity when the widths match |
| Matrices.Matrix.AppendRight | linal.h:85-90 | in place: m grows by other's m and the first other.n rows are extended by other's rows |
| Matrices.Matrix.AppendBeside | linal.h:85-90 | for equal row counts, append_right yields AppendRight(old a, other) and stays valid |
| Matrices.Matrix.Det | linal.h:100-113 | the do/while over next_perm yields the Leibniz determinant |
| Matrices.Matrix.DetStep | linal.h:105-111 | one round yields the k-th Leibniz term and moves to the (k+1)-th permutation, or reports the end |
| Matrices.Matrix.ProductAlong | linal.h:106-109 | the inner loop yields the product along p |
| Matrices.Matrix.Inverse | linal.h:115-141 | the double loop yields InverseMatrix(a) |
| Matrices.Matrix.FillColumn | linal.h:120-138 | fills column i of ans with the inverse's entries, keeping the others |
| Matrices.Matrix.CofactorEntry | linal.h:134-137 | b.det(), the sign and the division give the inverse's entry (j, i) |
| Matrices.Matrix.SignedMinorDet | linal.h:134-136 | the signed minor determinant is the cofactor |
| Matrices.Matrix.MinorDet | linal.h:121-134 | b.det() is the determinant of the minor |
| Matrices.Matrix.MinorOf | linal.h:121-133 | the four quadrant loops yield Minor(a, i, j) |
| Matrices.Matrix.CopyBlock | linal.h:122-133 | one quadrant loop copies a block shifted by (dk, dl) and keeps every other entry |
| Matrices.Matrix.Gauss | linal.h:159-188 | gauss() yields Elimination.Gauss(a) |
| Matrices.Matrix.EntryCopy | linal.h:161-164 | the entry copy yields the same rows |
| Matrices.Matrix.GaussPass | linal.h:166-185 | one pass in place yields Pass(a) and the next row index |
| Matrices.Matrix.SwapUp | linal.h:166-171 | the search and swap yield PivotUp(a) |
| Matrices.Matrix.DivideRow | linal.h:176-178 | the division loop yields ScaleRow(a) |
| Matrices.Matrix.Eliminate | linal.h:179-185 | the elimination loops yield EliminateRows(a) |
| Matrices.Matrix.EliminateRow | linal.h:180-184 | one row j loses a[i] times its entry in column c; other rows stay |
| Matrices.Matrix.IsZero | linal.h:194-198 | the double loop returns true exactly when the matrix is zero |
| Matrices.Matrix.IsSolution | linal.h:190-199 | is_solution(x) returns true exactly when A x = 0 |
| Matrices.Matrix.RowNonzero | linal.h:249-252 | non_empty is true exactly when row i is nonzero |
| Matrices.Matrix.Rk | linal.h:245-256 | rk() yields Rank(a) |
| Matrices.Matrix.FirstOneIn | linal.h:206-210 | the inner scan of ker() finds FirstOne of row i |
| Matrices.Matrix.MainColumns | linal.h:204-212 | the scan yields Main(a) |
| Matrices.Matrix.FreeVector | linal.h:217-221 | cur holds KerVector(a, main, j) |
| Matrices.Matrix.FreeLines | linal.h:213-223 | the loop over columns yields KerRows(a, main) |
| Matrices.Matrix.Ker | linal.h:201-225 | ker() yields Subspaces.Ker(a), m x the nullity |
| Matrices.Matrix.LineOf | linal.h:231-238 | cur_line is row i and to_append is true exactly when the row is nonzero |
| Matrices.Matrix.NonzeroLines | linal.h:230-241 | the loop keeps exactly the nonzero rows |
| Matrices.Matrix.Im | linal.h:227-243 | im() yields Subspaces.Image(a) |
| Matrices.Matrix.ShiftBy | linal.h:274-275 | in place, the matrix becomes A - xI |
| Matrices.Matrix.AppendJordanMatrix | linal.h:258-265 | in place, the matrix gets the Jordan block of x of size sz at pos |
| Matrices.Matrix.RanksFor | linal.h:272-277 | the ranks loop yields Ranks(a, x) |
| Matrices.Matrix.PlaceCount | linal.h:280-283 | the loop over j succeeds exactly when PlaceBlocks does, and then leaves its result and last_free |
| Matrices.Matrix.PlaceAll | linal.h:278-284 | the loop over block sizes succeeds exactly when BlocksFrom does, and then leaves its result |
| Matrices.Matrix.Jnf | linal.h:267-287 | jnf() reports success exactly when Jordan.Jnf is defined, and then returns its value |
| Matrices.Matrix.ShiftedKer | linal.h:292-295 | ker() of the shifted copy yields Ker(A - xI) |
| Matrices.Matrix.Eigenvectors | linal.h:289-298 | eigenvectors() yields Jordan.Eigenvectors(a, xs) |
| Matrices.Sum | linal.h:301-306 | sum(a, b) yields Subspaces.Sum(a, b) |

## Left out

- The `operator<<` renderers of all four types: output formatting.
- `characteristic_polynomial()` (linal.h:145-157) is not part of this model. It runs `det()` over `Matrix<Polynomial<T>>`, and the entries here are fixed to `real`.
- `Matrices.Matrix`: the template parameter `T` is fixed to `real`. An exact `real` stands for the `Rational` entries that `gauss()` works with. The conversion templates of rational.h (`operator+(T, U)` and so on) are covered only through `FromInt`.
- Rationals: `int` overflow is not modelled. Integers are unbounded, and the size_t and int widths of the loop counters do not matter for the sizes modelled.
- Rationals.Div: requires a nonzero divisor. Dividing a nonzero fraction by 0/1 as written gives a fraction with denominator 0. When the dividend is 0 as well, `gcd(0, 0)` returns 0 and `a /= g` in `normalize` (rational.h:26) divides by zero.
- Rationals.MutableRational.DivAssign: requires a nonzero divisor for the same reason.
- The accessors `numerator`, `denominator`, `size` and the iterators `begin`/`end` return fields unchanged, so they are read directly.
- `Permutation::operator[]` is array indexing, modelled as such.
- Matrices.Matrix.constructor: takes n >= 0 and m >= -1. For a negative n, or m < -1, `a.resize(n, vector<T>(m))` (linal.h:16-19) throws std::length_error; that exception path is not modelled.
- Matrices.Matrix.Det: requires n >= 1. For n = 0, `next_perm` reads `p[n - 1]` out of bounds.
- Matrices.Matrix.Inverse: requires n >= 2 and det != 0. For n = 1 the 0 x 0 minor reaches `det()` with n = 0. With Rational entries and det == 0, `ans[j][i] /= current_det` turns a nonzero cofactor into a fraction with denominator 0, and a zero cofactor into 0/0, which divides by zero in `normalize` (rational.h:26).
- Matrices.Matrix.Pow and MatrixAlgebra.MatPower: require `PowerDefined`. For pow == 0 with m < n the loops write past the end of a row; for pow >= 2 with m > n the product reads rows past the last.
- Matrices.Matrix.Mul, Minus, AppendBeside and Sum: require the dimensions the source leaves to the caller.
- Jordan.Jnf: where the source's run is undefined it returns `None`. That covers a block count that is negative and so wraps as a size_t, and a block past row n.
- Jordan.JnfShape: proves the shape of jnf()'s result. It does not prove that the result is the Jordan normal form of A, which depends on the caller supplying the right eigenvalues.
- Jordan.EigenvectorsAreEigen: proves every returned column is nonzero and satisfies A v = x v for a supplied x. Linear independence and spanning of the eigenspaces are not proved.
- Subspaces.KerIsSolution: proves the columns solve A x = 0. That they span the kernel is not proved.
- Subspaces.Image: the columns are proved to be the nonzero rows of gauss(A^T). That they span the column space is not proved.
- Subspaces.RankOfGauss and Elimination.GaussIdempotent: `rank(A) == rank(A^T)` and uniqueness of the reduced form are not proved.
- MatrixAlgebra.InverseAt: describes `inverse()` entry by entry. A · A⁻¹ = I, which needs the Laplace expansion of the determinant, is not proved.
- Permutations: that `next_perm` from the identity runs n! times is not proved. The model proves that the enumeration visits every permutation exactly once, in increasing order.
- Permutations: `sign(p) == sign(p^-1)` is not proved.
- Polynomials: the value of a product (`Eval(a * b) == Eval(a) * Eval(b)`) is not proved. Evaluation of sums and differences is proved, and so are commutativity and associativity of + and *, distributivity on both sides, 0 and 1 as units, and the degree of a product.
- Polynomials.Polynomial.Set: the non-const `operator[]` returns a reference. The model writes the value directly.
- Matrices.Matrix: several loops of the source are split into helper methods, each with its own contract. These are `DetStep`, `FillColumn`, `CopyBlock`, `GaussPass`, `FreeLines`, `NonzeroLines`, `PlaceCount`, `PlaceAll` and the like; the order of effects is the same.

## Findings

| source | as written | input that shows it | evidently intended | confidence | as-written member | corrected member |
|---|---|---|---|---|---|---|
| polynomial.h:200 | `operator*` sizes its buffer `a.Degree() + b.Degree() + 1`, which is -1 when both factors are the zero polynomial (Degree -1); converted to size_t, the vector constructor throws | zero polynomial times zero polynomial | the product of two zero polynomials is the zero polynomial | not executed | Polynomials.MulAsWritten | Polynomials.Mul |
