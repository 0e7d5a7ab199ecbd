# SecretFinder in Dafny

A model of the pure core of `SecretFinder.java`, a small program that recovers
the constant term ("secret") of a polynomial from shares `(x, y)`. Each share's
`y` is written as a digit string in some radix. The program decodes every
share, enumerates every `k`-combination of the shares, builds and solves an
interpolation system for each combination, and reports whether all
combinations give the same constant term.

The model covers:

- **Radix** (`radix.dfy`): `decodeValue`, which is `Long.parseLong(value, base)`.
  This covers the radix check, an optional sign, digits `0-9`/`a-z`/`A-Z`, and
  the signed 64-bit overflow check. The scan order matches the JDK: on each
  character the digit is checked before the overflow. The digit loop is proved
  equal to the positional value Σ digit(s[i])·radix^(|s|-1-i), and decoding is
  proved to invert `Long.toString`.
- **Subsets** (`subsets.dfy`): `combinations` / `combineHelper`. The mutable
  `current` buffer becomes a prefix argument, and the `for` loop becomes the
  function `CombineLoop`. The output is proved to be the images of the
  increasing index tuples. Those tuples are proved to number C(n, k), to come
  in strict lexicographic order, and to include every increasing tuple.
- **LinearSystem** (`linear_system.dfy`): building `A` and `B` in
  `solveByMatrix`. The `int` product `x * x` wraps explicitly. With one or two
  points the write `A[i][1]` or `A[i][2]` falls outside the row. The module
  also models the partial-pivot search and the row swap of
  `gaussianElimination`.
- **Verdict** (`verdict.dfy`): the candidate set and the `size() == 1` test
  in `main`.
- **SecretFinder** (`secret_finder.dfy`): `main`'s pipeline (enumerate, solve,
  aggregate), including the array-index exceptions that end the run when the
  combinations have fewer than three points. The value the floating-point
  solver computes is a function parameter.
- Shared: `Results` (error results in place of exceptions), `JavaInt`
  (integer widths), `Points` (the `Point` class).

Three points about the code itself, which the model follows as written:

- The interpolation matrix is not a k×k Vandermonde matrix. The code fills
  only columns 0–2 (`x*x`, `x`, `1`) and leaves every other column zero. For
  more than three points the system is therefore singular
  (`BuildIgnoresHigherCoefficients`).
- `k > n` and `k < 0` are not rejected: they give no combination at all, and
  the run reports "different" with an empty set. `k = 0` gives one empty
  combination; `solveByMatrix` returns an empty array for it, and `main` then
  throws at `coeffs[2]` (line 182). `k = 1` and `k = 2` throw while the matrix
  is built (lines 80-81).
- Decoding does not wrap around: `Long.parseLong` rejects a value outside the
  64-bit range, and the model does the same.

## Model

| member | source | states |
|---|---|---|
| `Radix.Digit` | SecretFinder.java:34-35 | a character's digit value is -1 (not a digit) or lies in 0..radix-1; every character is rejected for a radix outside 2..36 |
| `Radix.Decode` | SecretFinder.java:28-36 | fails with InvalidRadix exactly when the base is outside 2..36; for an optional sign followed by digits it returns the signed positional value when that fits in a Java `long`, and Overflow otherwise; any other string fails; every success lies in the 64-bit range |
| `Radix.ScanMeetsValue` | SecretFinder.java:34-35 | the left-to-right digit loop equals the positional value Σ digit·radix^position when that is within the sign's limit, reports Overflow otherwise, and fails on any non-digit |
| `Radix.EncodeDecode` | SecretFinder.java:28-35 | every 64-bit value written in any radix 2..36 by `Long.toString` decodes back to itself |
| `Radix.DecodeExample` | SecretFinder.java:28-35 | "111" in base 2 is 7, as the doc comment says, and "-Ff" in base 16 is -255 |
| `Radix.DecodeErrorExamples` | SecretFinder.java:34-35 | a digit too large for the base, an empty string and a lone sign are malformed; radix 37 is invalid |
| `JavaInt.Wrap32` | SecretFinder.java:79 | the `int` product is the mathematical one reduced modulo 2^32 into the 32-bit range, and equals it exactly when no overflow occurs |
| `Subsets.Combinations` | SecretFinder.java:142-146 | `combinations(points, k)` yields nothing for negative `k`; otherwise its j-th list is the image of the j-th increasing index selection of size `k` |
| `Subsets.HelperSelects` | SecretFinder.java:148-158 | `combineHelper` with a buffer holding at most `k` points appends, in order, the buffer followed by the points of each increasing selection of the missing `k - |current|` indices from `start` on |
| `Subsets.LoopSelects` | SecretFinder.java:153-157 | the `for` loop from index `i` appends the buffer extended by each increasing selection whose first index is at least `i`, smallest first index first |
| `Subsets.OverfullEmitsNothing` | SecretFinder.java:148-157 | once the buffer holds more than `k` points (negative `k`) the recursion never copies anything out |
| `Subsets.Selections` | SecretFinder.java:153-155 | every enumerated index tuple has `m` strictly increasing indices inside `[lo, n)`, so a combination keeps the original order and never repeats a point |
| `Subsets.SelectionsCount` | SecretFinder.java:153-157 | there are exactly C(n - lo, m) such tuples |
| `Subsets.SelectionsSorted` | SecretFinder.java:153-157 | the tuples come out in strictly increasing lexicographic order, so there are no duplicates |
| `Subsets.SelectionsComplete` | SecretFinder.java:153-157 | every strictly increasing `m`-tuple over `[lo, n)` is produced, so no combination is omitted |
| `Subsets.SelectionsWhole` | SecretFinder.java:149-157 | choosing all of `[lo, n)` produces exactly one tuple, every index in order |
| `Subsets.ChooseFactorial` | SecretFinder.java:142-146 | the count C(n, k) used for the output size equals n! / (k! (n-k)!) |
| `Subsets.CombinationsSpec` | SecretFinder.java:142-158 | for `k >= 0`: C(n, k) lists, each of `k` points taken at increasing indices, in strict lexicographic order of index tuples, missing no selection; none when `k > n`, one empty list when `k = 0`, the whole point list once when `k = n` |
| `LinearSystem.Build` | SecretFinder.java:71-82 | no points give an empty system; one or two points fail with an index out of bounds; otherwise `A` is n×n, row i is `[x_i*x_i (as int), x_i, 1, 0, ...]` and `B[i] = y_i`, in point order |
| `LinearSystem.SquareFits` | SecretFinder.java:79 | for abs(x) <= 46340 the first column holds the exact square |
| `LinearSystem.SquareWraps` | SecretFinder.java:79 | for x = 46341 the first column holds the wrapped, negative product |
| `LinearSystem.BuildInterpolates` | SecretFinder.java:71-84 | for three points without overflow, a coefficient vector solves the built system exactly when the quadratic with those coefficients passes through every point |
| `LinearSystem.BuildIgnoresHigherCoefficients` | SecretFinder.java:72-82 | with more than three points, coefficient vectors that agree on their first three entries give the same `A · c`: the system cannot determine a higher-degree polynomial |
| `LinearSystem.SelectPivot` | SecretFinder.java:99-105 | the pivot row at step i is the smallest index in `[i, n)` whose absolute entry in column i is maximal |
| `LinearSystem.PivotUnique` | SecretFinder.java:100-105 | that characterisation fixes the pivot row uniquely |
| `LinearSystem.SwapRows` | SecretFinder.java:107-114 | rows i and maxRow of `A` and entries i and maxRow of `B` are exchanged together; every other row and entry is unchanged |
| `LinearSystem.SwapRowsPermutes` | SecretFinder.java:107-114 | the swap only reorders whole equations (same multiset of row/right-hand-side pairs), and swapping twice restores the system |
| `LinearSystem.PivotStep` | SecretFinder.java:98-114 | after pivot search and swap, row i holds the largest absolute entry of column i among rows `i..n-1`; rows above i are unchanged; the equations are only reordered |
| `Verdict.Aggregate` | SecretFinder.java:176-190 | the candidate set holds exactly the values that occur; the "same secret" branch is taken exactly when there is at least one candidate and all candidates are equal, and then the set is that single value |
| `Verdict.AggregateIgnoresOrderAndRepeats` | SecretFinder.java:176-183 | the verdict and set depend only on which values occur, not on their order or repetition |
| `Verdict.AggregateEmpty` | SecretFinder.java:190-194 | no candidates give an empty set and the "different" branch |
| `SecretFinder.SolveConstant` | SecretFinder.java:181-182 | one combination yields a constant term exactly when it has at least three points; no points throw at `coeffs[2]` (index 2, length 0), one or two points throw while the matrix is built (index n, length n) |
| `SecretFinder.Candidates` | SecretFinder.java:180-188 | the loop succeeds exactly when every combination yields a constant term, and then lists them in enumeration order; otherwise it stops with the exception of the first combination that throws |
| `SecretFinder.RunSolvesAll` | SecretFinder.java:174-188 | for `0 <= k <= n` there is at least one combination; `k = 0` throws at `coeffs[2]`, `k = 1, 2` throw in the matrix build, and `k >= 3` yields a constant term for every combination |
| `SecretFinder.RunAgrees` | SecretFinder.java:174-191 | for `0 <= k <= n` with every combination yielding the same constant c: the run throws when `k < 3`, and otherwise reports the single secret c |
| `SecretFinder.RunDisagrees` | SecretFinder.java:174-194 | two combinations with different constant terms: the run throws exactly when `k < 3`, and otherwise reports disagreement with both values in the set |
| `SecretFinder.RunWithoutCombinations` | SecretFinder.java:174-194 | with `k < 0` or `k > n` there are no combinations, nothing throws, and the run reports "different" with an empty set |

## Left out

- `readPoints` (SecretFinder.java:43-69): file reading and JSON traversal through the json-simple library are I/O and a foreign library. The `Integer.parseInt` calls for the keys and bases are left out with it.
- Forward elimination and back substitution (SecretFinder.java:117-135) and `Math.round` (SecretFinder.java:88): this is double-precision floating-point arithmetic, so claims in exact real arithmetic would not hold of the program.
- The solver call in `main` (SecretFinder.java:181-182): the constant term of a combination, `solveByMatrix(combo)[2]`, is a parameter of the pipeline when the combination has at least three points, because it comes from the floating-point solver left out above. The exceptions for fewer than three points are modelled (`SecretFinder.SolveConstant`).
- LinearSystem.Build: `B[i] = y` converts a `long` to a `double`, which rounds once |y| > 2^53; the model stores y exactly as a real.
- LinearSystem.SelectPivot: the comparison is on reals, so NaN and infinite matrix entries (possible only after floating-point elimination) are not modelled.
- Radix.Digit: `Character.digit` also accepts non-ASCII Unicode decimal digits and full-width Latin letters; only ASCII digits and letters are modelled.
- Console output in `main` (SecretFinder.java:167-171, 185-194): formatting only.
