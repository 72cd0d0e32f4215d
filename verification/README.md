# Base conversion by matrices, modelled in Dafny

`popup.js` is a browser popup that converts a batch of numerals from a source
base `s` to a target base `t`. Either base may be negative, and each has a
magnitude between 2 and 62. Every quantity is a BigInt. The engine works in
four steps:

- It reads each input line as a vector of digits over the 62-symbol alphabet
  `0-9A-Za-z`, then pads the vectors with leading zeros to one length.
- It multiplies the resulting matrix N by a transform matrix M:
  - the **offset** method uses the Pascal matrix with entries
    `C(size-1-r, c-r) * (s-t)^(c-r)` (a Taylor shift);
  - the **multiples** method, offered when `t` divides `s`, uses the diagonal
    matrix of `(s/t)^(size-1-i)`.
- Each row of `R = N * M` holds coefficients whose value in base `t` is the
  input's value in base `s`.
- A carry sweep (`normalize`) turns each row into digits in `[0, |t|)`, and
  the result is written without leading zeros.

The model is pure Dafny over `int`, `seq<int>` and `seq<seq<int>>`. It has
these modules:

- `BigIntOps`: the BigInt helpers. This covers `abs`, `**`, and the
  truncating `/` and `%` (`TruncDiv`, `TruncRem`), as distinct from Dafny's
  Euclidean operators.
- `Digits`: `getVal`, `getChar`, and the symbol/value codec of whole strings.
- `Binomial`: `combinations`, checked against Pascal's rule.
- `Positional`: the value `Σ d[j] * b^(|d|-1-j)` of a coefficient vector, and
  its algebra.
- `Matrices`: `matrixMultiply`, `getPascalPower` and `getDiagonalMatrix`.
  This module also proves the binomial theorem and that either transform
  turns a reading in base `t` into a reading in base `s`.
- `Normalization`: `normalize`. It is modelled as a single step of the sweep,
  the terminating sweep, the trimming of leading zeros, and a bounded run of
  the loop as written.
- `Batch`: the click handler's logic. This covers base validation, the
  multiples test, line parsing, padding, the two drivers, and the
  per-number cards.

The central result is `Batch.ConvertBatch`. Take any accepted line whose
value is non-negative, or whose target base `t` is negative. Its output
string decodes to canonical digits of base `t`, and their value in base `t`
is the line's value in base `s`. By `Batch.ConvertedTextUnique` it is the
only such numeral. A negative value with a positive target base has no
digits. The model reports it as unrepresentable; popup.js never returns on
it (see Findings).

## Model

| member | source | states |
|---|---|---|
| BigIntOps.Abs | popup.js:16-18 | the result is non-negative and is `n` or `-n` |
| BigIntOps.TruncDiv | popup.js:289 | BigInt division rounds toward zero: the remainder `a - b*q` is below `abs(b)` in magnitude and has the sign of `a` |
| BigIntOps.TruncRem | popup.js:281 | BigInt `%`: `a == b*(a/b) + r`, with `r` of `a`'s sign and below `abs(b)` in magnitude |
| BigIntOps.TruncDivExact | popup.js:289 | when `b` divides `a` exactly, the BigInt quotient is that factor and the remainder is 0 |
| BigIntOps.TruncRemZeroIsDivisibility | popup.js:123 | the truncating remainder is 0 exactly when the Euclidean one is, and then `a == (a/b)*b` |
| BigIntOps.Pow | popup.js:48 | BigInt `**` (also used at popup.js:61): powers of a positive base are positive, powers of 1 are 1, and `0 ** n` is 0 except `0 ** 0 == 1` |
| BigIntOps.PowOfProduct | popup.js:61 | `(a*b)^n == a^n * b^n`: powers of the multiples factor combine with powers of the target base |
| Digits.AlphabetShape | popup.js:2 | the alphabet has 62 symbols; symbol `v` is the `v`-th of the ASCII digits, then upper-case, then lower-case letters (`SymbolOf`); the symbols strictly increase, so none repeats |
| Digits.IndexOf | popup.js:5 | `indexOf` returns the first position of the character, or -1 exactly when it is absent |
| Digits.GetVal | popup.js:4-6 | the value lies in `[-1, 62)`; it is -1 exactly for a non-alphabet character; otherwise it is the character's position |
| Digits.GetChar | popup.js:8-13 | a value in `[0, 62)` gives its ASCII symbol; anything else gives `'?'` |
| Digits.ValueRoundTrip | popup.js:1-13 | `getVal(getChar(v)) == v` for every `v` in `[0, 62)` |
| Digits.SymbolRoundTrip | popup.js:1-13 | `getChar(getVal(c)) == c` for every alphabet symbol |
| Digits.UnknownIsNotSymbol | popup.js:11 | `'?'` is not a symbol, so a `getChar` failure never decodes as a digit |
| Digits.DecodeRender | popup.js:311-313 | writing digits below 62 as symbols and reading them back gives the digits |
| Digits.Render | popup.js:311-313 | one symbol per digit: a digit in `[0, 62)` becomes its ASCII symbol, anything else `'?'` |
| Digits.RenderDecode | popup.js:180-186 | reading alphabet symbols as values and writing them back gives the string |
| Binomial.ChooseStep | popup.js:31 | `i*C(n,i) == (n-i+1)*C(n,i-1)`, so every division of the loop is exact |
| Binomial.ChooseSymmetric | popup.js:25 | `C(n,k) == C(n,n-k)`, which justifies replacing `k` by `n-k` |
| Binomial.CombinationsLoop | popup.js:27-33 | started from `C(n,i-1)`, the multiply-then-divide loop ends at `C(n,k)` |
| Binomial.Combinations | popup.js:21-34 | the result is the binomial coefficient `C(n,k)` by Pascal's rule for `0 <= k <= n`, else 0 |
| Binomial.CombinationsEdges | popup.js:23-24 | the result is 0 outside `0 <= k <= n`, and 1 at `k == 0` or `k == n` when `n >= 0` |
| Binomial.CombinationsSymmetric | popup.js:25 | `combinations(n,k) == combinations(n,n-k)` for all integers |
| Positional.ValueZerosPrefix | popup.js:200-201 | leading zero coefficients do not change the value in any base |
| Positional.LeadingNonNegative | popup.js:296-299 | in a positive base, if the digits after the first are in range and the value is non-negative, the first coefficient is non-negative |
| Positional.RepresentationUnique | popup.js:306-313 | digits in `[0, abs(b))` of one value agree up to leading zeros, for negative bases as well |
| Positional.CanonicalUnique | popup.js:306-313 | two canonical digit vectors of one value in one base are equal |
| Matrices.MatrixMultiply | popup.js:68-88 | it fails exactly when `cols(A) != rows(B)`; otherwise the result is `rows(A) x cols(B)` with entry `(i, j)` equal to `Σ_k A[i][k]*B[k][j]` |
| Matrices.MatrixMultiplyIsProduct | popup.js:78-86 | the computed entries form the matrix product, row `i` being row `i` of A times B |
| Matrices.PascalPower | popup.js:38-54 | the Pascal matrix is square of the given size, zero below the diagonal, with ones on it |
| Matrices.PascalRowShape | popup.js:41-51 | row `r` is `r` zeros followed by `C(p,k)*e^k` for `k = 0..p`, where `p = size-1-r` |
| Matrices.PascalZeroIsIdentity | popup.js:38-54 | with offset 0 the Pascal matrix is the identity |
| Matrices.BinomialTheorem | popup.js:45-50 | the row `C(m,k)*e^k` read in base `t` is `(t+e)^m` |
| Matrices.PascalRowValue | popup.js:38-54 | row `r` of the Pascal matrix for offset `e`, read in base `t`, is `(t+e)^(size-1-r)` |
| Matrices.DiagonalMatrix | popup.js:56-64 | the diagonal matrix is square of the given size, zero off the diagonal, with `f^(size-1-i)` at `(i, i)` and 1 in the last entry |
| Matrices.DiagonalRowValue | popup.js:59-62 | row `i` of the diagonal matrix for factor `f`, read in base `t`, is `(f*t)^(size-1-i)` |
| Matrices.RowTimesValue | popup.js:78-86 | a row times a matrix, read in base `t`, is the row weighted by the values of the matrix rows in base `t` |
| Matrices.TransformPreservesValue | popup.js:212-227 | if row `k` of M reads as `b^(n-1-k)` in base `t`, then `d*M` in base `t` equals `d` in base `b` |
| Matrices.PascalConverts | popup.js:212-215 | `d` times the Pascal matrix for offset `e`, read in base `t`, equals `d` read in base `t+e` |
| Matrices.DiagonalConverts | popup.js:224-227 | `d` times the diagonal matrix for factor `f`, read in base `t`, equals `d` read in base `f*t` |
| Matrices.PascalRoundTrip | popup.js:212-215 | converting with offset `e` and then with offset `-e` gives back the vector |
| Matrices.PascalInverse | popup.js:38-54 | the Pascal matrices for offsets `e` and `-e` multiply to the identity |
| Normalization.ForcedRemainder | popup.js:281-286 | the remainder after the `r += abs(base)` fix lies in `[0, abs(base))`, and `base` divides `val - r` |
| Normalization.Carry | popup.js:278-289 | the digit kept lies in `[0, abs(base))`, and `q*base + r == val` |
| Normalization.CarryIsEuclidean | popup.js:281-289 | the corrected truncating step equals Euclidean `val % base` and `val / base` |
| Normalization.CarryOfDigit | popup.js:291-303 | a coefficient is kept with carry 0 exactly when it is already a digit |
| Normalization.CarryShrinks | popup.js:296-299 | a carry out of position 0 is smaller in measure `2abs(v) (+1 if v<0)` than the coefficient, unless the base is positive and the value negative |
| Normalization.ValueAfterCarry | popup.js:292-295 | writing `r` at `i` and adding `q` at `i-1` keeps the value |
| Normalization.ValueAfterGrow | popup.js:296-300 | writing `r` at 0 and inserting `q` in front keeps the value |
| Normalization.SweepStep | popup.js:278-303 | one pass moves the index down by one, or stays at 0 after inserting the carry as a new leading coefficient |
| Normalization.SweepStepPreserves | popup.js:278-303 | one pass keeps the value and the settled digits right of the index; it changes nothing exactly when the coefficient is already a digit |
| Normalization.SweepAdvances | popup.js:277-304 | under the termination condition one pass keeps the loop invariant, and either the index falls or the leading coefficient shrinks |
| Normalization.CarrySweep | popup.js:275-304 | the swept array is at least as long, all digits lie in `[0, abs(base))`, the value is unchanged, and an array of digits comes back unchanged |
| Normalization.Run | popup.js:277-304 | the loop as written, run for any number of passes, keeps the value and a valid index |
| Normalization.NegativeLeadNeverFinishes | popup.js:291-299 | in a positive base a leading -1 is never settled: after any number of passes the index is still 0 |
| Normalization.NegativeValueKeepsRunning | popup.js:277-304 | in a positive base, while the value is negative and the digits right of the index are settled, no number of passes takes the index below 0 |
| Normalization.NegativeValueNeverFinishes | popup.js:277-304 | the loop as written, started at the last position on any coefficients of negative value in a positive base, never ends |
| Normalization.TrimmedString | popup.js:306-313 | the string is empty exactly for an empty array; for digits below 62 it decodes to the array without its leading zeros, canonical, with at least one digit kept |
| Normalization.TrimmedDigits | popup.js:306-313 | the digits left after trimming are canonical for the base and keep the array's value |
| Normalization.Normalize | popup.js:273-315 | the result has `CarrySweep`'s guarantees; for `abs(base) <= 62` the string decodes to canonical digits with the input's value |
| Batch.Validate | popup.js:99-140 | the bounds error appears exactly when a magnitude exceeds 62; conversion is enabled exactly for magnitudes in `[2, 62]`; multiples is offered exactly when `t` divides `s` |
| Batch.IsMultiple | popup.js:123 | the truncating test holds exactly when `t` divides `s`, and then `(s/t)*t == s`, so the factor of popup.js:225 is exact |
| Batch.EffectiveMethod | popup.js:127-139 | multiples survives only when offered, offset is kept, and an offered choice is kept |
| Batch.ParseLine | popup.js:178-187 | a line is accepted exactly when every character has `0 <= getVal < abs(s)`, giving `getVal` of each character; otherwise the error names the first bad character |
| Batch.CharErrorKinds | popup.js:181-183 | "not found in map" exactly for non-alphabet characters; "too large" otherwise, with `getVal >= abs(s)` |
| Batch.ParseStep | popup.js:175-190 | a blank line changes nothing; a line of digits of the source base adds one number with its digit values; any other line adds one error naming its first bad character |
| Batch.ParseLines | popup.js:174-191 | every number and every error comes from a non-blank input line, and parsing that line gives it |
| Batch.ParseLinesAppend | popup.js:174-191 | parsing `a + b` gives the numbers and errors of `a` followed by those of `b` |
| Batch.BlankLineSkipped | popup.js:175-176 | a blank line changes nothing |
| Batch.RejectedLineIsolated | popup.js:177-190 | a rejected line adds exactly its own error in place, and the other lines parse as if it were absent |
| Batch.AcceptedLineKept | popup.js:178-187 | an accepted line adds exactly one number, with `getVal` of its characters, in place |
| Batch.MaxLength | popup.js:195-196 | the width bounds every digit vector and is attained by one of them (0 for none) |
| Batch.Pad | popup.js:199-202 | the padded row has the given width and ends with the digits after zeros |
| Batch.PadPreservesValue | popup.js:199-202 | padding keeps the value in every base |
| Batch.PadInRange | popup.js:200-201 | a padded row is in range exactly when the digits are |
| Batch.InputMatrix | popup.js:199-202 | matrix N has one row per number, all of the common width |
| Batch.InputRowValue | popup.js:199-202 | row `i` of N has the value of number `i` in every base |
| Batch.Transform | popup.js:212-227 | offset gives a square, unit upper-triangular Pascal matrix; multiples gives the square diagonal matrix of `(s/t)^(size-1-i)` |
| Batch.TransformRowWeights | popup.js:212-227 | for offset, or for multiples with `t` dividing `s`, row `k` of the transform read in base `t` is `s^(size-1-k)` |
| Batch.TransformConverts | popup.js:212-227 | `d` times the chosen transform, read in base `t`, equals `d` read in base `s` |
| Batch.MultiplesNeedsDivisibility | popup.js:123-139 | without the divisibility test the diagonal method is wrong: "10" from base 3 to base 2 reads 2, not 3 |
| Batch.ResultMatrix | popup.js:215-227 | `R = N * M` has one row per number, all of the common width |
| Batch.ProductRowValues | popup.js:212-227 | every row of `R = N * M` read in base `t` is its number read in base `s` |
| Batch.ConvertNumber | popup.js:256-265 | a number's card is for the same line; it is converted exactly when representable, and then its digits are canonical in base `t` with the number's value |
| Batch.ConvertAll | popup.js:256-269 | card `i` answers number `i`, in order, and shows row `i` |
| Batch.ConvertBatch | popup.js:154-209 | the errors are those of parsing; there is one card per accepted number, in order, each answering its number and showing row `i` of `N * M` for the effective method |
| Batch.ConvertedTextUnique | popup.js:306-315 | the output string is the only canonical numeral of base `t` with the number's value |
| Batch.PositiveSourceRepresentable | popup.js:179-186 | with a positive source base every accepted number is representable in any target base |
| Batch.NegativeTenParses | popup.js:174-187 | the line "10" is accepted in base -10 as digits `[1, 0]`, of value -10 |
| Batch.NegativeTenRow | popup.js:212-215 | the offset method from base -10 to base 10 maps `[1, 0]` to the row `[1, -20]` |
| Batch.NegativeTenNeverFinishes | popup.js:277-304 | `normalize([1, -20], 10)` as written reaches `[-1, 0]` at index 0 and stays at index 0 forever |

## Left out

- The DOM wiring is not modelled (popup.js:92-152, 154-164). This covers the event listeners, the swap button, the hint text and colour, and enabling or disabling the button and the multiples option. `Batch.Validate` returns which message would be shown. `Batch.EffectiveMethod` returns what the selector holds afterwards.
- `parseInt`, `isNaN` and the `|| 0` default for bases are not modelled, because they are host string handling. Bases are integers.
- `split('\n')` and `line.trim()` (popup.js:171, 175) are left out for the same reason. Lines arrive already split and trimmed, so a blank line is `""`.
- The HTML of `renderBatchResult` and of the error cards is presentation (popup.js:189, 236-270). The model keeps what a card says: the line, the product row and the output string.
- The `Number`/`BigInt` conversions (popup.js:10, 28, 167-168, 185) are not modelled. All values are mathematical integers.
- Normalization.Normalize: requires a negative base or a non-negative value. Otherwise the source loop never ends (see Findings and `Normalization.NegativeValueNeverFinishes`). It also requires `abs(base) >= 2`, which the page guarantees. With base 1 or -1 every remainder is 0 and the whole value is carried into position 0, so the source loops whenever the value is not 0; `[1, -1]` in base 1 ends. Base 0 throws.
- Normalization.CarrySweep: has the same two requirements as `Normalize`, for the same reasons.
- Batch.ConvertBatch: requires bases with magnitudes in `[2, 62]`. Otherwise the page disables the convert button, so the handler never runs. A negative number with a positive target base yields an `Unrepresentable` card instead of a hang (see Findings).
- Batch.ConvertNumber: requires a non-empty product row. Every row of the batch has at least one entry, because accepted lines are non-blank.
- Matrices.MatrixMultiply: requires non-empty operands with rows of one length. The source reads `matA[0]` and `matB[0]` and would fail differently on an empty matrix; the page never passes one.
- Rational coefficients, a left-to-right fractional sweep, and a multiples method for either direction of divisibility are not modelled, because popup.js has none of them. The code is integer-only and offers multiples only when `s % t == 0` (popup.js:123); the model follows the code.

## Findings

| source | as written | input that shows it | evidently intended | confidence | as-written member | corrected member |
|---|---|---|---|---|---|---|
| popup.js:277-304 | With a positive target base, a negative value is never settled. At index 0 the remainder is forced positive, the carry is negative, and it is inserted in front with `i++`, so the loop revisits index 0 forever. | the line "10" from base -10 (value -10) to base 10 by the offset method: the row `[1, -20]` becomes `[-1, 0]`, then `[-1, 9, 0]`, `[-1, 9, 9, 0]`, … | the conversion should finish and report that a negative number has no digits in a positive base | not executed; high | Normalization.NegativeValueNeverFinishes | Batch.ConvertBatch |
