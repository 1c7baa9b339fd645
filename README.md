# QOLDS generator-matrix builder, modelled in Dafny

This project models the host-side builder of the GF(3) generator matrices behind the
quad-optimized low-discrepancy sequences (QOLDS), the base-3 analogue of the Sobol'
construction. The builder is the `QOLDSBuilder` class of `src/qolds_builder.hpp` and
`src/qolds_builder.cpp`. It is layered as follows:

1. **Digit codec** (`codec.dfy`, module `DigitCodec`). `integerDigits` and `fromDigits`
   convert between an integer and a fixed-length, little-endian base-b digit vector.
   C++ `/` and `%` truncate toward zero; the model writes them out as `TruncDiv` and
   `TruncMod`.
2. **Digit-wise GF(3) operations** (`gf3.dfy`, module `GF3Ops`). `multiplyByFactorInGFN`
   scales every digit. `bitXorGFN` adds several values digit by digit and reduces each
   column with `%`, which is the base-3 XOR.
3. **Direction-number recurrence** (`direction_numbers.dfy`, module
   `DirectionNumberGeneration`). `generateMkGF3` extends one row of `m_sobol_mk` in place
   up to 10 entries. A generic `Recurrence` over a step function captures the loop shape.
   `DirectionNumbers` instantiates it with the GF(3) step.
4. **Matrices and the builder object** (`matrix.dfy`, module `GeneratorMatrices`;
   `builder.dfy`, module `QoldsBuilderClass`).
   - `fillMatrix` writes the reversed digits of each direction number down a column.
   - `buildMatrices` validates its arguments. It then regenerates every requested row,
     keeps one 20 x 20 matrix per dimension, and flattens the top-left m x m blocks
     row-major into the upload buffer.
   - `generateScrambleSeeds` draws one seed per dimension.
   - The getters expose the state.

The constants and tables of the header (`QOLDS_MAX_DIMENSIONS`, `QOLDS_SEQUENCE_LENGTH`,
`QOLDS_MATRIX_SIZE`, `pow3Tab`, `convertToGF3`) are in `tables.dfy`, module `QoldsTables`.

## Form of the model

The source is imperative, and so is the model:

- `QoldsBuilder` is a class.
  - Its initialisation tables are `array`s, and `m_sobol_mk` is an `array2`.
  - `m_matrices`, `m_flattenedMatrices` and `m_seeds` are `seq` fields that the methods
    reassign.
- Each loop of the source is a `method` with its loop invariants:
  - `integerDigits`, `fromDigits` and `multiplyByFactorInGFN`;
  - both phases of `bitXorGFN`, over a fresh 10 x 10 `array2`;
  - `generateMkGF3`, which writes row `d` of the table in place;
  - `fillMatrix`, which writes a fresh 20 x 20 `array2`;
  - the flattening loops, and the dimension loop of `buildMatrices`.
- Each method is proved against a pure specification function: `Digits`, `Value`,
  `ScaleGF`, `CombineGF`, `DirectionNumbers`, `GeneratorMatrix` and `Flatten`.
- The properties the source promises are lemmas about those functions.

### Behaviour worth noting

- **Degree argument.** `buildMatrices` passes `m_sobol_sj[d]`, the number of given
  direction numbers, as the polynomial degree of `generateMkGF3`
  (`src/qolds_builder.cpp:114`). The model does the same: `Regenerated` uses `sobolSj[d]`.
  `m_sobol_dj` is stored and never read.
- **Degree 0.** The sequence is not constant. `generateMkGF3` recomputes each entry k
  from itself (`lst` holds only `msobol[i-1]`, `src/qolds_builder.cpp:254`) and keeps its
  k+1 low base-3 digits. `DegreeZeroTruncates` proves this.
- **Rejected build.** `buildMatrices` returns `void`. A rejected call only logs and
  changes nothing, so the model has no error result; it states that no state changes.

## Model

| member | source | states |
|---|---|---|
| QoldsTables.Pow3TabIsPow | src/qolds_builder.hpp:120-121 | every entry k (0..20) of `pow3Tab` equals 3^k |
| QoldsTables.Pow3TabSizeIsLength | src/qolds_builder.hpp:120 | the declared size 21 of `pow3Tab` is the length of the table |
| QoldsTables.ConvertToGF3IsNegation | src/qolds_builder.hpp:124 | `convertToGF3` maps each GF(3) element to its additive inverse: v + convertToGF3[v] = 0 mod 3, it equals (3 - v) mod 3, and applying it twice gives v back |
| DigitCodec.TruncDiv | src/qolds_builder.cpp:171 | C++ `val / base`: the quotient truncated toward zero |
| DigitCodec.TruncMod | src/qolds_builder.cpp:170 | C++ `val % base`: the remainder a - b * TruncDiv(a, b), which takes the sign of the dividend |
| DigitCodec.Digits | src/qolds_builder.cpp:165-174 | the len low-order base-b digits of v, least significant first, each the C++ remainder of the running truncated quotient; its ensures: exactly len digits |
| DigitCodec.Value | src/qolds_builder.cpp:179-188 | the integer a little-endian digit vector denotes: ds[0] + b * ds[1] + b^2 * ds[2] + ... |
| DigitCodec.TruncDivMod | src/qolds_builder.cpp:170-171 | C++ truncating `/` and `%` agree with Euclidean division for a non-negative dividend; for a non-positive one the quotient is non-positive and the remainder lies in (-b, 0] |
| DigitCodec.IntegerDigits | src/qolds_builder.cpp:165-174 | the loop's output equals the digit vector `Digits(val, base, len)` |
| DigitCodec.FromDigits | src/qolds_builder.cpp:179-188 | the loop's result equals the value `Value` of the first len digits, with `pow` equal to base^i at every step |
| DigitCodec.DigitsRange | src/qolds_builder.cpp:165-174 | digits of a non-negative value lie in [0, b); digits of a non-positive value, as C++ `%` gives them, lie in (-b, 0] |
| DigitCodec.DigitAt | src/qolds_builder.cpp:165-174 | digit k of a non-negative v is floor(v / b^k) mod b |
| DigitCodec.ValueBound | src/qolds_builder.cpp:179-188 | a digit vector of length n denotes a value in [0, b^n) |
| DigitCodec.ValueOfDigits | src/qolds_builder.cpp:165-188 | re-encoding the len digits of a non-negative v gives v mod b^len, so the high digits are silently dropped |
| DigitCodec.RoundTrip | src/qolds_builder.cpp:165-188 | for 0 <= v < b^len, fromDigits(integerDigits(v)) = v |
| DigitCodec.DigitsOfValue | src/qolds_builder.cpp:165-188 | the other direction of the round trip: expanding the value of a digit vector gives the vector back |
| DigitCodec.DigitsOfValueNonPositive | src/qolds_builder.cpp:165-188 | the digit-side round trip also holds for vectors of non-positive digits, the form C++ produces for negative values |
| GF3Ops.ScaleDigits | src/qolds_builder.cpp:196-199 | every digit multiplied by the factor and reduced with C++ `%`; its ensures: the length is kept |
| GF3Ops.ScaleGF | src/qolds_builder.cpp:193-201 | what `multiplyByFactorInGFN` returns: the value of the scaled len-digit expansion of x |
| GF3Ops.ColumnSum | src/qolds_builder.cpp:234-237 | the sum of digit k of the len-digit expansions of lst[0], ..., lst[n-1] |
| GF3Ops.CombineDigits | src/qolds_builder.cpp:229-239 | len digits, digit k being the column sum over lst[0..degree] reduced with C++ `%`; its ensures: exactly len digits |
| GF3Ops.CombineGF | src/qolds_builder.cpp:206-242 | what `bitXorGFN` returns: the value of those combined digits |
| GF3Ops.MultiplyByFactorInGFN | src/qolds_builder.cpp:193-201 | the in-place scaling loop computes `ScaleGF`, the value of the scaled digit vector |
| GF3Ops.ScaledDigitsAreDigits | src/qolds_builder.cpp:196-199 | for non-negative x and factor every scaled digit is a base-b digit |
| GF3Ops.ScaleDigitAt | src/qolds_builder.cpp:193-201 | the scaled value lies in [0, b^len), and its digit k is (digit k of x) * factor mod b, i.e. ((x / b^k) mod b) * factor mod b |
| GF3Ops.ScaleByOne | src/qolds_builder.cpp:193-201 | factor 1 gives x mod b^len, the identity on x < b^len |
| GF3Ops.ScaleByZero | src/qolds_builder.cpp:193-201 | factor 0 gives 0 for every x |
| GF3Ops.BitXorGFN | src/qolds_builder.cpp:206-242 | the function computes `CombineGF`, the value of the column sums of the digits of lst[0..polynomialDegree] reduced with `%` |
| GF3Ops.ExpandTerms | src/qolds_builder.cpp:208-227 | after the first phase, row i of the fresh 10 x 10 table holds the len digits of lst[i] for every i <= polynomialDegree |
| GF3Ops.WriteRow | src/qolds_builder.cpp:223-226 | the inner copy loop writes d into row i and leaves every other row unchanged |
| GF3Ops.SumColumns | src/qolds_builder.cpp:229-239 | the second phase leaves digit k of the result equal to column k of the table summed over rows 0..polynomialDegree and reduced with `%` |
| GF3Ops.ColumnSumRange | src/qolds_builder.cpp:234-237 | with non-negative terms a sum of n digits lies in [0, n*(b-1)] |
| GF3Ops.CombinedDigitsAreDigits | src/qolds_builder.cpp:229-239 | with non-negative terms every combined digit is a base-b digit and equals the column sum mod b |
| GF3Ops.CombineDigitAt | src/qolds_builder.cpp:206-242 | the result lies in [0, b^len), and digit k of it is the digit-wise sum of the terms' digit k mod b |
| GF3Ops.CombineSingle | src/qolds_builder.cpp:206-242 | with polynomialDegree 0 the result is lst[0] mod b^len |
| GF3Ops.CombineSingleTerm | src/qolds_builder.cpp:206-242 | with a single term of either sign the result is the value of that term's len digits |
| GF3Ops.CombineWithNegationIsZero | src/qolds_builder.cpp:193-242 | a value combined with its digit-wise negation (scaling by convertToGF3[1] = 2) gives 0 |
| GF3Ops.CombinePairDigits | src/qolds_builder.cpp:229-239 | two non-negative terms combine as (digit k of x + digit k of y) mod 3 in every digit |
| GF3Ops.CombineKnownDigits | src/qolds_builder.cpp:206-242 | two values with known digit vectors combine to the value of their digit-wise sums mod 3 |
| DirectionNumberGeneration.Polynomial | src/qolds_builder.cpp:249 | the coefficient vector of a non-negative polynomial code has degree+1 entries, each a base-3 digit |
| DirectionNumberGeneration.Term | src/qolds_builder.cpp:258-261 | term j for position i: 3^j times entry i-j-1 scaled digit-wise (over 10 digits) by the GF(3) negation of coefficient degree-j |
| DirectionNumberGeneration.Terms | src/qolds_builder.cpp:253-262 | the list `lst` for position i: entry i-degree-1 followed by terms 1..degree; its ensures: degree+1 entries |
| DirectionNumberGeneration.NextDirectionNumber | src/qolds_builder.cpp:264 | the value stored into entry i-1: the digit-wise GF(3) combination of that list over i digits |
| DirectionNumberGeneration.Step | src/qolds_builder.cpp:253-264 | the step of the recurrence for one polynomial, as a function of the array so far and the position |
| DirectionNumberGeneration.TermsPrefix | src/qolds_builder.cpp:253-262 | the list for position i grows by exactly term j at inner iteration j |
| DirectionNumberGeneration.TermFitsInt32 | src/qolds_builder.cpp:258-261 | every term pow3Tab[j] * scaled value is non-negative and below 2^31, so the `int32_t` list never overflows |
| DirectionNumberGeneration.Recurrence | src/qolds_builder.cpp:251-265 | the loop shape: the entries below start and from n on are never written |
| DirectionNumberGeneration.RecurrenceStable | src/qolds_builder.cpp:251-265 | an entry, once written, is never rewritten by a later position |
| DirectionNumberGeneration.RecurrenceIdempotent | src/qolds_builder.cpp:251-265 | with a step that reads only lower entries and is settled, running the loop on its own output changes nothing |
| DirectionNumberGeneration.RecurrenceBound | src/qolds_builder.cpp:251-265 | with a bounded step and non-negative seeds, written entry k lies in [0, 3^(k+1)) |
| DirectionNumberGeneration.RecurrenceDependsOnSeeds | src/qolds_builder.cpp:251-265 | with a local step the generated prefix depends only on the seed entries |
| DirectionNumberGeneration.DirectionNumbers | src/qolds_builder.cpp:251-265 | frame: `generateMkGF3` never writes entries 0..degree-1, nor entries from position n on |
| DirectionNumberGeneration.DirectionNumbersStep | src/qolds_builder.cpp:264 | one iteration sets entry n-1 to the next direction number of the array as it stands |
| DirectionNumberGeneration.NextDirectionNumberLocal | src/qolds_builder.cpp:253-264 | entry i-1 is computed only from entries with smaller index, plus entry i-degree-1 |
| DirectionNumberGeneration.NextDirectionNumberBounded | src/qolds_builder.cpp:253-264 | on non-negative inputs the next direction number lies in [0, 3^i) |
| DirectionNumberGeneration.NextDirectionNumberSettled | src/qolds_builder.cpp:253-264 | recomputing entry i-1 after it has been written gives the same value |
| DirectionNumberGeneration.DegreeZeroStepIdempotent | src/qolds_builder.cpp:254-264 | for degree 0, truncating an already truncated entry changes nothing |
| DirectionNumberGeneration.DirectionNumbersStable | src/qolds_builder.cpp:251-265 | entries written by earlier positions keep their values through the rest of the loop |
| DirectionNumberGeneration.DirectionNumbersDependOnSeeds | src/qolds_builder.cpp:251-265 | the regenerated row depends only on the seed entries 0..degree-1 (every entry for degree 0) |
| DirectionNumberGeneration.DirectionNumbersIdempotent | src/qolds_builder.cpp:251-265 | regenerating an already regenerated row changes nothing, so repeated builds give the same table |
| DirectionNumberGeneration.DirectionNumbersBound | src/qolds_builder.cpp:251-265 | with non-negative seeds every entry is non-negative, and written entry k is below 3^(k+1) |
| DirectionNumberGeneration.DegreeZeroTruncates | src/qolds_builder.cpp:251-265 | for degree 0 entry k becomes s[k] mod 3^(k+1) |
| DirectionNumberGeneration.Row | src/qolds_builder.cpp:114 | row d of `m_sobol_mk`, the `int32_t*` that `generateMkGF3` receives as `msobol`; its ensures: one entry per column of the table |
| DirectionNumberGeneration.PolynomialOfOne | src/qolds_builder.cpp:249 | polynomial code 1 of degree 1 expands to the coefficients [1, 0] |
| DirectionNumberGeneration.WorkedRecurrence | src/qolds_builder.cpp:249-265 | degree 1, polynomial code 1 and seed 1 give the direction numbers 1, 7, 13 |
| DirectionNumberGeneration.CollectTerms | src/qolds_builder.cpp:253-262 | the inner loop builds exactly the list `Terms` of position i from the current row |
| DirectionNumberGeneration.ComputeNext | src/qolds_builder.cpp:253-264 | the value computed for position i, written into entry i-1, advances the row from `DirectionNumbers` up to i-1 to `DirectionNumbers` up to i |
| DirectionNumberGeneration.WriteNext | src/qolds_builder.cpp:253-264 | one outer iteration advances the row by one position and leaves the other rows unchanged |
| DirectionNumberGeneration.WriteEntry | src/qolds_builder.cpp:264 | `msobol[i - 1] = ...` updates exactly that entry of the row |
| DirectionNumberGeneration.RegenerateRow | src/qolds_builder.cpp:251-265 | the outer loop leaves the row equal to `DirectionNumbers` of its old contents up to position 10, and no other row changes |
| DirectionNumberGeneration.GenerateMkGF3 | src/qolds_builder.cpp:247-266 | `generateMkGF3` regenerates exactly the given row in place, with the polynomial expanded from its code |
| GeneratorMatrices.Entry | src/qolds_builder.cpp:275-282 | entry (r, c): on and above the diagonal, digit c-r of the (c+1)-digit expansion of direction number c; below it, the 0 of the fresh matrix |
| GeneratorMatrices.GeneratorMatrix | src/qolds_builder.cpp:271-284 | the matrix `fillMatrix` leaves in the zeroed matrix is 20 x 20 |
| GeneratorMatrices.ColumnDigits | src/qolds_builder.cpp:279-282 | column c read upwards from the diagonal has c+1 entries |
| GeneratorMatrices.GeneratorMatrixUpperTriangular | src/qolds_builder.cpp:117-118 | every entry below the diagonal keeps the zero of the freshly allocated matrix, since `fillMatrix` writes only rows len-j-1 <= i of column i |
| GeneratorMatrices.ColumnDigitsAreDigits | src/qolds_builder.cpp:275-282 | column c read upwards from the diagonal is the c+1 digits of direction number c |
| GeneratorMatrices.GeneratorMatrixEntriesAreDigits | src/qolds_builder.cpp:275-282 | for non-negative direction numbers every entry is in {0, 1, 2} |
| GeneratorMatrices.GeneratorMatrixDiagonal | src/qolds_builder.cpp:275-282 | the diagonal entry is direction number c reduced with C++ `%`, which is mk[c] mod 3 when mk[c] >= 0 |
| GeneratorMatrices.GeneratorMatrixColumnValue | src/qolds_builder.cpp:275-282 | the sum over r <= c of matrix[r][c]*3^(c-r) is mk[c] mod 3^(c+1) |
| GeneratorMatrices.GeneratorMatrixColumnRoundTrip | src/qolds_builder.cpp:275-282 | a direction number below 3^(c+1) is recovered exactly from its column |
| GeneratorMatrices.KnownColumn | src/qolds_builder.cpp:275-282 | a column whose direction number has a known digit vector holds those digits, reversed |
| GeneratorMatrices.WorkedMatrix | src/qolds_builder.cpp:271-284 | direction numbers 1, 7, 13 give the top-left block [[1,2,1],[0,1,1],[0,0,1]] |
| GeneratorMatrices.BlockRows | src/qolds_builder.cpp:123-129 | rows 0..rows-1 of the top-left m x m block, concatenated in row order |
| GeneratorMatrices.Block | src/qolds_builder.cpp:123-129 | the whole top-left m x m block in row-major order |
| GeneratorMatrices.Flatten | src/qolds_builder.cpp:111-129 | the blocks of all matrices, one after another, in dimension order: `m_flattenedMatrices` |
| GeneratorMatrices.Offset | src/qolds_builder.hpp:59-61 | position d*m^2 + r*m + c of entry (r, c) of matrix d in the row-major `[D][m][m]` buffer |
| GeneratorMatrices.BlockRowsLayout | src/qolds_builder.cpp:123-129 | in the flattened block, entry (r, c) sits at r*m + c, and the block has rows*m entries |
| GeneratorMatrices.BlockRowsLength | src/qolds_builder.cpp:123-129 | flattening rows of an m-wide block gives rows*m values |
| GeneratorMatrices.FlattenLength | src/qolds_builder.cpp:111-130 | the flattened buffer of D matrices has D*m^2 entries |
| GeneratorMatrices.FlattenLayout | src/qolds_builder.hpp:59-61 | entry (r, c) of matrix d sits at d*m^2 + r*m + c of the flattened buffer, the row-major `[D][m][m]` layout |
| QoldsBuilderClass.Accepts | src/qolds_builder.cpp:91-101 | the corrected guard: 1 <= dimensions <= 47 and 1 <= digits <= 10 |
| QoldsBuilderClass.AcceptsAsWritten | src/qolds_builder.cpp:91-101 | the guard as written: dimensions outside 1..48 or digits outside 1..10 are rejected |
| QoldsBuilderClass.Regenerated | src/qolds_builder.cpp:114 | a row after `generateMkGF3(m_sobol_aj[d], m_sobol_sj[d], m_sobol_mk[d], 3)`: the recurrence of degree sj over the coefficients of code aj, up to position 10 |
| QoldsBuilderClass.AsWrittenAdmitsMissingRow | src/qolds_builder.cpp:91 | the written guard accepts dimensions = 48, which is not a row index of the 48-row tables |
| QoldsBuilderClass.AcceptsIsAsWrittenWithoutLastRow | src/qolds_builder.cpp:91-101 | the corrected guard is the written guard minus exactly dimensions = 48 |
| QoldsBuilderClass.Built | src/qolds_builder.cpp:111-130 | the invariant of the dimension loop: rows 1..d-1 regenerated from their initial contents, every other row untouched, and matrix k the generator matrix of row k+1 |
| QoldsBuilderClass.EffectiveSeed | src/qolds_builder.cpp:144 | the engine is seeded with the master seed, or with the hardware seed when the master seed is 0 |
| QoldsBuilderClass.SeedsReproducible | src/qolds_builder.cpp:143-149 | with a non-zero master seed the hardware seed does not affect the scrambling seeds |
| QoldsBuilderClass.ScrambleSeeds | src/qolds_builder.cpp:146-149 | count draws give exactly count seeds |
| QoldsBuilderClass.ScrambleSeedsSnoc | src/qolds_builder.cpp:146-149 | one more draw appends the engine's next output |
| QoldsBuilderClass.AllSquareAtLeast | src/qolds_builder.cpp:117-129 | 20 x 20 matrices contain an m x m block for every m <= 20 |
| QoldsBuilderClass.Rows | src/qolds_builder.hpp:110 | the row view of `m_sobol_mk` has one row per dimension |
| QoldsBuilderClass.Grid | src/qolds_builder.cpp:117-120 | the copy `push_back` stores has the array's shape and entries |
| QoldsBuilderClass.GridIsGeneratorMatrix | src/qolds_builder.cpp:117-120 | the fresh zero matrix filled from row d is the generator matrix of that row |
| QoldsBuilderClass.BuiltNothing | src/qolds_builder.cpp:106-111 | before the loop no row has been regenerated and there are no matrices |
| QoldsBuilderClass.BuiltStep | src/qolds_builder.cpp:111-130 | one more loop iteration regenerates row d and appends its matrix, keeping the other rows |
| QoldsBuilderClass.BuiltAll | src/qolds_builder.cpp:111-130 | after the loop, rows 1..dims are regenerated, the other rows are untouched, and matrix d is that of row d+1 |
| QoldsBuilderClass.QoldsBuilder.TablesValid | src/qolds_builder.hpp:106-110 | the tables have 48 slots, `m_sobol_mk` is 48 x 32, and rows 1..47 hold non-negative polynomial codes and counts |
| QoldsBuilderClass.QoldsBuilder.Valid | src/qolds_builder.hpp:103-117 | the tables are valid, dimensions is in 0..47 and digits in 0..10, there is one 20 x 20 matrix per dimension, each holding a digits x digits block, and the upload buffer is their flattened blocks |
| QoldsBuilderClass.QoldsBuilder.constructor | src/qolds_builder.hpp:103-117 | a builder over loaded tables starts with 0 dimensions, 0 digits and no matrices, data or seeds, so all getters read 0 or empty, and GetMaxPoints reads 1 (3^0) |
| QoldsBuilderClass.QoldsBuilder.FillMatrix | src/qolds_builder.cpp:271-284 | entry (r, c) on or above the diagonal becomes digit c-r of mk[c], and entries below keep their value |
| QoldsBuilderClass.QoldsBuilder.BuildMatrices | src/qolds_builder.cpp:89-134 | a rejected request changes nothing; an accepted one sets dimensions and digits, regenerates rows 1..dims in place and no other row, makes matrix d the generator matrix of row d+1, and keeps the flattened buffer equal to the flattened blocks |
| QoldsBuilderClass.QoldsBuilder.BuildAccepted | src/qolds_builder.cpp:103-130 | the state after the guard has passed, as in `BuildMatrices` |
| QoldsBuilderClass.QoldsBuilder.BuildAllDimensions | src/qolds_builder.cpp:106-130 | clearing and then the dimension loop leave the rows regenerated and one matrix per dimension, with the flattened buffer matching |
| QoldsBuilderClass.QoldsBuilder.BuildDimension | src/qolds_builder.cpp:113-129 | one iteration regenerates row d, appends the generator matrix of the new row and appends its m x m block |
| QoldsBuilderClass.QoldsBuilder.AppendBlock | src/qolds_builder.cpp:123-129 | the flattening loops append the top-left m x m block row by row |
| QoldsBuilderClass.QoldsBuilder.GenerateScrambleSeeds | src/qolds_builder.cpp:139-152 | the seed list is replaced by the first `m_dimensions` outputs of the engine, exactly one per dimension |
| QoldsBuilderClass.QoldsBuilder.GetMatrixData | src/qolds_builder.hpp:59-61 | the upload buffer is the flattened blocks and has dimensions*digits^2 entries |
| QoldsBuilderClass.QoldsBuilder.GetScrambleSeeds | src/qolds_builder.hpp:63-64 | returns the stored seeds |
| QoldsBuilderClass.QoldsBuilder.GetDimensions | src/qolds_builder.hpp:66-67 | the dimension count is below 48 and equals the number of matrices |
| QoldsBuilderClass.QoldsBuilder.GetDigits | src/qolds_builder.hpp:69-70 | returns the digit count of the last accepted build, at most 10, and every matrix has a block of that size |
| QoldsBuilderClass.QoldsBuilder.GetMaxPoints | src/qolds_builder.cpp:157-160 | the maximum number of points is exactly 3^digits, at least 1 |

## Left out

- `loadInitData` (`src/qolds_builder.cpp:31-84`) parses a text stream. The constructor takes
  the four tables as given arrays instead, with non-negative polynomial codes and counts
  in rows 1..47. Row 0 is never loaded or read.
- The random engine of `generateScrambleSeeds` (`std::random_device`,
  `std::default_random_engine`). The engine's k-th output from a seed is an abstract
  function parameter, and the hardware seed is a parameter too. Only the seed choice and the
  count and order of the draws are modelled.
- The default argument `masterSeed = 0` of `generateScrambleSeeds` (`src/qolds_builder.hpp:57`).
  Dafny has no default arguments; a call without a seed is `GenerateScrambleSeeds(0, deviceSeed, engine)`,
  which draws from the hardware seed.
- `getMaxPoints` calls floating-point `std::pow`. It is modelled as the exact integer 3^m,
  which is what it returns for m <= 10.
- Console and error logging are not modelled.
- 32-bit width. Values are unbounded integers. `TermFitsInt32` shows the terms of the
  recurrence stay below 2^31 for non-negative entries. Wrap-around is not modelled
  elsewhere.
- Negative or uninitialised entries. The model allows arbitrary integers in
  `m_sobol_mk`, including entries 10..19, which the recurrence never writes but
  `fillMatrix` reads. The range and bound lemmas require non-negative entries, as the code
  needs them to be.
- The base parameter of `generateMkGF3`. Its only caller passes 3, and the tables are
  base-3 specific, so the model fixes it to 3.
- QoldsBuilderClass.QoldsBuilder.BuildMatrices: implements the corrected guard
  `1 <= dimensions <= 47`, not the written `1 <= dimensions <= 48` (see Findings). At 48 the
  source reads past the end of its tables, which the model cannot express.
- QoldsBuilderClass.QoldsBuilder.GetScrambleSeeds: says nothing about the seeds' relation to
  the current dimension count. A later build can change `m_dimensions` without redrawing
  them, exactly as in the source.

## Findings

| source | as written | input that shows it | evidently intended | confidence | as-written member | corrected member |
|---|---|---|---|---|---|---|
| src/qolds_builder.cpp:91 | `dimensions > QOLDS_MAX_DIMENSIONS` rejects, so `dimensions == 48` passes. The loop `for d = 1..dimensions` then reads `m_sobol_aj[48]`, `m_sobol_sj[48]` and `m_sobol_mk[48]`, past the end of the 48-entry arrays (`src/qolds_builder.hpp:107-110`) | `buildMatrices(48, 1)` | accept 1..47 dimensions, so that rows 1..dimensions exist. The header comment at `src/qolds_builder.hpp:51` says "(1-48)", so the written bound may look deliberate; the 1..47 reading rests on the loader filling only rows 1..47 (`src/qolds_builder.cpp:63-64`) and on `tools/plot_convergence.py:189,238,275` reporting 47 dimensions | not executed | QoldsBuilderClass.AsWrittenAdmitsMissingRow | QoldsBuilderClass.QoldsBuilder.BuildMatrices |
