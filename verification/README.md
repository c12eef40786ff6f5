# Matrix library model

A Dafny model of the `Matrix` class of a small JavaScript linear-algebra
library (`src/matrix.js`), together with its fixed-size subclasses
`Matrix2`–`Matrix4` and `Vector2`–`Vector4`.

A matrix is a row count, a column count, a storage-order tag (`'row'` or
`'col'`) and one flat buffer of numbers. The model keeps those four parts
as the datatype `Matrices.Matrix`. The model takes requested counts to be
non-negative integers; the constructor turns a missing or zero count into
1, so every count in the model is at least 1 (negative counts are listed
under "Left out"). The buffer is a
`seq<real>` of any length, since the constructor adopts whatever array the
caller passes. `Matrices.WellFormed` says the buffer has exactly
`row * col` entries.

Every `throw` of the library becomes an `Err` of `Outcomes.Result`:

- 'not square';
- 'size not match';
- 'small' (from `cofactorrc`);
- 'not implemented';
- the `TypeError` raised when `detcofactor` calls the missing method `det`.

Methods that change the matrix in place (`setArray`, `add`,
`multiplyScalar`, `max`, `min`, `abs`) are functions that return the
updated matrix.

Modules, one per concern:

- `Outcomes`: error kinds, `Option`, `Result`.
- `IndexArith`: flat-offset arithmetic (`col * i + j`).
- `Matrices`: the matrix value, the constructor, `clone`, `setArray`, `getrc`,
  `CreateIdentity`, the fixed-size subclasses.
- `Layout`: `createTranspose`, `createMajor`, `cofactorrc`.
- `Determinant`: `trace`, `detcofactor`, and an independent determinant
  (`DetLaplace`, the row-0 cofactor expansion for any size) that the closed
  forms are proved against.
- `Sums`: the running sum behind `dot` and the product loops.
- `Arithmetic`: `add`, `makeAdd`, `multiplyScalar`, `makeMultiplyScalar`.
- `Products`: `mulfromright`, `mulfromleft`, `makeMultiply`.
- `Elementwise`: `dot`, `max`/`makeMax`, `min`/`makeMin`, `abs`, `makeCross`.
- `Characteristic`: `eigenequotion`, proved to give the coefficients of
  `det(A - x I)`, with `A - x I` built by `makeAdd` and `CreateIdentity`.

Numbers are modelled as mathematical reals, not IEEE doubles.

## Model

| member | source | states |
|---|---|---|
| Matrices.New | src/matrix.js:19-43 | A missing or zero row/column count becomes 1. The tag defaults to row-major. A caller buffer is adopted as is; otherwise the buffer is `row * col` zeros. The result is well formed exactly when no buffer was given or the given one has `row * col` entries. |
| Matrices.Clone | src/matrix.js:49-60 | Same shape and tag, a fresh well-formed buffer holding the first `row * col` entries; a well-formed matrix clones to itself. |
| Matrices.SetArray | src/matrix.js:66-72 | The first `min(len, values.length)` entries are overwritten with `values`. Later entries and the shape are kept. |
| Matrices.GetRC | src/matrix.js:172-180 | A row-major matrix keeps cell `(r, c)` at offset `col * r + c`, a column-major one at `row * c + r`; both offsets lie inside a well-formed buffer. |
| Matrices.OffsetInBounds | src/matrix.js:172-180 | Every in-range cell's `getrc` offset lies inside a well-formed buffer, in either storage order. |
| Matrices.OffsetInjective | src/matrix.js:172-180 | Distinct cells have distinct `getrc` offsets. |
| Matrices.CellOf | src/matrix.js:172-180 | Every buffer offset is the `getrc` offset of some cell. |
| Matrices.GetRCExtensional | src/matrix.js:172-180 | Two well-formed matrices of one shape and tag are equal exactly when `getrc` agrees on every cell. |
| Matrices.DiagonalOffset | src/matrix.js:87-90 | On an n by n grid, offset `n * i + j` is a multiple of `n + 1` exactly when `i == j`. |
| Matrices.CreateIdentity | src/matrix.js:80-92 | A row-major n by n matrix with `c` on the diagonal and 0 elsewhere. Size 0 gives a 1 by 1 zero matrix. |
| Matrices.Matrix2 | src/matrix.js:722-727 | A 2 by 2 row-major zero matrix. |
| Matrices.Matrix3 | src/matrix.js:733-738 | A 3 by 3 row-major zero matrix. |
| Matrices.Matrix4 | src/matrix.js:744-747 | A 4 by 4 row-major zero matrix. |
| Matrices.FixedIdentity | src/matrix.js:728-750 | `MatrixN.CreateIdentity()` is the unit identity of size N. |
| Matrices.Vector2 | src/matrix.js:760-764 | A 2 by 1 zero vector, whatever the argument. |
| Matrices.Vector3 | src/matrix.js:766-770 | A 3 by 1 zero vector, whatever the argument. |
| Matrices.Vector4 | src/matrix.js:772-776 | A 4 by 1 zero vector, whatever the argument. |
| Layout.CreateTranspose | src/matrix.js:129-135 | Shape swapped, tag flipped, buffer unchanged; cell `(j, i)` of the result is cell `(i, j)` of the matrix. |
| Layout.TransposeTwice | src/matrix.js:129-135 | Transposing twice gives the matrix back. |
| Layout.CreateMajor | src/matrix.js:142-165 | Same shape, requested tag. The same tag gives a clone. A square matrix keeps every cell. |
| Layout.ConvertedAtCell | src/matrix.js:156-161 | The value read at `row * i + j` lands at `col * j + i`. |
| Layout.CreateMajorLosesCell | src/matrix.js:142-165 | A 1 by 2 column-major `[1, 2]` converted to row-major reads 0 at cell (0, 1), where the input has 2. |
| Layout.CreateMajorIntended | src/matrix.js:137-141 | The documented conversion: same shape, requested tag, every cell kept, for any shape. |
| Layout.RelaidCell | src/matrix.js:137-141 | Reading the relaid buffer in the requested storage order gives back each cell of the matrix. |
| Layout.CreateMajorRoundTrip | src/matrix.js:137-141 | The documented conversion round-trips: converting to another storage order and back restores the matrix. (The library's `createMajor` does so only for square shapes; see Findings.) |
| Layout.CreateMajorSquareAgrees | src/matrix.js:142-165 | On square matrices the library's conversion equals the documented one. |
| Layout.SkipFlat | src/matrix.js:201-213 | The source offset of a minor cell stays inside the buffer. |
| Layout.MinorSource | src/matrix.js:199-226 | The offset the copy loop reads for each minor entry lies inside the buffer, in both storage orders. |
| Layout.Minor | src/matrix.js:188-230 | The minor has one row and one column fewer, the same tag, and a well-formed buffer. |
| Layout.MinorCell | src/matrix.js:199-226 | Cell `(i, j)` of the minor is the matrix cell reached by stepping over the struck row and column, in both storage orders. |
| Layout.Cofactor | src/matrix.js:188-230 | 'small' exactly when there are fewer than two rows or columns. Otherwise a well-formed matrix one row and one column smaller, in the same storage order; for `inrow` and `incol` inside the matrix, every cell is the original cell with row `inrow` and column `incol` struck. |
| Layout.MinorOfIdentity | src/matrix.js:188-230 | Striking row 0 and column 0 of an identity gives the identity one size smaller. |
| Determinant.StrideCell | src/matrix.js:242-247 | The loop's offset `(n + 1) * i` is diagonal cell `i` in either storage order. |
| Determinant.StrideSumIsDiagonalSum | src/matrix.js:242-247 | The strided sum the loop accumulates equals the sum of the diagonal cells. |
| Determinant.Trace | src/matrix.js:236-249 | 'not square' exactly for a non-square matrix. Otherwise the sum of the diagonal cells read through `getrc`. |
| Determinant.ComputeTrace | src/matrix.js:236-249 | The loop with its `offset += num + 1` step computes `Trace`. |
| Determinant.DetCofactor | src/matrix.js:316-347 | 'not square' for a non-square matrix. A call failure (missing `det`) from size 4 on. A value for sizes 1 to 3. |
| Determinant.DetRowsTwo | src/matrix.js:325-327 | The row-0 expansion of a 2 by 2 grid is `a d - b c`. |
| Determinant.DetRowsThree | src/matrix.js:328-335 | The row-0 expansion of a 3 by 3 grid is the closed form the source writes. |
| Determinant.DetCofactorTwo | src/matrix.js:325-327 | On 2 by 2 matrices the closed form is the determinant, in either storage order. |
| Determinant.DetCofactorThree | src/matrix.js:328-335 | On 3 by 3 matrices the closed form is the determinant, in either storage order. |
| Determinant.Det3Transpose | src/matrix.js:328-335 | The 3 by 3 closed form gives the same value on the transposed buffer, so a column-major buffer read as row-major loses nothing. |
| Determinant.DetCofactorIsExpansion | src/matrix.js:316-335 | For sizes 1 to 3, in either storage order, `detcofactor` equals the independent determinant `DetLaplace`. |
| Determinant.RowsOfMinor | src/matrix.js:188-230 | The rows of `cofactorrc(0, j)` are the matrix rows with row 0 and column `j` struck. |
| Determinant.MinorDeterminant | src/matrix.js:339-341 | The determinant of `cofactorrc(0, j)` is that of the struck grid. |
| Determinant.ExpansionStep | src/matrix.js:339-345 | An expansion with one more column adds that column's signed term. |
| Determinant.RowsExpansionStep | src/matrix.js:339-345 | Each expansion term is the entry in row 0 times the signed determinant of `cofactorrc(0, j)`. |
| Determinant.DetLaplaceExpandsCofactors | src/matrix.js:338-346 | For any size, the determinant is `sum_j (-1)^j a[0][j] det(cofactorrc(0, j))`. This is the loop the source intends. |
| Determinant.DetCofactorExpandsRowZero | src/matrix.js:316-346 | For sizes 2 and 3 the closed form succeeds, every `cofactorrc(0, j)` succeeds with the struck minor, every such minor's own `detcofactor` is its determinant, and the closed form equals the signed row-0 sum of those values. |
| Determinant.RowsOfIdentity | src/matrix.js:80-92 | The rows of `CreateIdentity(n, c)` are the diagonal grid. |
| Determinant.StrikeDiagonal | src/matrix.js:188-230 | Striking row 0 and column 0 of a diagonal grid leaves a smaller diagonal grid. |
| Determinant.FirstTermOnly | src/matrix.js:339-345 | When row 0 is zero past its first cell, only the first term survives. |
| Determinant.DetDiagonal | src/matrix.js:339-345 | A diagonal grid with `c` on the diagonal has determinant `c^n`. |
| Determinant.DetLaplaceIdentity | src/matrix.js:80-92 | `det(CreateIdentity(n, c)) == c^n` for every size. |
| Determinant.DetCofactorIdentity | src/matrix.js:316-335 | `detcofactor` of `CreateIdentity(n, c)` is `c^n` for sizes 1 to 3. |
| Determinant.DetCofactorFailsOnFour | src/matrix.js:338-346 | The 4 by 4 identity has determinant 1, yet `detcofactor` fails on it. |
| Determinant.ExpansionAsWritten | src/matrix.js:339-345 | On a row-major buffer (where `this.array[j]` is cell `(0, j)`), the loop as written gives the intended cofactor sum less twice its even-column terms: odd columns keep their sign, even columns have it flipped. |
| Determinant.ExpansionAsWrittenNegatesIdentity | src/matrix.js:342-343 | With the sign test as written, the loop gives `-c^n` for `CreateIdentity(n, c)` instead of `c^n`. |
| Determinant.DiagonalAsWritten | src/matrix.js:339-345 | With every cofactor negated, the loop over a diagonal grid gives `-c^n`. |
| Sums.InnerSymmetric | src/matrix.js:271-273 | The running sum of products does not depend on which operand comes first. |
| Sums.InnerUnit | src/matrix.js:271-273 | Summing against a unit vector picks out one entry. |
| Sums.InnerScale | src/matrix.js:271-273 | A factor on one operand comes out of the sum. |
| Sums.InnerSelf | src/matrix.js:98-105 | A buffer summed against itself is a sum of squares, so never negative. |
| Arithmetic.Add | src/matrix.js:356-368 | 'size not match' exactly when the shapes differ. Otherwise every offset becomes `this * c + mb * cb`, with the shape and tag kept. |
| Arithmetic.AddCells | src/matrix.js:356-368 | With equal storage orders, `add` works cell by cell. |
| Arithmetic.AddUndo | src/matrix.js:356-368 | Adding `cb * b` and then `-cb * b` gives the matrix back. |
| Arithmetic.AddIsScaledSum | src/matrix.js:356-368 | `add(mb, cb, c)` is a plain sum of `c * this` and `cb * mb`. |
| Arithmetic.MakeAdd | src/matrix.js:377-394 | The same size check and the same entries as `add`, in a new matrix labelled row-major. |
| Arithmetic.MakeAddIsAdd | src/matrix.js:377-394 | `makeAdd` is `add` relabelled row-major, and equals `add` on a row-major matrix. |
| Arithmetic.MakeAddOfColumnMajor | src/matrix.js:377-394 | On square column-major operands, `makeAdd` holds the transpose of the sum. |
| Arithmetic.MultiplyScalar | src/matrix.js:401-407 | Every buffer entry is multiplied by `k`; the shape and tag are kept. |
| Arithmetic.MultiplyScalarCells | src/matrix.js:401-407 | Every cell is multiplied by `k`. |
| Arithmetic.MultiplyScalarUndo | src/matrix.js:401-407 | Scaling by a non-zero `k` and then by `1 / k` restores the matrix. |
| Arithmetic.MakeMultiplyScalar | src/matrix.js:414-418 | A well-formed copy whose entries are those of the matrix times `k`. |
| Arithmetic.MakeMultiplyScalarIsMultiplyScalar | src/matrix.js:414-418 | On a well-formed matrix it equals the in-place scaling. |
| Products.RowMajorAtIsCell | src/matrix.js:250-256 | On row-major matrices the product loops read the true cells. |
| Products.ProductBufferCell | src/matrix.js:268-276 | Result offset `col * i + j` holds row `i` summed against column `j`. |
| Products.MulFromRight | src/matrix.js:257-278 | 'size not match' exactly when `this.col != rm.row`. Otherwise a row-major `this.row` by `rm.col` matrix. |
| Products.MulFromRightCell | src/matrix.js:268-276 | Cell `(i, j)` of the product is row `i` of `this` summed against column `j` of `rm`. |
| Products.MulFromLeft | src/matrix.js:285-310 | Its own loop (`num = this.row`, reading `lm.array[lm.col * i + k]` and `this.array[this.col * k + j]`) builds the same matrix as `lm.mulfromright(b)`, error case included. |
| Products.LeftAtIsProductAt | src/matrix.js:298-304 | Each sum `mulfromleft` computes for cell `(i, j)` is the sum `mulfromright` computes for that cell of `lm * this`. |
| Products.IdentityColumn | src/matrix.js:80-92 | Column `j` of `CreateIdentity(n, c)` is `c` times unit vector `j`. |
| Products.IdentityRow | src/matrix.js:80-92 | Row `i` of `CreateIdentity(n, c)` is `c` times unit vector `i`. |
| Products.RightIdentity | src/matrix.js:257-278 | `a * I == a` for row-major `a`. |
| Products.LeftIdentity | src/matrix.js:257-278 | `I * b == b` for row-major `b`. |
| Products.MulFromRightScalar | src/matrix.js:257-278 | Scaling the left operand scales the product. |
| Products.ScaledProductCell | src/matrix.js:268-276 | Cell by cell, a scaled left operand gives a scaled product cell. |
| Products.ScaledRowSlice | src/matrix.js:271-273 | The row the loop reads from a scaled matrix is the scaled row. |
| Products.MakeMultiply | src/matrix.js:424-441 | 'size not match' exactly when `this.col != b.row`. Otherwise a row-major matrix of `b.row` rows and `this.col` columns. |
| Products.MakeMultiplyIsTopLeftBlock | src/matrix.js:424-441 | Every cell `makeMultiply` produces is the matching cell of the true product. |
| Products.MakeMultiplySquareAgrees | src/matrix.js:424-441 | For square operands of one size, `makeMultiply` equals `mulfromright`. |
| Products.MakeMultiplyDropsCells | src/matrix.js:424-441 | A 2 by 1 column `[1, 2]` times a 1 by 2 row `[3, 4]` gives the 1 by 1 matrix `[3]`; the product is the 2 by 2 matrix `[3, 4, 6, 8]`. |
| Products.OuterCell | src/matrix.js:431-438 | For a column times a row, each computed cell is the product of two entries. |
| Elementwise.Dot | src/matrix.js:98-105 | With no common entries the result is 0, and a buffer dotted with itself is never negative. |
| Elementwise.ComputeDot | src/matrix.js:98-105 | The loop returns the sum of products over the first `min` of the two buffer lengths. |
| Elementwise.DotSymmetric | src/matrix.js:98-105 | `a.dot(b) == b.dot(a)`. |
| Elementwise.DotScale | src/matrix.js:98-105 | Scaling one operand by `k` scales the dot product by `k`. |
| Elementwise.DotAsProduct | src/matrix.js:98-105 | For column vectors of one length, `dot` is the 1 by 1 product of the first's transpose with the second. |
| Elementwise.DotOfThree | src/matrix.js:98-105 | With a 3-entry buffer, `dot` is the sum of the first three products. |
| Elementwise.Max | src/matrix.js:653-659 | Over the common length, each entry is one of the two and at least both. Later entries are kept. |
| Elementwise.Min | src/matrix.js:677-683 | Over the common length, each entry is one of the two and at most both. Later entries are kept. |
| Elementwise.MaxIdempotent | src/matrix.js:653-659 | Repeating `max` with the same operand changes nothing; `a.max(a)` is `a`. |
| Elementwise.MinIdempotent | src/matrix.js:677-683 | Repeating `min` with the same operand changes nothing; `a.min(a)` is `a`. |
| Elementwise.MaxMinCommute | src/matrix.js:653-683 | On equal-length buffers the order of the operands does not matter. |
| Elementwise.MaxPlusMin | src/matrix.js:653-683 | The larger and the smaller entry add up to the two entries. |
| Elementwise.MakeMax | src/matrix.js:666-670 | A well-formed copy whose entries are the larger of the two over the common length. |
| Elementwise.MakeMin | src/matrix.js:690-694 | A well-formed copy whose entries are the smaller of the two over the common length. |
| Elementwise.MakeMaxMinAgree | src/matrix.js:666-694 | On a well-formed matrix the copying forms equal the in-place forms. |
| Elementwise.Abs | src/matrix.js:700-706 | Every entry is non-negative and is the original entry or its negation. |
| Elementwise.AbsProperties | src/matrix.js:700-706 | `abs` is idempotent, ignores a sign flip, and equals `max(m, -m)`. |
| Elementwise.MakeCross | src/matrix.js:712-718 | A new row-major 3 by 1 vector. |
| Elementwise.CrossAntiCommutes | src/matrix.js:712-718 | `b x a == -(a x b)`. |
| Elementwise.CrossOrthogonal | src/matrix.js:712-718 | `a x b` is orthogonal to both `a` and `b` under `dot`. |
| Elementwise.CrossTermsCancel | src/matrix.js:712-718 | The three entries `makeCross` writes, summed against the matching entries of either operand, cancel to 0. |
| Elementwise.CrossOfAxes | src/matrix.js:712-718 | The x axis crossed with the y axis is the z axis. |
| Characteristic.EigenEquation | src/matrix.js:448-484 | 'not square' for a non-square matrix; 'not implemented' from size 4 on. Otherwise `n + 1` coefficients whose leading one is `(-1)^n`. |
| Characteristic.EvalLinear | src/matrix.js:454-456 | A two-coefficient list evaluates to `c0 + c1 x`. |
| Characteristic.EvalQuadratic | src/matrix.js:457-459 | A three-coefficient list evaluates to the quadratic. |
| Characteristic.EvalCubic | src/matrix.js:461-469 | A four-coefficient list evaluates to the cubic. |
| Characteristic.Shifted | src/matrix.js:377-394 | `A - x I` built with `makeAdd` is well formed, square, row-major. |
| Characteristic.ShiftedAt | src/matrix.js:80-92 | Offset `k` of `A - x I` is that of `A`, less `x` on the offsets that are multiples of `n + 1`. |
| Characteristic.TraceTwo | src/matrix.js:236-249 | The trace of a 2 by 2 matrix is buffer offsets 0 plus 3. |
| Characteristic.TraceThree | src/matrix.js:236-249 | The trace of a 3 by 3 matrix is buffer offsets 0, 4 and 8. |
| Characteristic.Det2Shift | src/matrix.js:325-327 | `det(A - x I)` for 2 by 2 is `x^2 - trace x + det`. |
| Characteristic.Det3Shift | src/matrix.js:328-335 | `det(A - x I)` for 3 by 3, as a cubic in `x`, has the coefficients `eigenequotion` lists. |
| Characteristic.ShiftedCharThree | src/matrix.js:461-469 | The 3 by 3 closed form of `A - x I` is the polynomial of those coefficients. |
| Characteristic.EigenThree | src/matrix.js:461-469 | The 3 by 3 coefficient list evaluates to that cubic. |
| Characteristic.ShiftedThree | src/matrix.js:328-335 | `detcofactor(A - x I)` for 3 by 3 equals that polynomial. |
| Characteristic.CharacteristicOne | src/matrix.js:454-456 | For size 1 the coefficients evaluate to `a0 - x = det(A - x I)`. |
| Characteristic.CharacteristicTwo | src/matrix.js:457-459 | For size 2 the coefficients evaluate to `det(A - x I)`. |
| Characteristic.CharacteristicThree | src/matrix.js:461-469 | For size 3 the coefficients evaluate to `det(A - x I)`. |
| Characteristic.EigenEquationIsCharacteristic | src/matrix.js:448-484 | For sizes 1 to 3 the coefficients are those of `det(A - x I)` as `detcofactor` computes it. They also match the independent determinant, in either storage order. |

## Left out

- `searchMin`, `search3`, `normalize`, `toString`, `totex`: root finding, normalisation (it divides by a square root) and text output are outside this model.
- The `Vector` base class: its constructor passes its argument to the matrix constructor unchanged, so it is `Matrices.New`.
- The wrapper that publishes the classes on a global object, and the demo and test pages: plumbing with no behaviour of its own.
- Numbers are reals. IEEE rounding, infinities, NaN, and the NaN behaviour of `Math.max`, `Math.min` and `Math.abs` are not modelled.
- Reads past the end of a buffer give `undefined` (then NaN) in JavaScript. The model requires in-range reads instead; this is the reason for the buffer-length preconditions below.
- Buffers longer than `row * col`: the constructor adopts a caller's array of any length, and the library would ignore the entries past `row * col`. `getrc`, `trace`, `createMajor`, `cofactorrc`, `detcofactor`, `add`, `makeAdd`, the products and `eigenequotion` require `Matrices.WellFormed` (exactly `row * col` entries), so the model does not cover them on longer buffers. `clone`, `createTranspose`, `makeMax`, `makeMin` and `makeMultiplyScalar` accept any buffer with at least `row * col` entries; `setArray`, `dot`, `max`, `min`, `abs` and `multiplyScalar` accept any length.
- Writes past the end of a typed array are ignored in JavaScript. The model keeps that in the two places where it happens: in `createMajor` for non-square shapes, and in `cofactorrc` when `inrow` or `incol` lies outside the matrix. There no row or column is skipped, so the copy loop writes more entries than the smaller result holds; `Layout.MinorSource` keeps only the entries that fit.
- Negative and fractional counts: `inopt?.row || 1` keeps a negative count (so `CreateIdentity(-1)` has row and column -1 and a one-entry buffer, and a negative buffer size throws a `RangeError`). The model takes counts as non-negative integers and does not cover these cases.
- Default parameters (`cb = 1`, `c = 1`, `incoeff = 1`) are explicit arguments.
- In-place mutation and aliasing: the methods that return `this` are functions returning the updated value.
- `detcofactor` from size 4 on: `det` does not exist on a matrix, so the loop fails on its first call. The loop's arithmetic is modelled separately in `Determinant.ExpansionAsWritten`, with `det` taken as the intended determinant, on row-major buffers only. The loop reads `this.array[j]`, which on a column-major buffer is cell `(j, 0)` while `cofactorrc(0, j)` still strikes row 0; that mixed expansion is not modelled.
- Layout.CreateMajor: requires `row <= col` when the tags differ. With more rows than columns the library reads past the buffer (NaN), and that case is not modelled.
- Layout.CreateMajor: promises kept cells only for square matrices. For other shapes see Findings.
- Products.MakeMultiply: requires `this.col <= this.row` and `this.col <= b.col` when the sizes match. Outside that range the loops read past the buffers.
- Products.MulFromRight: its contract gives the shape, and the cells are stated by `Products.MulFromRightCell`. Both operands are read as row-major whatever their tag, as the source documents ("row major only").
- Elementwise.MakeCross: requires at least three entries in each buffer; shorter buffers give NaN entries in the source. Its contract gives the shape only. The entries are stated by `Elementwise.CrossAntiCommutes`, `Elementwise.CrossOrthogonal` and `Elementwise.CrossOfAxes`.
- Arithmetic.Add: both buffers are read at the row-major offset `mb.col * i + j` whatever their tags. So with different storage orders, square operands are combined at mismatched cells. `Arithmetic.AddCells` states the cell-wise sum only for equal storage orders.
- Elementwise.MakeMax, Elementwise.MakeMin, Arithmetic.MakeMultiplyScalar, Matrices.Clone and Layout.CreateTranspose: require `row * col` entries at least; a shorter buffer makes the clone read `undefined`.
- Arithmetic.Add and Arithmetic.MakeAdd: require both operands well formed. The loops read offset `mb.col * i + j` of both buffers, and shorter buffers would give NaN.
- Determinant.DetCofactor: the contract gives the error cases only. The values are stated by `Determinant.DetCofactorIsExpansion`, `Determinant.DetCofactorExpandsRowZero` and `Determinant.DetCofactorIdentity`.

## Findings

| source | as written | input that shows it | evidently intended | confidence | as-written member | corrected member |
|---|---|---|---|---|---|---|
| src/matrix.js:156-161 | `createMajor` reads offset `row * i + j` and writes `col * j + i`, which are the offsets of a square matrix | a 1 by 2 column-major `[1, 2]` converted to row-major: cell (0, 1) becomes 0 instead of 2 | the same matrix under the other storage order (documented at lines 137-141) | high, not executed | Layout.CreateMajorLosesCell | Layout.CreateMajorIntended |
| src/matrix.js:430 | `makeMultiply` sizes its result `b.row` by `this.col` | a 2 by 1 `[1, 2]` times a 1 by 2 `[3, 4]` gives the 1 by 1 `[3]` | the `this.row` by `b.col` product, as `mulfromright` computes | high, not executed | Products.MakeMultiplyDropsCells | Products.MulFromRight |
| src/matrix.js:340-341 | `detcofactor` calls `det` on the minor from size 4 on; matrices have no such method | the 4 by 4 identity: the call fails | the minor's cofactor determinant, giving 1 | high, not executed | Determinant.DetCofactorFailsOnFour | Determinant.DetLaplaceExpandsCofactors |
| src/matrix.js:342 | the sign test `(j & 1 === 0)` parses as `j & (1 === 0)`, which is always 0, so every cofactor is negated | the 4 by 4 identity, with `det` supplied: the sum is -1 | `(-1)^j`, giving 1 | high, not executed | Determinant.ExpansionAsWritten, Determinant.ExpansionAsWrittenNegatesIdentity | Determinant.DetLaplaceIdentity |
