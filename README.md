# A verified model of the affine image-transform engine

This project models the engine behind the 2D image transformer:

- **Matrices.** A strided dense matrix over a shared flat buffer. It supports element access, views, products, dot products and an inverse by Gauss-Jordan elimination with partial pivoting.
- **Augmented systems.** The augmented system `[L | R]`. Its `gje` eliminates in place through one-row views and keeps the bookkeeping for the determinant.
- **Command language.** Scripts such as `scale(2) rotate(30) translate(1, -3)` are parsed into their 3 x 3 homogeneous matrices and multiplied left to right.
- **Transform.** It computes the bounding box of the transformed image and inverse-samples every destination pixel from the source image, rounding to the nearest pixel.
- **Earlier all-in-one script.** The same engine as first written in `index.js`: its pixel helpers, `makeBlue`, the argument check of `lighten`, the integer upscaler, and an earlier `inverse` and `transform`. Its `getPixel`, `setPixel`, `scale`, `rotate`, `translate`, `computeTransformMatrix` and `computeBoundingBox` are the same code as the module versions, so the same members model them.

The model is written in two layers:

- **Values.** `Mat`, `System`, `Command` and the pixel buffers are plain values. Their behaviour is given by functions: `InverseSpec`, `Gje`, `ParseCommands`, `TransformMatrixOf`, `PlanFor`, `IsUpscale`, and so on.
- **Objects.** The objects the source mutates are classes: `Matrix` over an `array<real>`, `AugmentedMatrix` over two matrices, and `Image` over an `array<byte>`. Each of their methods is proved to compute the value-level function.

The main properties proved are:

- the inverse is a two-sided inverse and the only one;
- `gje` on a square system with a pivot in every column yields the identity and the unique solution;
- on a square matrix with a pivot in every column, the determinant is `gje`'s `scaledDown`: (-1)^swaps times the product of the pivots divided out;
- the determinant of a diagonal matrix is the product of its diagonal, a matrix with a zero column has determinant 0, and a rotation has determinant 1;
- the worked determinant examples of tests/matrix.spec.mjs come out as stated there: 0 for the three matrices with a missing pivot, and -8, 8 and 8 for the matrices with a zero middle column;
- each elementary row operation preserves the solution set;
- parsing a well-formed script returns its commands, and each number's value;
- composing commands multiplies their matrices left to right;
- every pixel of a transformed image is blank or a pixel of the source, and every source pixel whose image falls on a whole pixel is found there;
- upscaling by `a` and then `b` is upscaling by `a * b`;
- the older `inverse` is wrong on 3 x 3 matrices in general, yet agrees with the newer one on every affine matrix.

Module map:

| file | module | source |
|---|---|---|
| wrappers.dfy | Wrappers | errors the engine raises, `Result`, `Outcome`, `Option` |
| numbers.dfy | Numbers | `Math.abs`, `Math.ceil`, `Math.round`, `x \| 0`, `EPSILON` |
| matrix_values.dfy | MatrixValues | matrices as values, elementary row operations |
| layout.dfy | Layouts | the strided buffer layout of matrix.mjs |
| elimination.dfy | Elimination | `Matrix.inverse` on values and its correctness |
| gauss_jordan.dfy | GaussJordan | `AugmentedMatrix.gje` and the determinant on values |
| determinant.dfy | Determinants | the determinant of diagonal, zero-column and rotation matrices and of the test matrices |
| matrix.dfy | Matrices | class `Matrix` of matrix.mjs |
| augmented.dfy | Augmented | class `AugmentedMatrix` of augmented-matrix.mjs |
| bitmap.dfy | Bitmaps | `ImageData`, `getPixel`, `setPixel` |
| commands.dfy | Commands | `parseTransformCommands` |
| transform.dfy | Transforms | generators, `computeTransformMatrix`, `computeBoundingBox`, `transform` |
| legacy_pixels.dfy | LegacyPixels | `lighten`'s check and `makeBlue` of index.js |
| legacy_inverse.dfy | LegacyInverse | the earlier `Matrix.inverse` of index.js |
| legacy_transform.dfy | LegacyTransform | the earlier `transform` of index.js |
| upscale.dfy | Upscale | `createUpscaleOfImageData` of index.js |

## Model

| member | source | states |
|---|---|---|
| Numbers.Abs | src/transform.mjs:160-167 | the magnitude: non-negative and equal to x or -x |
| Numbers.Ceil | src/transform.mjs:109-110 | `Math.ceil`: the least integer at or above x |
| Numbers.Trunc | src/transform.mjs:107-108 | truncation toward zero, for both signs |
| Numbers.Wrap32 | src/transform.mjs:107-108 | the 32-bit signed wrap: in range, congruent modulo 2^32, identity on 32-bit values |
| Numbers.ToInt32 | src/index.js:454 | `x \| 0`: a 32-bit signed integer, equal to the truncation for every in-range x |
| Numbers.Round | src/transform.mjs:179-180 | `Math.round`: the integer nearest to x, halves rounding up |
| MatrixValues.Dot | src/matrix.mjs:130-134 | the dot product summed from index 0; MatrixValues.DotSymmetric shows the order does not matter |
| MatrixValues.MatMul | src/matrix.mjs:74-87 | `multiply`: a rows(a) x cols(b) product whose cell (r, c) is the dot product of row r of a and column c of b |
| MatrixValues.SubMat | src/matrix.mjs:97-99 | the rows r0..r1 and columns c0..c1 of a matrix, a (r1 - r0) x (c1 - c0) matrix (the slice with offsets, see Findings) |
| MatrixValues.Identity | src/matrix.mjs:145-148 | an n x n matrix whose row r is the unit row r |
| MatrixValues.MatMulIdentityLeft | src/matrix.mjs:74-87 | the identity is a left unit of `multiply` |
| MatrixValues.MatMulIdentityRight | src/matrix.mjs:74-87 | the identity is a right unit of `multiply` |
| MatrixValues.MatMulSwapRows | src/matrix.mjs:152-174 | swapping two rows of a product is swapping them in its left factor |
| MatrixValues.MatMulScaleRow | src/matrix.mjs:176-179 | scaling a row of a product is scaling it in its left factor |
| MatrixValues.MatMulAddRowMultiple | src/matrix.mjs:183-191 | adding a row multiple in a product is adding it in its left factor |
| MatrixValues.SwapRowsUndo | src/matrix.mjs:152-174 | a row swap undoes itself |
| MatrixValues.ScaleRowUndo | src/matrix.mjs:176-179 | dividing a row by its pivot is undone by multiplying back |
| MatrixValues.AddRowMultipleUndo | src/matrix.mjs:183-191 | subtracting k times a row is undone by adding it back |
| MatrixValues.DotSymmetric | src/matrix.mjs:106-135 | the dot product does not depend on the order of its operands |
| Layouts.Root | src/matrix.mjs:11-24 | a fresh rows x cols layout fits a buffer of rows * cols entries |
| Layouts.Index | src/matrix.mjs:43-45 | `_computeDataIndex` lands inside the buffer the layout fits |
| Layouts.IndexInjective | src/matrix.mjs:43-45 | distinct (column, row) pairs have distinct buffer indices |
| Layouts.Read | src/matrix.mjs:53-56 | the matrix a layout shows: cell (r, c) is the buffer entry at its data index |
| Layouts.Sub | src/matrix.mjs:97-99 | a sub-window of a layout fits every buffer its parent fits |
| Layouts.ReadSub | src/matrix.mjs:97-99 | reading through a view is taking the sub-matrix of the parent |
| Layouts.ReadAfterWrite | src/matrix.mjs:64-67 | writing a buffer entry updates exactly that cell of the matrix |
| Layouts.OutsideFootprint | src/matrix.mjs:97-99 | cells of the parent outside a view lie outside the view's footprint |
| Layouts.ReadAfterViewWrite | src/augmented-matrix.mjs:22-26 | after writes confined to a view, the parent shows the view's new cells there and its old cells elsewhere |
| Layouts.RowViewWritten | src/augmented-matrix.mjs:22-26 | after writes through a one-row view, the parent differs only in that row, which is the view's row |
| Matrices.Entries | src/matrix.mjs:106-135 | the vector `dot` reads from a 1 x n or n x 1 matrix has n entries |
| Matrices.RowOfSub | src/augmented-matrix.mjs:22-26 | a one-row sub-matrix reads as that row |
| Matrices.ColumnOfSub | src/matrix.mjs:97-99 | a one-column sub-matrix reads as that column |
| Matrices.Matrix.constructor | src/matrix.mjs:11-24 | the given shape, row size and offsets; shares a given buffer or allocates a zero matrix |
| Matrices.Matrix.CheckBounds | src/matrix.mjs:32-36 | passes exactly for in-range (column, row), otherwise a RangeError |
| Matrices.Matrix.DataIndex | src/matrix.mjs:43-45 | an in-range cell's index lies in the buffer and the matrix's footprint |
| Matrices.Matrix.Get | src/matrix.mjs:53-56 | the value at (column, row) when in range, RangeError otherwise |
| Matrices.Matrix.Set | src/matrix.mjs:64-67 | in range, exactly one buffer entry changes and the matrix is updated at (column, row); out of range, a RangeError and nothing changes |
| Matrices.Matrix.Slice | src/matrix.mjs:97-99 | a fresh view on the same buffer whose value is the sub-matrix of the receiver |
| Matrices.Matrix.SliceAsWritten | src/matrix.mjs:97-99 | the view the source builds: offsets counted from the buffer's origin, not the receiver's |
| Matrices.Matrix.Copy | src/matrix.mjs:209-211 | a fresh buffer with the receiver's layout and value |
| Matrices.Matrix.CopyAsWritten | src/matrix.mjs:209-211 | the source's copy: the whole buffer copied, shown through an offset-free layout |
| Matrices.Matrix.ScaleInPlace | src/augmented-matrix.mjs:33 | every cell is multiplied by the factor; entries outside the matrix are unchanged |
| Matrices.Matrix.AddInPlace | src/augmented-matrix.mjs:42 | same shapes: the sum, cell by cell; different shapes: DimensionMismatch and nothing changes |
| Matrices.Matrix.RowSwap | src/augmented-matrix.mjs:52 | the two rows are exchanged; entries outside the matrix are unchanged |
| Matrices.Matrix.FindFirstRowWithPivot | src/augmented-matrix.mjs:111 | the first row at or below the column's diagonal whose entry is at least EPSILON in magnitude, or none |
| Matrices.Matrix.VectorLength | src/matrix.mjs:106-135 | defined exactly for a single row or a single column, and then its length |
| Matrices.Matrix.Dot | src/matrix.mjs:106-135 | DimensionMismatch unless both are vectors of one length; otherwise the sum of products of their entries |
| Matrices.Matrix.RowTimesColumn | src/matrix.mjs:80-84 | one cell of the product |
| Matrices.Matrix.Multiply | src/matrix.mjs:74-87 | DimensionMismatch exactly when the inner sizes differ; otherwise a fresh rows x other.cols matrix holding the product |
| Matrices.Matrix.Inverse | src/matrix.mjs:141-207 | fails exactly when the value-level inverse fails and with its error; otherwise a fresh matrix equal to it |
| Matrices.IdentityMatrix | src/matrix.mjs:145-148 | a fresh n x n identity |
| Matrices.PivotBoth | src/matrix.mjs:152-174 | reports a pivot exactly when one exists at or below the diagonal, and swaps it up in both matrices |
| Matrices.ForwardPass | src/matrix.mjs:151-192 | succeeds exactly when the value-level forward pass does, leaving its result in the pair; otherwise SingularMatrix |
| Matrices.ClearBelow | src/matrix.mjs:183-191 | every row below the pivot loses its multiple of the pivot row, in both matrices |
| Matrices.ClearAboveOfBoth | src/matrix.mjs:196-203 | every row above the pivot loses its multiple of the pivot row, in both matrices |
| Matrices.BackwardPass | src/matrix.mjs:194-204 | the pair holds the value-level backward pass of what it held |
| Matrices.DivideRowOfBoth | src/matrix.mjs:176-179 | the pivot row of both matrices is divided by the pivot |
| Matrices.CopyDropsOffsets | src/matrix.mjs:209-211 | for an offset matrix, the as-written copy shows a different first cell than the original |
| Matrices.SliceDropsOffsets | src/matrix.mjs:97-99 | for an offset matrix, the as-written slice shows a different first cell than the true sub-matrix |
| Elimination.SwapSolutions | src/matrix.mjs:152-174 | swapping two equations keeps the solution set |
| Elimination.ScaleSolutions | src/matrix.mjs:176-179 | scaling an equation by a non-zero factor keeps the solution set |
| Elimination.AddMultipleSolutions | src/matrix.mjs:183-191 | adding a multiple of one equation to another keeps the solution set |
| Elimination.ElimBelow | src/matrix.mjs:183-191 | every row below the pivot loses its column-i entry times the pivot row; the shape is kept |
| Elimination.InverseStep | src/matrix.mjs:152-191 | one column of the forward pass: pivot (SingularMatrix when no row has a usable pivot), divide the pivot row, clear below; the shape is kept |
| Elimination.Forward | src/matrix.mjs:151-192 | the forward loop over every column from i on; the shape is kept, and Elimination.ForwardReduced states what it leaves |
| Elimination.ClearAbove | src/matrix.mjs:195-203 | every row above the pivot loses its column-i entry times the pivot row; the shape is kept |
| Elimination.Backward | src/matrix.mjs:194-204 | the backward loop from the last column down; the shape is kept, and Elimination.BackwardCleared states what it leaves |
| Elimination.InverseSpec | src/matrix.mjs:141-207 | `inverse`: NotSquare for a non-square matrix, else the right side of [m \| I] after both passes; Elimination.InverseSpecCorrect and Elimination.InverseSpecUnique state what it returns |
| Elimination.FirstPivot | src/matrix.mjs:152-164 | the first row at or after `from` with a usable pivot, no usable pivot before it; none only if there is none |
| Elimination.Pivoted | src/matrix.mjs:152-174 | SingularMatrix exactly when the column has no usable pivot at or below the diagonal; otherwise a usable diagonal entry |
| Elimination.ForwardReduced | src/matrix.mjs:151-192 | a completed forward pass leaves unit diagonal and zeros below it |
| Elimination.BackwardCleared | src/matrix.mjs:194-204 | the backward pass clears everything above the unit diagonal |
| Elimination.ClearedIsIdentity | src/matrix.mjs:194-204 | a cleared square matrix is the identity |
| Elimination.ReductionKeeps | src/matrix.mjs:141-207 | the reduced pair keeps right * m == left and the solution set of [m \| I] |
| Elimination.ReductionIsIdentity | src/matrix.mjs:141-207 | when the forward pass succeeds, the left side ends as the identity |
| Elimination.InverseSpecReduces | src/matrix.mjs:141-207 | a returned inverse is the right side of a reduction whose left side is the identity |
| Elimination.InverseSpecCorrect | src/matrix.mjs:141-207 | a returned inverse is a two-sided inverse of a square matrix |
| Elimination.InverseSpecUnique | src/matrix.mjs:141-207 | a returned inverse is the only right inverse of the matrix |
| GaussJordan.ClearDown | src/augmented-matrix.mjs:86-92 | rows below the pivot lose -(entry / pivot) times the pivot row; the shape is kept |
| GaussJordan.ClearUp | src/augmented-matrix.mjs:86-92 | rows above the pivot lose -(entry / pivot) times the pivot row; the shape is kept |
| GaussJordan.ClearOut | src/augmented-matrix.mjs:69-93 | `clearOutRows` keeps the shape of the system |
| GaussJordan.ClearOutZeroes | src/augmented-matrix.mjs:69-93 | rows on the cleared side lose (entry / pivot) times the pivot row and get a zero in the pivot column; the other rows are unchanged |
| GaussJordan.GjeStep | src/augmented-matrix.mjs:109-125 | one forward column keeps the system's shape |
| GaussJordan.GjeForward | src/augmented-matrix.mjs:109-125 | the forward loop of `gje` over the columns from `row` on; the shape is kept, and GaussJordan.GjeForwardIsForward relates it to `inverse` |
| GaussJordan.GjeBackward | src/augmented-matrix.mjs:127-129 | the backward loop of `gje`: RangeError when `row` is past the last column, otherwise clears upward; the shape is kept |
| GaussJordan.Gje | src/augmented-matrix.mjs:103-135 | a successful `gje` keeps the shape of both sides |
| GaussJordan.GjeFails | src/augmented-matrix.mjs:127-129 | `gje` fails exactly when the system has two or more rows and more rows than columns, with a RangeError |
| GaussJordan.GjeKeeps | src/augmented-matrix.mjs:103-135 | `gje` keeps every relation right * m == left |
| GaussJordan.ClearDownIsElimBelow | src/augmented-matrix.mjs:69-93 | on a unit pivot, clearing downward is the elimination below of `inverse` |
| GaussJordan.ClearUpIsClearAbove | src/augmented-matrix.mjs:69-93 | on a unit pivot, clearing upward is the backward elimination of `inverse` |
| GaussJordan.GjeStepIsInverseStep | src/augmented-matrix.mjs:109-125 | when `inverse` can take a column, `gje` does the same to it |
| GaussJordan.GjeForwardIsForward | src/augmented-matrix.mjs:109-125 | when the forward pass of `inverse` succeeds, that of `gje` computes the same system |
| GaussJordan.GjeBackwardIsBackward | src/augmented-matrix.mjs:127-129 | the backward pass of `gje` is that of `inverse` on a reduced system |
| GaussJordan.GjeSolves | src/augmented-matrix.mjs:103-135 | on a square system with a pivot in every column, the left side ends as the identity and the right side is its unique solution |
| GaussJordan.DiagonalProduct | src/transform.mjs:160 | the product of the first k diagonal entries, which GaussJordan.DetOfPivoted and the Determinants lemmas use as the determinant of a triangle |
| GaussJordan.DetSpec | src/transform.mjs:160 | `determinant`: NotSquare for a non-square matrix, else `gje` on [m \| no columns] and its diagonal product scaled by `scaledDown`; GaussJordan.DetFails and GaussJordan.DetOfPivoted state what it returns |
| GaussJordan.DetFails | src/transform.mjs:160 | the determinant fails exactly for a non-square matrix, with NotSquare |
| GaussJordan.DetOfPivoted | src/transform.mjs:160 | when every column has a pivot, the determinant is `gje`'s `scaledDown` |
| Determinants.DetOfTriangularForward | src/augmented-matrix.mjs:103-135 | when the forward loop leaves the left side upper triangular, the determinant is its diagonal product times (-1)^swaps times the product of the pivots |
| Determinants.DetOfZeroColumn | src/augmented-matrix.mjs:109-135 | a square matrix with a zero column has determinant 0: no pass disturbs that column, so a zero stays on the diagonal |
| Determinants.DetOfDiagonal | src/augmented-matrix.mjs:109-135 | a square diagonal matrix has the product of its diagonal as its determinant, whichever entries are usable pivots |
| Determinants.DetOfScale | tests/matrix.spec.mjs:212-225 | `scale(x, y)` has determinant x * y |
| Determinants.DetOfRotation | tests/matrix.spec.mjs:226-232 | a rotation by any angle (cos^2 + sin^2 = 1) has determinant 1, both when the first pass pivots on cos and when it swaps the sin row up |
| Determinants.DetOfOnePivotExample | tests/matrix.spec.mjs:191-197 | (1, 2, 3), (3, 6, 9), (2, 4, 6) has determinant 0 |
| Determinants.DetOfMissingMiddlePivotExample | tests/matrix.spec.mjs:198-204 | (1, 2, 3), (3, 6, 7), (2, 4, 6) has determinant 0 |
| Determinants.DetOfMissingLastPivotExample | tests/matrix.spec.mjs:205-211 | (1, 2, 3), (3, 6, 9), (2, 4, 2) has determinant 0, although its last column has a pivot |
| Determinants.DetOfSwappedExample | tests/matrix.spec.mjs:233-238 | (2, 0, -2), (2, 0, 2), (0, 1, 0) has determinant -8: the second pass swaps once |
| Determinants.DetOfMiddleRowExample | tests/matrix.spec.mjs:239-243 | (2, 0, -2), (0, 1, 0), (2, 0, 2) has determinant 8 |
| Determinants.DetOfFullMiddleRowExample | tests/matrix.spec.mjs:244-248 | (2, 0, -2), (55, 1, 23), (2, 0, 2) has determinant 8 |
| Augmented.AugmentedMatrix.constructor | src/augmented-matrix.mjs:9-15 | the system of the two given matrices |
| Augmented.AugmentedMatrix.GetRow | src/augmented-matrix.mjs:22-26 | a fresh pair of one-row views on both buffers whose value is row `row` of both sides |
| Augmented.AugmentedMatrix.Multiply | src/augmented-matrix.mjs:32-35 | both sides are scaled by the factor in place |
| Augmented.AugmentedMatrix.Add | src/augmented-matrix.mjs:41-44 | DimensionMismatch unless both sides match in shape; the left side is added whenever its shapes match, even when the right side then fails |
| Augmented.AugmentedMatrix.RowSwap | src/augmented-matrix.mjs:51-54 | the two equations are exchanged on both sides |
| Augmented.AugmentedMatrix.Copy | src/augmented-matrix.mjs:60-62 | a fresh system with fresh buffers and the same value |
| Augmented.AugmentedMatrix.ClearOutRows | src/augmented-matrix.mjs:69-93 | RangeError when the pivot is off the diagonal; otherwise the value-level `clearOutRows` |
| Augmented.AugmentedMatrix.ClearDownward | src/augmented-matrix.mjs:86-92 | the rows below the pivot are cleared through the pivot row's view |
| Augmented.AugmentedMatrix.ClearUpward | src/augmented-matrix.mjs:86-92 | the rows above the pivot are cleared through the pivot row's view |
| Augmented.AugmentedMatrix.SubtractPivotRow | src/augmented-matrix.mjs:87-91 | one target row loses (entry / pivot) times the pivot row on both sides, the pivot row being copied with the corrected `copy` (see Findings) |
| Augmented.AugmentedMatrix.EliminateColumn | src/augmented-matrix.mjs:110-124 | one forward column, with the swap count and the product of pivots, as the value-level step |
| Augmented.AugmentedMatrix.DivideAndClear | src/augmented-matrix.mjs:122-124 | the pivot row is divided by its pivot, then the rows below are cleared |
| Augmented.AugmentedMatrix.ForwardPass | src/augmented-matrix.mjs:109-125 | the value-level forward pass, with its swap count and product of pivots |
| Augmented.AugmentedMatrix.BackwardPass | src/augmented-matrix.mjs:127-129 | the value-level backward pass, or its RangeError |
| Augmented.AugmentedMatrix.Gje | src/augmented-matrix.mjs:103-135 | fails exactly when value-level `gje` fails; otherwise both sides hold its result and `scaledDown` is its value |
| Augmented.NewAugmentedMatrix | src/augmented-matrix.mjs:9-15 | DimensionMismatch exactly when a given right side has another row count; without one, an n x 0 right side |
| Augmented.Det | tests/matrix.spec.mjs:190-250 | the value-level determinant: NotSquare, or the signed product of pivots `gje` divides by |
| Augmented.DiagonalProductOf | src/augmented-matrix.mjs:121 | the product of the diagonal entries |
| Bitmaps.PixelIn | src/bitmap.mjs:48-52 | the four bytes of pixel (x, y) in a width x height buffer |
| Bitmaps.WithPixel | src/bitmap.mjs:61-71 | the buffer with pixel (x, y) replaced by the four colours, of the same length; Bitmaps.GetAfterSet states what it reads back |
| Bitmaps.PixelInside | src/bitmap.mjs:48-52 | an in-range pixel's four bytes lie inside the buffer |
| Bitmaps.PixelsApart | src/bitmap.mjs:61-71 | different pixels, or different channels, use different bytes |
| Bitmaps.Image.constructor | src/transform.mjs:159 | `new ImageData(w, h)`: w x h pixels, every byte zero |
| Bitmaps.Image.GetPixel | src/bitmap.mjs:48-52 | the four bytes at (y * width + x) * 4 |
| Bitmaps.Image.SetPixel | src/bitmap.mjs:61-71 | out of range, nothing changes; in range, exactly that pixel takes the colours |
| Bitmaps.GetAfterSet | src/bitmap.mjs:61-71 | reading a pixel after setting one gives the colours set there and the old pixel elsewhere |
| Commands.IsWordChar | src/transform.mjs:51 | `\w`: an ASCII letter, digit or underscore |
| Commands.IsSpace | src/transform.mjs:51 | `\s`: the JavaScript white-space and line-terminator characters |
| Commands.MatchAll | src/transform.mjs:51-54 | `matchAll`: every match of a pattern from position i on, each scan resuming at the end of the previous match; Commands.RescanInsideNumber shows the resumption |
| Commands.ParseFloat | src/transform.mjs:57 | `parseFloat`: the sign, the whole digits and the fraction of the longest number prefix; Commands.NumeralValue states it for integers |
| Commands.Interpret | src/transform.mjs:59-62 | one command per match: its name and the inputs parsed from its arguments |
| Commands.ParseCommands | src/transform.mjs:50-65 | `parseTransformCommands` as a value: every command match of the string, interpreted; Commands.ScriptRoundTrip reads a written script back |
| Commands.RunEnd | src/transform.mjs:54 | the end of a run of one character class lies between the start and the end of the text |
| Commands.RunEndClass | src/transform.mjs:54 | a run ends where the class stops or at the end of the text, and every character before is in the class |
| Commands.MatchNumber | src/transform.mjs:54 | a number match starting at i lies in order inside the text |
| Commands.MatchCommand | src/transform.mjs:51 | a command match starting at i lies in order inside the text |
| Commands.ParseInputs | src/transform.mjs:54-58 | the loop collects exactly the value-level inputs of the arguments |
| Commands.InputsOfMatches | src/transform.mjs:54-58 | the inputs are `parseFloat` of each number match's first group, in order |
| Commands.ParseTransformCommands | src/transform.mjs:50-65 | the loop collects exactly the value-level command list |
| Commands.CommandShapes | src/transform.mjs:51 | every parsed command has a word name and arguments without a `)` |
| Commands.DigitsValueOfDigits | src/transform.mjs:57 | a written natural number reads back as its value |
| Commands.NumeralValue | src/transform.mjs:57 | `parseFloat` of a written integer is that integer |
| Commands.NumeralMatch | src/transform.mjs:54 | a written integer followed by blanks and a comma or the end is one number match |
| Commands.NoNumberAt | src/transform.mjs:54 | no number match starts at a character that is neither a digit nor `-` |
| Commands.ArgumentsRoundTrip | src/transform.mjs:54-58 | the arguments written from integers, comma-separated with any blanks, read back as those integers |
| Commands.ScriptRoundTrip | src/transform.mjs:50-65 | a script written from word names and integer arguments parses back to exactly those commands |
| Commands.RescanInsideNumber | src/transform.mjs:54 | `1.5.3` yields the single input 5.3: the scan resumes inside the refused number |
| Transforms.Scale | src/transform.mjs:9-18 | `scale(x, y)` is an affine matrix |
| Transforms.Rotate | src/transform.mjs:24-31 | `rotate` is an affine matrix |
| Transforms.Translate | src/transform.mjs:38-44 | `translate(x, y)` is an affine matrix |
| Transforms.AffineProduct | src/transform.mjs:90-91 | a product of affine matrices is affine |
| Transforms.ScalesCompose | src/transform.mjs:9-18 | two scalings compose to the scaling by the products |
| Transforms.TranslationsCompose | src/transform.mjs:38-44 | two translations compose to the translation by the sums |
| Transforms.UnitScaleIsIdentity | src/transform.mjs:82 | the starting matrix `scale(1, 1)` is the identity |
| Transforms.TranslationUndone | src/transform.mjs:38-44 | translating by (x, y) and then (-x, -y) is the identity |
| Transforms.ScaleUndone | src/transform.mjs:9-18 | scaling by (x, y) and then (1/x, 1/y) is the identity |
| Transforms.RotationUndone | src/transform.mjs:24-31 | rotating and then rotating back is the identity |
| Transforms.Generate | src/transform.mjs:73-81 | each supported command yields an affine matrix |
| Transforms.GenerateFails | src/transform.mjs:84-86 | a command is refused exactly when its name is unknown or it lacks a number; an unknown name gives UnsupportedCommand |
| Transforms.Compose | src/transform.mjs:82-93 | a successful composition is affine |
| Transforms.ComposeAppend | src/transform.mjs:83-92 | one more command multiplies the product so far on the right |
| Transforms.ComposeFails | src/transform.mjs:84-86 | composition fails exactly when some command is refused, with the first refusal's error |
| Transforms.EmptyCommandsGiveIdentity | src/transform.mjs:72-94 | an empty script gives the identity |
| Transforms.SingleCommand | src/transform.mjs:72-94 | a one-command script gives that command's matrix |
| Transforms.FlattenRead | src/transform.mjs:13-17 | a 3 x 3 matrix laid out row by row reads back as itself |
| Transforms.NewMatrix | src/transform.mjs:13-17 | a fresh 3 x 3 `Matrix` holding the given value |
| Transforms.TransformMatrixOf | src/transform.mjs:72-94 | `computeTransformMatrix` as a value: the commands composed onto the identity; Transforms.ComposeFails and Transforms.ComposeAppend state its result |
| Transforms.ComputeTransformMatrix | src/transform.mjs:72-94 | fails exactly as the value-level composition of the parsed script fails; otherwise a fresh 3 x 3 matrix with its value |
| Transforms.MapPoint | src/transform.mjs:173-180 | the point, moved to the origin, through rows 0 and 1 of the matrix, moved back; Transforms.MapPointProduct and Transforms.MapPointUndone state what it does |
| Transforms.MapPointProduct | src/transform.mjs:130-155 | mapping a point through a product is mapping it through each factor in turn |
| Transforms.MapPointIdentity | src/transform.mjs:130-155 | the identity maps every point to itself |
| Transforms.MapPointTranslate | src/transform.mjs:130-155 | a translation moves every point by its offsets |
| Transforms.MapPointUndone | src/transform.mjs:171-186 | mapping through the transform and then its inverse returns the point |
| Transforms.MinOf | src/transform.mjs:107-108 | `Math.min`: an element no greater than any other |
| Transforms.MaxOf | src/transform.mjs:109-110 | `Math.max`: an element no smaller than any other |
| Transforms.EdgesAround | src/transform.mjs:106-117 | every coordinate lies below the right edge; left lies at most one pixel beyond every coordinate, and below all of them when non-negative |
| Transforms.BoxOrdered | src/transform.mjs:106-117 | the box has left <= right and top <= bottom |
| Transforms.Sampler | src/transform.mjs:160-169 | an inverse the transform samples through is 3 x 3 |
| Transforms.PlanFor | src/transform.mjs:157-169 | the new image has positive size and holds the box |
| Transforms.PlanOf | src/transform.mjs:159-169 | the new image has positive size and holds the box |
| Transforms.PlanInverse | src/transform.mjs:160-169 | the inverse a plan samples through is a two-sided inverse of the transform |
| Transforms.SourcePoint | src/transform.mjs:173-180 | the rounded source point of a destination pixel, mapped through the inverse |
| Transforms.DestPixel | src/transform.mjs:171-186 | every destination pixel has four channels |
| Transforms.NoNewColours | src/transform.mjs:171-186 | every destination pixel is blank or some source pixel |
| Transforms.PixelLandsBack | src/transform.mjs:171-186 | a source pixel whose image is a whole destination pixel inside the box is found there |
| Transforms.SamplesBack | src/transform.mjs:171-186 | the same, for the canvas the loop paints |
| Transforms.RoundWhole | src/transform.mjs:179-180 | rounding a whole number gives it back |
| Transforms.OutsideBoxBlank | src/transform.mjs:171-186 | pixels of the new image beyond the box stay blank |
| Transforms.PaintPixel | src/transform.mjs:173-184 | one destination pixel either takes its sample or stays unchanged and blank |
| Transforms.MapBack | src/transform.mjs:173-180 | the rounded inverse image of a destination pixel |
| Transforms.PaintRow | src/transform.mjs:172-185 | one more row of the box is painted as wanted |
| Transforms.Paint | src/transform.mjs:171-186 | every pixel of the new image is the planned pixel |
| Transforms.AddOrigin | src/transform.mjs:151-155 | the origin is added back to x and y, the homogeneous entry untouched |
| Transforms.MultiplyColumn | src/transform.mjs:173-178 | the transform applied to the column (dx, dy, 1) |
| Transforms.MapExtremum | src/transform.mjs:130-155 | the image of a corner about the origin |
| Transforms.BoundingBox | src/transform.mjs:106-117 | top and left truncated from the least y and x, bottom and right rounded up from the greatest |
| Transforms.OriginOf | src/transform.mjs:125-127 | the given origin, or the centre of the image |
| Transforms.ComputeBoundingBox | src/transform.mjs:106-117 | the box of the four mapped corners |
| Transforms.Sample | src/transform.mjs:160-169 | the determinant test and the inverse, as the value-level sampler |
| Transforms.TransformWith | src/transform.mjs:124-194 | the result the plan of the given matrix delivers |
| Transforms.TransformInBox | src/transform.mjs:157-194 | the result the plan of the given box delivers |
| Transforms.Transform | src/transform.mjs:124-194 | a refused script raises its error; otherwise the result the plan of its matrix delivers |
| LegacyPixels.PercentCheck | src/index.js:70-73 | passes exactly for 0 <= percent <= 1, otherwise PercentOutOfRange |
| LegacyPixels.Blued | src/index.js:105-109 | a recoloured pixel keeps its alpha |
| LegacyPixels.BluedIdempotent | src/index.js:105-109 | recolouring twice is recolouring once |
| LegacyPixels.BluedChannels | src/index.js:97-109 | a pixel is unchanged exactly when it is all zero or already pure blue; any other becomes pure blue |
| LegacyPixels.NotWhite | src/index.js:97-103 | some channel of the pixel is not zero; LegacyPixels.FindNotWhite is the loop that decides it |
| LegacyPixels.FindNotWhite | src/index.js:97-103 | the scan finds a non-zero channel exactly when there is one |
| LegacyPixels.BlueStep | src/index.js:94-111 | recolouring the next pixel extends the recoloured prefix |
| LegacyPixels.MakeBlueRow | src/index.js:95-111 | one more row is recoloured |
| LegacyPixels.MakeBlue | src/index.js:90-113 | PercentOutOfRange changes nothing; otherwise every pixel is the recoloured old pixel |
| LegacyInverse.OldInverseStep | src/index.js:266-303 | one column of the earlier forward pass keeps the shape |
| LegacyInverse.ClearNext | src/index.js:297-303 | clearing only the next row keeps the shape |
| LegacyInverse.OldForward | src/index.js:265-304 | the earlier forward pass fails only with SingularMatrix |
| LegacyInverse.OldInverseSpec | src/index.js:255-319 | NotSquare for a non-square matrix, otherwise SingularMatrix or a square result |
| LegacyInverse.OldInverseAgreesUpToTwo | src/index.js:255-319 | up to 2 x 2, the earlier inverse equals the newer one and is a two-sided inverse |
| LegacyInverse.OldInverseOfUnitLower | src/index.js:297-303 | unit-diagonal lower-triangular matrices that are zero just below the diagonal all get the identity |
| LegacyInverse.OldInverseWrong | src/index.js:297-303 | the matrix with rows (1,0,0), (0,1,0), (1,0,1) gets the identity, which is not its inverse |
| LegacyInverse.OldInverseAgreesOnAffine | src/index.js:255-319 | on every affine matrix the earlier inverse equals the newer one |
| LegacyInverse.OldReductionKeeps | src/index.js:255-319 | the earlier reduction keeps right * m == left and the solution set of [m \| I] |
| LegacyInverse.OldInverseRecords | src/index.js:255-319 | the earlier result times m is what its reduction leaves on the left, so it is a two-sided inverse when that is the identity |
| LegacyInverse.OldForwardPass | src/index.js:265-304 | succeeds exactly when the value-level earlier forward pass does, leaving its result |
| LegacyInverse.OldInverseOfSquare | src/index.js:259-318 | fails exactly when the earlier forward pass does, with SingularMatrix; otherwise its value |
| LegacyInverse.OldInverse | src/index.js:255-319 | fails exactly as the value-level earlier inverse fails; otherwise a fresh matrix with its value |
| LegacyTransform.OldPlanOf | src/index.js:533-536 | fails exactly when the inverse fails or the box is empty; otherwise the box itself as the image size, sampling through the inverse |
| LegacyTransform.OldPlanFor | src/index.js:533-536 | the earlier transform always samples through a 3 x 3 inverse |
| LegacyTransform.OldPlanInverse | src/index.js:533-552 | on an affine transform, that inverse is two-sided |
| LegacyTransform.OldPlanAgrees | src/index.js:499-559 | on an affine transform that both accept, the earlier plan is the newer one |
| LegacyTransform.OldTransformInBox | src/index.js:533-558 | the result the earlier plan of the box delivers |
| LegacyTransform.OldTransformWith | src/index.js:499-559 | the result the earlier plan of the matrix delivers |
| LegacyTransform.OldTransform | src/index.js:499-559 | a refused script raises its error; otherwise the result the earlier plan of its matrix delivers |
| Upscale.IsUpscale | src/index.js:453-469 | the upscale by k: (w * k) x (h * k) pixels, pixel (x, y) being source pixel (x / k, y / k); Upscale.UpscaleUnique, Upscale.UpscaleByOne and Upscale.UpscaleTwice are about it |
| Upscale.BlockBase | src/index.js:460 | the byte offset of the top-left pixel of block (col, row) in the upscaled buffer |
| Upscale.SourcePixel | src/index.js:457-467 | upscaled pixel (x, y) is source pixel (x / k, y / k), which lies in the source |
| Upscale.PixelsDetermine | src/index.js:463 | two buffers with the same pixels are equal |
| Upscale.UpscaleUnique | src/index.js:453-469 | an image has only one upscale by a given factor |
| Upscale.UpscaleByOne | src/index.js:453-469 | upscaling by 1 gives the image back |
| Upscale.UpscaleTwice | src/index.js:453-469 | upscaling by a and then by b is upscaling by a * b |
| Upscale.UpscaleBlocks | src/index.js:460-465 | every pixel of the k x k block of source pixel (c, r) is that source pixel |
| Upscale.SetBytes | src/index.js:463 | `TypedArray.set`: the bytes replace the window at the offset, all else unchanged |
| Upscale.ReplicatePixel | src/index.js:461-465 | one more block of the row is written |
| Upscale.UpscaleRow | src/index.js:458-466 | one more source row is upscaled |
| Upscale.CreateUpscale | src/index.js:453-469 | InvalidImageSize exactly when a scaled dimension is not positive; otherwise a fresh image of the scaled size that is the upscale |

## Left out

- Numbers are mathematical reals. The engine stores matrices as `Float32Array` and computes in double precision, so rounding, NaN and infinities are not modelled. `EPSILON` is kept as 2^-52.
- `Math.sin`, `Math.cos` and `Math.PI` are not computed. `rotate(degrees)` takes the cosine and sine from a `Trig` parameter of the callers.
- Transforms.Generate: a command with too few numbers makes the source build a matrix of NaN. The model reports MissingArgument instead.
- Transforms.Generate: a name inherited from `Object.prototype` (`toString`, `valueOf`, `constructor`, `hasOwnProperty`, ...) passes the `commandMap[name]` test at src/transform.mjs:84. The source then calls that inherited function and fails later, at src/transform.mjs:90-91, with a different error. The model reports UnsupportedCommand for these names, as for any other name outside the table.
- Matrices.Matrix.Slice: requires the window to lie inside the matrix. src/matrix.mjs:97-99 accepts any window, but every caller (src/matrix.mjs:80-84, src/augmented-matrix.mjs:22-26) passes one that does.
- `Matrix.det`, `add`, `rowSwap`, `findFirstRowWithPivot` and `multiply` by a scalar are called by augmented-matrix.mjs and transform.mjs but are not defined in matrix.mjs. Their behaviour is taken from the call sites and from tests/matrix.spec.mjs.
- Augmented.Det: the determinant is `gje` on `[m | 0]`, the signed product of the pivots. Its value is proved for non-square input, for matrices with a pivot in every column, for diagonal, zero-column and rotation matrices, and for each matrix of the determinant tests. It is not proved equal to the exact determinant in general. A column whose entries are all below `EPSILON` but not all zero is skipped, and then the two can differ.
- A usable pivot is one whose magnitude is at least `EPSILON`. This follows the code, which compares `Math.abs`, rather than any other reading of "non-zero".
- `matchAll` resumes after each match. The model follows the code, which rescans from the end of the last match; Commands.RescanInsideNumber shows the effect on `1.5.3`.
- LegacyTransform.OldTransform: reads its script with the newer `parseTransformCommands`. The earlier parser at src/index.js:405 has an unescaped `.` in its number expression, so for example `(1,2)` reads as the single number 1. That difference is not modelled.
- LegacyPixels: the scaling loop of `lighten` (src/index.js:74-82) converts floats to clamped bytes. Only its argument check is modelled. The percent is a real, so the NaN that slips through the source's comparison is not modelled.
- Bitmaps.Image.GetPixel returns the pixel's bytes as a value. The source returns a `subarray` view, so writes through that view are modelled as `SetPixel` calls. It also requires the pixel to lie inside the image: outside it, `subarray` returns a short or empty array (src/bitmap.mjs:48-52), and every caller checks the range first (src/transform.mjs:181-183, src/index.js:459, src/index.js:547-549).
- `ImageData` has a size limit in the platform, which is not modelled. A non-positive dimension is the InvalidImageSize error.
- Matrices.Matrix.Copy keeps the receiver's layout, including any offsets, over a fresh copy of the buffer. See Findings.
- Augmented.AugmentedMatrix.SubtractPivotRow: subtracts a copy of the pivot row made with the corrected Matrices.Matrix.Copy. As written, src/augmented-matrix.mjs:89 copies the one-row view returned by `getRow(pivot)`, and src/matrix.mjs:209-211 rebuilds that copy over the whole buffer with no offsets, so for a pivot below the first row it would subtract buffer row 0. The tests at tests/augmented-matrix.spec.mjs:60-86 expect the corrected behaviour. Augmented.AugmentedMatrix.ClearOutRows, Augmented.AugmentedMatrix.Gje, Augmented.Det and Transforms.Sample are built on it.
- The editor, animation, study scripts and DOM, canvas and console I/O are not part of this model.

## Findings

| source | as written | input that shows it | evidently intended | confidence | as-written member | corrected member |
|---|---|---|---|---|---|---|
| src/matrix.mjs:97-99, 209-211 | `slice` counts its offsets from the buffer's origin and `copy` shows the copied buffer with no offsets, both ignoring the receiver's own offsets | a 2 x 2 view at row offset 1 of a buffer holding 0, 1, 2, …: its copy and its slices read row 0 of the buffer | the slice of a view is a view of its cells, and the copy of a matrix has its value | not executed | Matrices.Matrix.SliceAsWritten, Matrices.Matrix.CopyAsWritten, Matrices.SliceDropsOffsets, Matrices.CopyDropsOffsets | Matrices.Matrix.Slice, Matrices.Matrix.Copy, Augmented.AugmentedMatrix.SubtractPivotRow, Augmented.AugmentedMatrix.ClearOutRows, Augmented.AugmentedMatrix.Gje, Augmented.Det, Transforms.Sample |
| src/index.js:297-303 | the earlier `inverse` clears below the pivot only in row i + 1 | rows (1,0,0), (0,1,0), (1,0,1): returns the identity | every row below the pivot is cleared, as in src/matrix.mjs:183-191 | not executed | LegacyInverse.OldInverseSpec, LegacyInverse.OldInverseWrong | Elimination.InverseSpec, Elimination.InverseSpecCorrect |

The earlier `transform` is not affected by the second finding. Its matrices are affine, so every row below the second is already zero, and LegacyInverse.OldInverseAgreesOnAffine proves the two inverses agree there.
