# B-spline curve fitting, modelled in Dafny

This project models the numeric core of a Java program that fits a B-spline curve to a series of time-stamped points. Every `double` is an exact Dafny `real`. Each Java check for NaN or infinity becomes a zero-denominator test, an `Option` or an error result.

The model has ten modules, one file each:

- `Outcomes` (`outcomes.dfy`): the `Result` and `Option` types. Exceptions become `Err(IllegalArgument)`, `Err(IndexOutOfBounds)` and `Err(NullPointer)`. A `null` returned by the solver becomes `None`.
- `Sums` (`sums.dfy`): finite sums over an index range, used to specify matrix products.
- `Points` (`point.dfy`): `Point` and its internal division, the blend de Boor evaluation is built from.
- `Ranges` (`range.dfy`): `Range`, a closed parameter interval.
- `Matrices` (`matrix.dfy`): an immutable matrix and its operations. Functions specify what each operation computes. The loop-filled operations are methods that fill arrays and are proved equal to those functions.
- `LinearSolve` (`solve.dfy`): `Matrix.solve` and `Matrix.pivot`. The model keeps the source's in-place LU decomposition with partial pivoting on an array of rows and a row-exchange record, then forward and back substitution. It proves that a returned solution really solves the system, and that `null` is returned exactly when the square part of the matrix is singular.
- `LeastSquaresFit` (`least_squares.dfy`): the normal equations, and the Lagrange system for fits under equality constraints.
- `Splines` (`spline_curve.dfy`): the spline curve. It covers the constructor's checks, the binary search for a knot span, and de Boor evaluation over a copied window of control points.
- `Basis` (`basis.dfy`): uniform knot generation and the Cox–de Boor recursion `calculateWeight`, including its special cases at the first and last control point.
- `Interpolation` (`interpolator.dfy`): the two `interpolate` entry points. It covers the input checks, the weight matrix, the least-squares control points and building the curve.

Operations that loop or update arrays in the source are Dafny methods with loop invariants. Each is proved against a specification function. Operations that are pure expressions in the source are functions. Lemmas state the properties relating them.

## Model

| member | source | states |
|---|---|---|
| Points.CreateXYT | src/main/java/jp/sagalab/b3semi/Point.java:25-44 | the accessors return exactly the given x, y and time |
| Points.CreateXY | src/main/java/jp/sagalab/b3semi/Point.java:14-16 | the point has the given x and y and time 0 |
| Points.Point.InternalDivision | src/main/java/jp/sagalab/b3semi/Point.java:59-84 | a zero ratio sum returns this point unchanged; otherwise every component, time included, satisfies (tA + tB) * r == tB * this + tA * other |
| Points.InternalDivisionMidpoint | src/main/java/jp/sagalab/b3semi/Point.java:59-84 | ratios 1 : 1 give the midpoint |
| Points.InternalDivisionAtThis | src/main/java/jp/sagalab/b3semi/Point.java:59-84 | ratios 0 : r with r not 0 give this point |
| Points.InternalDivisionAtOther | src/main/java/jp/sagalab/b3semi/Point.java:59-84 | ratios r : 0 with r not 0 give the other point |
| Points.InternalDivisionScaleInvariant | src/main/java/jp/sagalab/b3semi/Point.java:46-84 | scaling both ratios by the same non-zero factor leaves the result unchanged ("1:4 is 0.2:0.8") |
| Points.InternalDivisionAffine | src/main/java/jp/sagalab/b3semi/Point.java:59-84 | ratios w : 1 - w give this + w * (other - this), the blend de Boor evaluation uses |
| Ranges.Create | src/main/java/jp/sagalab/b3semi/Range.java:20-31 | succeeds exactly when start <= end, with those ends; otherwise IllegalArgument |
| Ranges.ZeroToOne | src/main/java/jp/sagalab/b3semi/Range.java:38-43 | the interval [0, 1], of length 1 and middle 0.5 |
| Ranges.Range.Length | src/main/java/jp/sagalab/b3semi/Range.java:76-78 | start + length == end, and the length is non-negative on a valid range |
| Ranges.Range.Middle | src/main/java/jp/sagalab/b3semi/Range.java:67-69 | the middle is equally far from both ends and lies between them |
| Ranges.EndsAreInner | src/main/java/jp/sagalab/b3semi/Range.java:86-88 | isInner holds at start, at end and at the middle of a valid range |
| Ranges.IsInnerRangeIffContainsAll | src/main/java/jp/sagalab/b3semi/Range.java:96-98 | isInner(r) holds exactly when every value inside r is inside this range |
| Ranges.IsInnerRangeReflexive | src/main/java/jp/sagalab/b3semi/Range.java:96-98 | every valid range contains itself |
| Ranges.IsInnerRangeTransitive | src/main/java/jp/sagalab/b3semi/Range.java:96-98 | containment of ranges is transitive |
| Ranges.EqualsIffSame | src/main/java/jp/sagalab/b3semi/Range.java:107-120 | equals holds exactly for equal start and end |
| Matrices.Create | src/main/java/jp/sagalab/b3semi/Matrix.java:21-66 | succeeds exactly on a non-empty array with a non-empty first row and no ragged rows; the matrix then has exactly those rows and get(i, j) returns entry (i, j); every rejection is IllegalArgument |
| Matrices.Matrix.Get | src/main/java/jp/sagalab/b3semi/Matrix.java:120-128 | entry (i, j) inside the shape; IndexOutOfBounds past the last row or column |
| Matrices.Identity | src/main/java/jp/sagalab/b3semi/Matrix.java:102-110 | a size n <= 0 (zero or negative) fails with IllegalArgument, as the factory's column-count check at Matrix.java:85-86 does; otherwise n x n with 1 on the diagonal and 0 elsewhere |
| Matrices.Magnify | src/main/java/jp/sagalab/b3semi/Matrix.java:172-182 | every entry multiplied by the ratio, shape kept |
| Matrices.Transpose | src/main/java/jp/sagalab/b3semi/Matrix.java:189-200 | shape swapped and T(j, i) == A(i, j) |
| Matrices.Plus | src/main/java/jp/sagalab/b3semi/Matrix.java:210-227 | fails exactly on a row or column mismatch; otherwise the entrywise sum |
| Matrices.Minus | src/main/java/jp/sagalab/b3semi/Matrix.java:237-254 | fails exactly on a row or column mismatch; otherwise the entrywise difference |
| Matrices.Product | src/main/java/jp/sagalab/b3semi/Matrix.java:264-293 | fails exactly when A.cols != B.rows; otherwise an A.rows x B.cols matrix whose entry (i, k) is the sum over j of A(i, j) * B(j, k); skipping zero terms does not change it |
| Matrices.ConcatVertical | src/main/java/jp/sagalab/b3semi/Matrix.java:423-443 | fails exactly when the column counts differ; otherwise top's rows followed by bottom's |
| Matrices.ConcatHorizontal | src/main/java/jp/sagalab/b3semi/Matrix.java:454-474 | fails exactly when the row counts differ; otherwise each row is left's row followed by right's |
| Matrices.EqualsIffSame | src/main/java/jp/sagalab/b3semi/Matrix.java:483-496 | comparing the column count and the row-major entries holds exactly for equal matrices |
| Matrices.TransposeInvolution | src/main/java/jp/sagalab/b3semi/Matrix.java:189-200 | transposing twice gives the matrix back |
| Matrices.MulIdentityRight | src/main/java/jp/sagalab/b3semi/Matrix.java:264-293 | A.product(identity(A.cols)) == A |
| Matrices.MulIdentityLeft | src/main/java/jp/sagalab/b3semi/Matrix.java:264-293 | identity(A.rows).product(A) == A |
| Matrices.MinusUndoesPlus | src/main/java/jp/sagalab/b3semi/Matrix.java:210-254 | (A + B) - B == A |
| Matrices.AddedCommutes | src/main/java/jp/sagalab/b3semi/Matrix.java:210-227 | A + B == B + A |
| Matrices.ScaledCompose | src/main/java/jp/sagalab/b3semi/Matrix.java:172-182 | magnifying by 1 changes nothing; magnifying by a and then by b is magnifying by a * b |
| Matrices.TransposeOfProduct | src/main/java/jp/sagalab/b3semi/Matrix.java:264-293 | the transpose of A * B is B^T * A^T |
| Matrices.NormalMatrixSymmetric | src/main/java/jp/sagalab/b3semi/LeastSquares.java:17-18 | A^T * A is symmetric |
| Matrices.MulConcatV | src/main/java/jp/sagalab/b3semi/Matrix.java:423-443 | a vertically stacked matrix times X is the two products stacked |
| Matrices.MulConcatH | src/main/java/jp/sagalab/b3semi/Matrix.java:454-474 | [L R] * X == L * (top rows of X) + R * (bottom rows of X) |
| LinearSolve.Pivot | src/main/java/jp/sagalab/b3semi/Matrix.java:391-412 | exchanges row n with the first row at or below n whose column-n entry is strictly largest in absolute value; no exchange when the column is all zero; rows above n untouched; the exchange record is swapped in lockstep |
| LinearSolve.SwapPreservesMultiset | src/main/java/jp/sagalab/b3semi/Matrix.java:403-410 | the exchange record stays a permutation |
| LinearSolve.PivotIsLargest | src/main/java/jp/sagalab/b3semi/Matrix.java:326-333 | after pivoting, the pivot is at least as large in absolute value as every entry below it, so elimination's division never yields a non-finite value |
| LinearSolve.EliminateColumn | src/main/java/jp/sagalab/b3semi/Matrix.java:326-345 | one pivoting and elimination step keeps the factorisation invariant (the rows are the exchanged rows of L * U) and the exchange record a permutation |
| LinearSolve.Decompose | src/main/java/jp/sagalab/b3semi/Matrix.java:317-345 | the LU loop leaves the rows factored and the exchange record a permutation of 0 .. n-1 |
| LinearSolve.EliminateRow | src/main/java/jp/sagalab/b3semi/Matrix.java:330-339 | reducing row j against pivot row i: row j becomes `Reduced(old row j, pivot row, i, n)`, its multiplier elem[j][i] / pivot in column i and elem[j][k] - multiplier * elem[i][k] in each column k > i, and every other row is unchanged |
| LinearSolve.EliminateBelow | src/main/java/jp/sagalab/b3semi/Matrix.java:329-340 | the loop over the rows below the pivot, skipping zero entries, takes every row below i to the next stage of the factorisation (P * A == L * U through column i); with the pivot largest in its column the early `return null` is never taken |
| LinearSolve.ForwardEliminate | src/main/java/jp/sagalab/b3semi/Matrix.java:347-362 | forward substitution: row i of the result is row H[i] of B minus the multiples L(i, k) of the result rows k < i |
| LinearSolve.ForwardEntry | src/main/java/jp/sagalab/b3semi/Matrix.java:355-358 | the innermost forward loop gives entry (i, j) of the forward substitution, from B's row H[i] and the result rows above i |
| LinearSolve.BackEntry | src/main/java/jp/sagalab/b3semi/Matrix.java:369-372 | the inner back-substitution loop takes the multiples M[i][k] of the solved rows k > i off entry (i, j) of the forward result |
| LinearSolve.SubstituteRow | src/main/java/jp/sagalab/b3semi/Matrix.java:364-379 | one row of back substitution succeeds exactly when its diagonal entry is non-zero, and leaves the other rows alone |
| LinearSolve.BackSubstitute | src/main/java/jp/sagalab/b3semi/Matrix.java:364-379 | back substitution succeeds exactly when every diagonal entry of U is non-zero, and then holds the solution of the upper system |
| LinearSolve.SolutionSolves | src/main/java/jp/sagalab/b3semi/Matrix.java:347-381 | if the rows are the exchanged L * U with no zero on U's diagonal, the substituted result X satisfies (square part of A) * X == B |
| LinearSolve.ZeroPivotSingular | src/main/java/jp/sagalab/b3semi/Matrix.java:368-377 | a zero diagonal entry of U gives a non-zero kernel vector of A |
| LinearSolve.NonzeroPivotsRegular | src/main/java/jp/sagalab/b3semi/Matrix.java:364-381 | with every diagonal entry of U non-zero, A has no non-zero kernel vector |
| LinearSolve.Solve | src/main/java/jp/sagalab/b3semi/Matrix.java:309-382 | IllegalArgument when the row counts differ; IndexOutOfBounds when A has fewer columns than rows; null exactly when the leading square block of A is singular; otherwise an A.rows x B.cols matrix X with S * X == B for the leading square block S of A |
| LeastSquaresFit.NormalMatrixIsSquare | src/main/java/jp/sagalab/b3semi/LeastSquares.java:16-21 | A^T A is square and symmetric, so the solver uses all of it |
| LeastSquaresFit.Solve | src/main/java/jp/sagalab/b3semi/LeastSquares.java:16-21 | fails exactly when A.rows != b.rows; null exactly when A^T A is singular; otherwise an A.cols x b.cols X with (A^T A) X == A^T b |
| LeastSquaresFit.BuildLagrangeMatrix | src/main/java/jp/sagalab/b3semi/LeastSquares.java:36-39 | fails exactly when C.cols != A.cols; otherwise [[2 A^T A, C^T], [C, 0]] |
| LeastSquaresFit.SolveConstrained | src/main/java/jp/sagalab/b3semi/LeastSquares.java:32-44 | fails exactly on one of the four shape mismatches; null exactly when the Lagrange matrix is singular; otherwise a solution of the Lagrange system |
| LeastSquaresFit.LagrangeSolutionMeetsConstraint | src/main/java/jp/sagalab/b3semi/LeastSquares.java:32-44 | the first A.cols rows x of a solution satisfy C x == d and 2 A^T A x + C^T l == 2 A^T b |
| Splines.NonDecreasingIffSorted | src/main/java/jp/sagalab/b3semi/SplineCurve.java:38-47 | checking each knot against its predecessor is the same as every pair being in order |
| Splines.Create | src/main/java/jp/sagalab/b3semi/SplineCurve.java:24-49 | degree < 1 fails with IllegalArgument; too few knots for the range check fail with IndexOutOfBounds; otherwise succeeds exactly on a valid curve (range inside the knots' domain, |knots| == |cp| + degree - 1, knots non-decreasing), and every other rejection is IllegalArgument |
| Splines.SplineCurve.SearchKnotNum | src/main/java/jp/sagalab/b3semi/SplineCurve.java:86-112 | IndexOutOfBounds when min < 0 or max >= |knots|; IllegalArgument when min > max; max when knots[max] <= t; otherwise min < r <= max, with knots[r-1] <= t < knots[r] when knots[min] <= t, and on sorted knots the first index above t |
| Splines.SplineCurve.BinarySearch | src/main/java/jp/sagalab/b3semi/SplineCurve.java:97-111 | the do-while loop returns an index in (min, max] that brackets t, the first knot above t on sorted knots |
| Splines.SpanFromBrackets | src/main/java/jp/sagalab/b3semi/SplineCurve.java:97-111 | the first knot above t brackets t together with its predecessor |
| Splines.SplineCurve.LocateWindow | src/main/java/jp/sagalab/b3semi/SplineCurve.java:59 | fewer control points than the degree fails with IllegalArgument, exactly the degree with IndexOutOfBounds (the window copy); otherwise the span of t |
| Splines.SplineCurve.CopyWindow | src/main/java/jp/sagalab/b3semi/SplineCurve.java:61-62 | a fresh window holding cp[span - degree .. span] |
| Splines.SplineCurve.BlendEntry | src/main/java/jp/sagalab/b3semi/SplineCurve.java:66-68 | one blend of the inner loop: succeeds exactly on a non-zero denominator, replaces only part[m] |
| Splines.SplineCurve.BlendRound | src/main/java/jp/sagalab/b3semi/SplineCurve.java:65-69 | one round of the inner loop turns level i into level i + 1, failing exactly on a zero denominator |
| Splines.SplineCurve.BlendRounds | src/main/java/jp/sagalab/b3semi/SplineCurve.java:64-70 | the de Boor loops fail exactly when some blend on the span divides by zero, and otherwise leave the level-degree point in part[degree] |
| Splines.SplineCurve.Evaluate | src/main/java/jp/sagalab/b3semi/SplineCurve.java:57-74 | fewer control points than the degree fails with IllegalArgument, exactly the degree with IndexOutOfBounds; otherwise it fails with IllegalArgument exactly when some blend on the span of t divides by zero, and else returns the de Boor point of that span with time exactly t |
| Splines.SplineCurve.SpanBrackets | src/main/java/jp/sagalab/b3semi/SplineCurve.java:59 | inside the knots' domain the span evaluate picks brackets t |
| Splines.SplineCurve.SpanAtEnd | src/main/java/jp/sagalab/b3semi/SplineCurve.java:94-96 | the right end of the domain, t == knots[|knots|-degree], selects the last span |
| Splines.SplineCurve.NondegenerateSpan | src/main/java/jp/sagalab/b3semi/SplineCurve.java:64-70 | on sorted knots a span of positive length has no zero denominator |
| Splines.SplineCurve.EvaluateDefinedInside | src/main/java/jp/sagalab/b3semi/SplineCurve.java:57-74 | evaluate succeeds for every t in the closed domain [knots[degree-1], knots[|knots|-degree]] of a valid curve; at the right end, which searchKnotNum resolves to the last span, provided that span has positive length |
| Splines.SplineCurve.DegreeOneIsLinear | src/main/java/jp/sagalab/b3semi/SplineCurve.java:61-73 | for degree 1 the result is (1 - w) cp[r-1] + w cp[r] with w == (t - knots[r-1]) / (knots[r] - knots[r-1]) |
| Splines.SplineCurve.BlendedConstant | src/main/java/jp/sagalab/b3semi/SplineCurve.java:64-70 | blending equal control points gives that point at every level |
| Splines.SplineCurve.ConstantControlPoints | src/main/java/jp/sagalab/b3semi/SplineCurve.java:57-74 | a curve whose control points are all c evaluates to c's coordinates |
| Splines.SplineCurve.CopyRange | src/main/java/jp/sagalab/b3semi/SplineCurve.java:146-148 | range() rebuilds the range through Range.create: the same range, or IllegalArgument when it is reversed |
| Splines.SplineCurve.EqualsIffSame | src/main/java/jp/sagalab/b3semi/SplineCurve.java:157-176 | equals holds exactly for the same degree, knots and range and control points equal as values (coordinates and time); the source compares the control points by reference, see Left out |
| Basis.IntervalCount | src/main/java/jp/sagalab/b3semi/SplineCurveInterpolator.java:154 | n == ceil((end - start) / interval): at least 1, and n - 1 intervals fall short of the range while n cover it |
| Basis.CreateKnots | src/main/java/jp/sagalab/b3semi/SplineCurveInterpolator.java:149-163 | the loop fills the n + 2 degree - 1 uniform knots |
| Basis.UniformKnotsProperties | src/main/java/jp/sagalab/b3semi/SplineCurveInterpolator.java:149-163 | knot degree - 1 is start, knot n + degree - 1 is end, and the knots strictly increase in steps of at most the interval |
| Basis.CoefficientsGuarded | src/main/java/jp/sagalab/b3semi/SplineCurveInterpolator.java:239-242 | a general-case coefficient is its quotient on a non-zero denominator and 0 on a zero one |
| Basis.CalculateWeight | src/main/java/jp/sagalab/b3semi/SplineCurveInterpolator.java:215-246 | defined, with every knot read in bounds and the degree decreasing, for every index 0 .. |knots| - degree; finite at every index the recursion reaches below the top |
| Basis.NonFiniteOnlyAtBoundary | src/main/java/jp/sagalab/b3semi/SplineCurveInterpolator.java:221-230 | a weight is non-finite exactly at the first or last index when that boundary denominator is zero |
| Basis.DegreeZeroIsIndicator | src/main/java/jp/sagalab/b3semi/SplineCurveInterpolator.java:232-234 | degree 0 gives 1 exactly when knots[i-1] <= t < knots[i], and 0 otherwise |
| Basis.InnerSupport | src/main/java/jp/sagalab/b3semi/SplineCurveInterpolator.java:237-245 | on sorted knots an inner weight is 0 outside [knots[i-1], knots[i+degree]) |
| Basis.InnerNonnegative | src/main/java/jp/sagalab/b3semi/SplineCurveInterpolator.java:237-245 | on sorted knots every inner weight is non-negative |
| Basis.WeightNonnegative | src/main/java/jp/sagalab/b3semi/SplineCurveInterpolator.java:215-246 | on sorted knots every finite weight is non-negative, the boundary cases included |
| Basis.WeightsVanishAtLastKnot | src/main/java/jp/sagalab/b3semi/SplineCurveInterpolator.java:215-246 | at or after the last knot every finite weight is 0 |
| Basis.DegreeOneEndHasNoWeight | src/main/java/jp/sagalab/b3semi/SplineCurveInterpolator.java:149-163 | with degree 1 and uniform knots, the point at the end of the range gets weight 0 from every control point, so the last point's row of the weight matrix is all zero |
| Basis.IncreasingKnotsAreFinite | src/main/java/jp/sagalab/b3semi/SplineCurveInterpolator.java:221-230 | strictly increasing knots make both boundary denominators non-zero |
| Basis.CalculateWeights | src/main/java/jp/sagalab/b3semi/SplineCurveInterpolator.java:195-204 | |knots| - degree + 1 weights, entry i being calculateWeight(i); all finite exactly when both boundary denominators are non-zero |
| Interpolation.StrictlyIncreasingEnds | src/main/java/jp/sagalab/b3semi/SplineCurveInterpolator.java:48-60 | strictly increasing times start before they end, so Range.create then succeeds |
| Interpolation.CheckTimeSeriesAsWritten | src/main/java/jp/sagalab/b3semi/SplineCurveInterpolator.java:48-58 | the loop as written compares every time with negative infinity only |
| Interpolation.AsWrittenAcceptsOutOfOrder | src/main/java/jp/sagalab/b3semi/SplineCurveInterpolator.java:48-58 | the loop as written accepts times 0, 2, 1, 3, which go back in time |
| Interpolation.CheckTimeSeries | src/main/java/jp/sagalab/b3semi/SplineCurveInterpolator.java:48-58 | the intended check passes exactly when the times strictly increase |
| Interpolation.CheckPoints | src/main/java/jp/sagalab/b3semi/SplineCurveInterpolator.java:43-60 | fewer than two points fail with IllegalArgument, and so do times that do not strictly increase (the corrected time check of the Findings row); otherwise the range from the first to the last time |
| Interpolation.WeightMatrixEntries | src/main/java/jp/sagalab/b3semi/SplineCurveInterpolator.java:174-186 | entry (i, j) of the weight matrix is calculateWeight(knots, degree, j, time of point i) |
| Interpolation.WeightMatrixNonnegative | src/main/java/jp/sagalab/b3semi/SplineCurveInterpolator.java:174-186 | on sorted knots no entry of the weight matrix is negative |
| Interpolation.CreateWeightMatrix | src/main/java/jp/sagalab/b3semi/SplineCurveInterpolator.java:174-186 | IllegalArgument exactly for no points or a non-finite boundary weight; otherwise the |points| x (|knots| - degree + 1) weight matrix |
| Interpolation.ControlPointsOf | src/main/java/jp/sagalab/b3semi/SplineCurveInterpolator.java:264-268 | one control point per row of the solution, with that row's coordinates and time 0 |
| Interpolation.CalculateControlPoints | src/main/java/jp/sagalab/b3semi/SplineCurveInterpolator.java:255-271 | IllegalArgument for no points or a row mismatch; the null dereference exactly when W^T W is singular; otherwise one control point per weight-matrix column, at time 0, whose coordinates solve W^T W X == W^T P |
| Interpolation.Fit | src/main/java/jp/sagalab/b3semi/SplineCurveInterpolator.java:66-72 | fails exactly on a non-finite boundary weight, a singular normal matrix or knots that do not fit the range; otherwise a valid curve with the least-squares control points |
| Interpolation.IntervalKnots | src/main/java/jp/sagalab/b3semi/SplineCurveInterpolator.java:60-63 | the uniform knots over the points' range have finite boundary weights and fit the range |
| Interpolation.InterpolateWithInterval | src/main/java/jp/sagalab/b3semi/SplineCurveInterpolator.java:27-73 | degree < 1, interval <= 0, fewer than two points or out-of-order times (the corrected time check) fail with IllegalArgument; otherwise it fails exactly on a singular normal matrix (the null dereference), and else returns a valid curve over the points' range with the uniform knots and the least-squares control points |
| Interpolation.InterpolateWithKnots | src/main/java/jp/sagalab/b3semi/SplineCurveInterpolator.java:91-139 | degree < 1, at most 2 degree - 1 knots, fewer than two points or out-of-order times (the corrected time check) fail with IllegalArgument; otherwise it fails exactly on a non-finite boundary weight or knots that do not fit the range (IllegalArgument) or a singular normal matrix (the null dereference), and else returns a valid curve with the given knots and the least-squares control points |

## Left out

- Floating point: values are exact reals. The model does not capture rounding, overflow to infinity, or NaN propagation. Each "non-finite ⇒ fail / return this / return null" guard is a zero-denominator test.
- Non-finite inputs: the NaN and infinity checks in `Matrix.create`, `Matrix.magnify`, `Point.createXYT`, `Point.internalDivision`, `Range.create` and `SplineCurve.create` cannot fail on reals, so they are absent.
- Null inputs: arguments and array elements are never null in Dafny. The `NullPointerException` paths for null arguments and the "points include null" checks are not modelled. `Err(NullPointer)` appears only where the source dereferences the `null` that `Matrix.solve` returns.
- Matrix representation: a matrix is a sequence of rows, not a flat row-major array plus a column count. The private flat-array `create` is not modelled. `Matrices.EqualsIffSame` relates row equality to the source's flat comparison.
- Accessors: `rowSize`, `columnSize`, `elements`, `degree`, `controlPoints`, `knots`, `x`, `y`, `time`, `start` and `end` are datatype fields or one-line functions. Every value is immutable, so a returned copy is the value itself. Array aliasing between a curve and its caller is not modelled.
- Splines.SplineCurve.EqualsIffSame: compares control points by value, while the source compares them by reference. `Arrays.deepEquals` at SplineCurve.java:169 calls `Point.equals`, and `Point` (Point.java:6) declares no `equals`, so `Object.equals` (identity) applies. Two curves from separate `create` or `interpolate` calls with equal coordinates and times are unequal in the source and equal in the model. Points are immutable values here and have no identity to compare.
- `Matrices.Matrix.Get`: negative indices are excluded by the `nat` parameters.
- LinearSolve.Solve: the source does not check that A is square. When A has fewer columns than rows, reading `elem[i][i]` runs past a row, and the model returns IndexOutOfBounds. When A has more columns, the model solves with the leading square part, as the source does.
- `Matrix.solve`'s `System.err` warning, `toString` and `hashCode` are not modelled.
- `SplineCurve.copy` is not modelled. It calls a `copy` method that `Range` does not declare.
- Splines.SplineCurve.Evaluate: requires a curve that satisfies `create`'s checks. A curve built through the public constructor without them is not covered.
- Basis.CreateKnots: requires start < end. With start == end the source divides by a zero interval count. In the model the corrected time check guarantees start < end before CreateKnots is called. The source as written does not: times 1, 2, 1 pass its loop and Range.create(1, 1), and the interval count is ceil(0) == 0. What follows depends on the degree:
  - degree 1: `createKnots` returns a single NaN knot (SplineCurveInterpolator.java:154-159), and the first branch of `calculateWeight` reads `knots[0 + degree]`, which is `knots[1]`, at line 222. That read throws ArrayIndexOutOfBoundsException before `Matrix.create` is reached.
  - degree 2 or more: the 2 degree - 1 knots come out NaN or infinite, and `Matrix.create` rejects the resulting weights with IllegalArgumentException.
- Interpolation.CheckPoints, Interpolation.InterpolateWithInterval, Interpolation.InterpolateWithKnots: use the corrected time check from the Findings row, not the source's loop as written. As written (SplineCurveInterpolator.java:48-58 and 117-127), out-of-order times are rejected only when the first time is later than the last, by Range.create at lines 60 and 129. Other out-of-order series, such as times 0, 2, 1, 3, go on to the fit, where the model returns IllegalArgument.
- Interpolation.CreateWeightMatrix: requires 1 <= degree < |knots|. Both `interpolate` overloads guarantee this before calling it.
- Java `int` overflow is not modelled: the midpoint in `searchKnotNum`, the `(int)` cast of the ceiling in `createKnots`, and `2 * degree - 1`.
- Least-squares optimality beyond the normal equations is not stated. Neither is the partition of unity of the basis weights, which the source only meets up to rounding.
- The UI, CSV input and output, and plotting code are outside this model.

## Findings

| source | as written | input that shows it | evidently intended | confidence | as-written member | corrected member |
|---|---|---|---|---|---|---|
| src/main/java/jp/sagalab/b3semi/SplineCurveInterpolator.java:48-58 | the time-series loop never assigns `preTime`, so every time is compared with negative infinity and no order is rejected (the same loop at 117-127) | points with times 0, 2, 1, 3 pass the check | reject a time not later than the previous point's | not executed | Interpolation.CheckTimeSeriesAsWritten, Interpolation.AsWrittenAcceptsOutOfOrder | Interpolation.CheckTimeSeries |
