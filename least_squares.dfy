/** Least-squares fitting (LeastSquares.java): the normal equations, and the
    equality-constrained problem through its Lagrange system. */
module LeastSquaresFit {
  import opened Outcomes
  import opened Matrices
  import opened LinearSolve

  /** The normal matrix A^T * A. */
  function NormalMatrix(A: Matrix): (N: Matrix)
    requires A.Valid()
    ensures N.Valid() && N.HasShape(A.ColumnSize(), A.ColumnSize())
  {
    Mul(Transposed(A), A)
  }

  /** The normal right-hand side A^T * b. */
  function NormalRhs(A: Matrix, b: Matrix): (v: Matrix)
    requires A.Valid() && b.Valid() && A.RowSize() == b.RowSize()
    ensures v.Valid() && v.HasShape(A.ColumnSize(), b.ColumnSize())
  {
    Mul(Transposed(A), b)
  }

  /** The normal matrix is square, so the solver uses all of it. */
  lemma NormalMatrixIsSquare(A: Matrix)
    requires A.Valid()
    ensures SquarePart(NormalMatrix(A)) == NormalMatrix(A)
    ensures Transposed(NormalMatrix(A)) == NormalMatrix(A)
  {
    SquarePartOfSquare(NormalMatrix(A));
    NormalMatrixSymmetric(A);
  }

  /** LeastSquares.solve: x solving the normal equations A^T A x == A^T b.
      Fails when A and b have different row counts; `None` exactly when
      A^T A is singular. */
  method Solve(A: Matrix, b: Matrix) returns (r: Result<Option<Matrix>>)
    requires A.Valid() && b.Valid()
    ensures r.Err? <==> A.RowSize() != b.RowSize()
    ensures r.Err? ==> r.error == IllegalArgument
    ensures r.Ok? ==> (r.value.None? <==> Singular(NormalMatrix(A)))
    ensures r.Ok? && r.value.Some? ==>
      && A.RowSize() == b.RowSize()
      && r.value.value.Valid() && r.value.value.HasShape(A.ColumnSize(), b.ColumnSize())
      && Mul(NormalMatrix(A), r.value.value) == NormalRhs(A, b)
  {
    var aT := Transpose(A);
    var product := Product(aT, A);
    var aTA := product.value;
    var rhs := Product(aT, b);
    if rhs.Err? {
      return Err(rhs.error);
    }
    NormalMatrixIsSquare(A);
    r := LinearSolve.Solve(aTA, rhs.value);
  }

  /** The Lagrange system's matrix [[2 A^T A, C^T], [C, 0]]. */
  function LagrangeMatrix(A: Matrix, C: Matrix): (K: Matrix)
    requires A.Valid() && C.Valid() && C.ColumnSize() == A.ColumnSize()
    ensures K.Valid() && K.HasShape(A.ColumnSize() + C.RowSize(), A.ColumnSize() + C.RowSize())
  {
    ConcatV(ConcatH(Scaled(NormalMatrix(A), 2.0), Transposed(C)), ConcatH(C, Zeros(C.RowSize(), C.RowSize())))
  }

  /** The Lagrange system's right-hand side [2 A^T b; d]. */
  function LagrangeRhs(A: Matrix, b: Matrix, d: Matrix): (v: Matrix)
    requires A.Valid() && b.Valid() && d.Valid() && A.RowSize() == b.RowSize() && b.ColumnSize() == d.ColumnSize()
    ensures v.Valid() && v.HasShape(A.ColumnSize() + d.RowSize(), b.ColumnSize())
  {
    ConcatV(Scaled(NormalRhs(A, b), 2.0), d)
  }

  /** The left-hand side solveConstrained assembles, one block at a time;
      fails only when C and A have different column counts. */
  method BuildLagrangeMatrix(A: Matrix, aT: Matrix, C: Matrix) returns (r: Result<Matrix>)
    requires A.Valid() && C.Valid() && aT == Transposed(A)
    ensures r.Err? <==> C.ColumnSize() != A.ColumnSize()
    ensures r.Err? ==> r.error == IllegalArgument
    ensures r.Ok? ==> C.ColumnSize() == A.ColumnSize() && r.value == LagrangeMatrix(A, C)
  {
    var product := Product(aT, A);
    var twice := Magnify(product.value, 2.0);
    var cT := Transpose(C);
    var upper := ConcatHorizontal(twice, cT);
    if upper.Err? {
      return Err(upper.error);
    }
    var m := C.RowSize();
    var zeroRows := seq(m, i requires 0 <= i < m => seq(m, j requires 0 <= j < m => 0.0));
    var zero := Create(zeroRows);
    SameEntries(zero.value.rows, Zeros(m, m).rows);
    var lower := ConcatHorizontal(C, zero.value);
    r := ConcatVertical(upper.value, lower.value);
  }

  /** LeastSquares.solveConstrained: solves the Lagrange system of
      "minimise |A x - b|^2 subject to C x == d". Each shape mismatch fails
      with IllegalArgument, at the step the source reaches it; `None`
      exactly when the Lagrange matrix is singular. */
  method SolveConstrained(A: Matrix, b: Matrix, C: Matrix, d: Matrix) returns (r: Result<Option<Matrix>>)
    requires A.Valid() && b.Valid() && C.Valid() && d.Valid()
    ensures r.Err? <==>
      C.ColumnSize() != A.ColumnSize() || A.RowSize() != b.RowSize()
      || b.ColumnSize() != d.ColumnSize() || d.RowSize() != C.RowSize()
    ensures r.Err? ==> r.error == IllegalArgument
    ensures r.Ok? ==> (r.value.None? <==> Singular(LagrangeMatrix(A, C)))
    ensures r.Ok? && r.value.Some? ==>
      && C.ColumnSize() == A.ColumnSize() && A.RowSize() == b.RowSize()
      && b.ColumnSize() == d.ColumnSize() && d.RowSize() == C.RowSize()
      && r.value.value.Valid() && r.value.value.HasShape(A.ColumnSize() + C.RowSize(), b.ColumnSize())
      && Mul(LagrangeMatrix(A, C), r.value.value) == LagrangeRhs(A, b, d)
  {
    var aT := Transpose(A);
    var lhs := BuildLagrangeMatrix(A, aT, C);
    if lhs.Err? {
      return Err(lhs.error);
    }
    var aTb := Product(aT, b);
    if aTb.Err? {
      return Err(aTb.error);
    }
    var twiceATb := Magnify(aTb.value, 2.0);
    var rhs := ConcatVertical(twiceATb, d);
    if rhs.Err? {
      return Err(rhs.error);
    }
    SquarePartOfSquare(lhs.value);
    r := LinearSolve.Solve(lhs.value, rhs.value);
  }

  /** A solution of the Lagrange system splits into x (the first
      A.ColumnSize() rows) and the multipliers l (the rest); x meets the
      constraint C x == d, and 2 A^T A x + C^T l == 2 A^T b, the condition
      that makes x the constrained least-squares minimiser. */
  lemma LagrangeSolutionMeetsConstraint(A: Matrix, b: Matrix, C: Matrix, d: Matrix, X: Matrix)
    requires A.Valid() && b.Valid() && C.Valid() && d.Valid()
    requires C.ColumnSize() == A.ColumnSize() && A.RowSize() == b.RowSize()
    requires b.ColumnSize() == d.ColumnSize() && d.RowSize() == C.RowSize()
    requires X.Valid() && X.HasShape(A.ColumnSize() + C.RowSize(), b.ColumnSize())
    requires Mul(LagrangeMatrix(A, C), X) == LagrangeRhs(A, b, d)
    ensures Mul(C, TopRows(X, A.ColumnSize())) == d
    ensures Added(Mul(Scaled(NormalMatrix(A), 2.0), TopRows(X, A.ColumnSize())),
                  Mul(Transposed(C), BottomRows(X, A.ColumnSize())))
            == Scaled(NormalRhs(A, b), 2.0)
  {
    var n, m := A.ColumnSize(), C.RowSize();
    var upper := ConcatH(Scaled(NormalMatrix(A), 2.0), Transposed(C));
    var lower := ConcatH(C, Zeros(m, m));
    var x, l := TopRows(X, n), BottomRows(X, n);
    MulConcatV(upper, lower, X);
    MulConcatH(Scaled(NormalMatrix(A), 2.0), Transposed(C), X);
    MulConcatH(C, Zeros(m, m), X);
    MulZeros(m, m, l);
    AddedZeros(Mul(C, x));
    ConcatVInjective(Mul(upper, X), Mul(lower, X), Scaled(NormalRhs(A, b), 2.0), d);
  }
}
