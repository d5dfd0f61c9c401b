/** An immutable dense matrix (Matrix.java), without its linear solver,
    which is in module LinearSolve.

    The source keeps the entries in one row-major array plus a column count;
    this model keeps the same entries as a sequence of rows, which is what
    `elements()` exposes. Every operation that the source writes as loops
    filling a fresh array is a method here, filling a fresh `array2`, and is
    proved equal to a specification function whose own contract says what
    the result's entries are. */
module Matrices {
  import opened Outcomes
  import opened Sums

  /** The shape `Matrix.create(double[][])` accepts: at least one row, a
      non-empty first row, and every row as long as the first. */
  predicate IsRectangular(e: seq<seq<real>>) {
    |e| > 0 && |e[0]| > 0 && forall i :: 0 <= i < |e| ==> |e[i]| == |e[0]|
  }

  datatype Matrix = Matrix(rows: seq<seq<real>>) {

    /** The invariant every matrix built by the source satisfies. */
    predicate Valid() { IsRectangular(rows) }

    /** rowSize() */
    function RowSize(): nat { |rows| }

    /** columnSize() */
    function ColumnSize(): nat
      requires Valid()
    {
      |rows[0]|
    }

    /** |rows| == r and every row has c entries. */
    predicate HasShape(r: nat, c: nat) {
      |rows| == r && forall i :: 0 <= i < r ==> |rows[i]| == c
    }

    /** get(i, j): the entry, or an index error for a row or column past
        the end. */
    function Get(i: nat, j: nat): (v: Result<real>)
      requires Valid()
      ensures v.Ok? <==> i < RowSize() && j < ColumnSize()
      ensures v.Ok? ==> v.value == rows[i][j]
      ensures v.Err? ==> v.error == IndexOutOfBounds
    {
      if i >= RowSize() || j >= ColumnSize() then Err(IndexOutOfBounds) else Ok(rows[i][j])
    }

    /** elements(): a copy of the rows (a value, so the copy is the rows). */
    function Elements(): seq<seq<real>> { rows }
  }

  /** The entry at (i, j), or 0 outside the sequence: a total accessor
      for writing sums. */
  function At(e: seq<seq<real>>, i: int, j: int): real {
    if 0 <= i < |e| && 0 <= j < |e[i]| then e[i][j] else 0.0
  }

  /** Two row sequences with the same shape and the same entries are equal. */
  lemma SameEntries(a: seq<seq<real>>, b: seq<seq<real>>)
    requires |a| == |b|
    requires forall i :: 0 <= i < |a| ==> |a[i]| == |b[i]|
    requires forall i, j :: 0 <= i < |a| && 0 <= j < |a[i]| ==> a[i][j] == b[i][j]
    ensures a == b
  {
    forall i | 0 <= i < |a|
      ensures a[i] == b[i]
    {
      assert forall j :: 0 <= j < |a[i]| ==> a[i][j] == b[i][j];
    }
  }

  /** The rows of a two-dimensional array. */
  function ToRows(e: array2<real>): (r: seq<seq<real>>)
    reads e
    ensures |r| == e.Length0
    ensures forall i :: 0 <= i < e.Length0 ==> |r[i]| == e.Length1
    ensures forall i, j :: 0 <= i < e.Length0 && 0 <= j < e.Length1 ==> r[i][j] == e[i, j]
  {
    seq(e.Length0, i requires 0 <= i < e.Length0 reads e =>
      seq(e.Length1, j requires 0 <= j < e.Length1 reads e => e[i, j]))
  }

  // ---------------------------------------------------------------------
  // Specification functions: what each operation computes.
  // ---------------------------------------------------------------------

  /** The n x n identity matrix. */
  function IdentityOf(n: nat): (I: Matrix)
    requires n > 0
    ensures I.Valid() && I.HasShape(n, n)
    ensures forall i, j :: 0 <= i < n && 0 <= j < n ==> I.rows[i][j] == if i == j then 1.0 else 0.0
  {
    Matrix(seq(n, i requires 0 <= i < n => seq(n, j requires 0 <= j < n => if i == j then 1.0 else 0.0)))
  }

  /** The r x c zero matrix. */
  function Zeros(r: nat, c: nat): (Z: Matrix)
    requires r > 0 && c > 0
    ensures Z.Valid() && Z.HasShape(r, c)
    ensures forall i, j :: 0 <= i < r && 0 <= j < c ==> Z.rows[i][j] == 0.0
  {
    Matrix(seq(r, i requires 0 <= i < r => seq(c, j requires 0 <= j < c => 0.0)))
  }

  /** The transpose: shape swapped and T(j, i) == A(i, j). */
  function Transposed(A: Matrix): (T: Matrix)
    requires A.Valid()
    ensures T.Valid() && T.HasShape(A.ColumnSize(), A.RowSize())
    ensures forall i, j :: 0 <= i < A.RowSize() && 0 <= j < A.ColumnSize() ==> T.rows[j][i] == A.rows[i][j]
  {
    var r, c := A.RowSize(), A.ColumnSize();
    Matrix(seq(c, j requires 0 <= j < c => seq(r, i requires 0 <= i < r => A.rows[i][j])))
  }

  /** The elementwise sum of two matrices of one shape. */
  function Added(A: Matrix, B: Matrix): (S: Matrix)
    requires A.Valid() && B.HasShape(A.RowSize(), A.ColumnSize())
    ensures S.Valid() && S.HasShape(A.RowSize(), A.ColumnSize())
    ensures forall i, j :: 0 <= i < A.RowSize() && 0 <= j < A.ColumnSize() ==>
      S.rows[i][j] == A.rows[i][j] + B.rows[i][j]
  {
    var r, c := A.RowSize(), A.ColumnSize();
    Matrix(seq(r, i requires 0 <= i < r => seq(c, j requires 0 <= j < c => A.rows[i][j] + B.rows[i][j])))
  }

  /** The elementwise difference A - B of two matrices of one shape. */
  function Subtracted(A: Matrix, B: Matrix): (D: Matrix)
    requires A.Valid() && B.HasShape(A.RowSize(), A.ColumnSize())
    ensures D.Valid() && D.HasShape(A.RowSize(), A.ColumnSize())
    ensures forall i, j :: 0 <= i < A.RowSize() && 0 <= j < A.ColumnSize() ==>
      D.rows[i][j] == A.rows[i][j] - B.rows[i][j]
  {
    var r, c := A.RowSize(), A.ColumnSize();
    Matrix(seq(r, i requires 0 <= i < r => seq(c, j requires 0 <= j < c => A.rows[i][j] - B.rows[i][j])))
  }

  /** Every entry multiplied by `ratio`. */
  function Scaled(A: Matrix, ratio: real): (S: Matrix)
    requires A.Valid()
    ensures S.Valid() && S.HasShape(A.RowSize(), A.ColumnSize())
    ensures forall i, j :: 0 <= i < A.RowSize() && 0 <= j < A.ColumnSize() ==>
      S.rows[i][j] == A.rows[i][j] * ratio
  {
    var r, c := A.RowSize(), A.ColumnSize();
    Matrix(seq(r, i requires 0 <= i < r => seq(c, j requires 0 <= j < c => A.rows[i][j] * ratio)))
  }

  /** The terms A(i, j) * B(j, k) of the (i, k) entry of a product. */
  function Terms(A: Matrix, B: Matrix, i: int, k: int): int -> real {
    j => At(A.rows, i, j) * At(B.rows, j, k)
  }

  /** The (i, k) entry of the product A * B. */
  function Dot(A: Matrix, B: Matrix, i: int, k: int): real
    requires A.Valid()
  {
    Sum(0, A.ColumnSize(), Terms(A, B, i, k))
  }

  /** The matrix product: (A * B)(i, k) is the sum over j of A(i, j) * B(j, k). */
  function Mul(A: Matrix, B: Matrix): (P: Matrix)
    requires A.Valid() && B.Valid() && A.ColumnSize() == B.RowSize()
    ensures P.Valid() && P.HasShape(A.RowSize(), B.ColumnSize())
    ensures forall i, k :: 0 <= i < A.RowSize() && 0 <= k < B.ColumnSize() ==> P.rows[i][k] == Dot(A, B, i, k)
  {
    var r, c := A.RowSize(), B.ColumnSize();
    Matrix(seq(r, i requires 0 <= i < r => seq(c, k requires 0 <= k < c => Dot(A, B, i, k))))
  }

  /** `top` stacked on `bottom`: the leading rows are top's, the trailing bottom's. */
  function ConcatV(top: Matrix, bottom: Matrix): (V: Matrix)
    requires top.Valid() && bottom.Valid() && top.ColumnSize() == bottom.ColumnSize()
    ensures V.Valid() && V.HasShape(top.RowSize() + bottom.RowSize(), top.ColumnSize())
    ensures V.rows[..top.RowSize()] == top.rows && V.rows[top.RowSize()..] == bottom.rows
  {
    Matrix(top.rows + bottom.rows)
  }

  /** `left` beside `right`: each row is left's row followed by right's row. */
  function ConcatH(left: Matrix, right: Matrix): (H: Matrix)
    requires left.Valid() && right.Valid() && left.RowSize() == right.RowSize()
    ensures H.Valid() && H.HasShape(left.RowSize(), left.ColumnSize() + right.ColumnSize())
    ensures forall i :: 0 <= i < left.RowSize() ==>
      H.rows[i][..left.ColumnSize()] == left.rows[i] && H.rows[i][left.ColumnSize()..] == right.rows[i]
  {
    var r := left.RowSize();
    Matrix(seq(r, i requires 0 <= i < r => left.rows[i] + right.rows[i]))
  }

  /** The entries in row-major order: the source's internal array. */
  function Flatten(e: seq<seq<real>>): seq<real> {
    if e == [] then [] else e[0] + Flatten(e[1..])
  }

  // ---------------------------------------------------------------------
  // The operations of Matrix.java.
  // ---------------------------------------------------------------------

  /** Matrix.create(double[][]): rejects an empty array, an empty first row
      and ragged rows; otherwise the matrix has exactly the given rows. */
  method Create(e: seq<seq<real>>) returns (r: Result<Matrix>)
    ensures r.Ok? <==> IsRectangular(e)
    ensures r.Ok? ==> r.value.Valid() && r.value.rows == e
    ensures r.Ok? ==> forall i, j :: 0 <= i < |e| && 0 <= j < |e[i]| ==> r.value.Get(i, j) == Ok(e[i][j])
    ensures r.Err? ==> r.error == IllegalArgument
  {
    var rowSize := |e|;
    if rowSize == 0 {
      return Err(IllegalArgument);
    }
    var columnSize := |e[0]|;
    if columnSize == 0 {
      return Err(IllegalArgument);
    }
    for i := 0 to rowSize
      invariant forall i' :: 0 <= i' < i ==> |e[i']| == columnSize
    {
      if |e[i]| != columnSize {
        return Err(IllegalArgument);
      }
    }
    return Ok(Matrix(e));
  }

  /** Matrix.identity(n): the n x n identity. A size n <= 0 reaches the
      flat-array factory with column count n, which it rejects. */
  method Identity(n: int) returns (r: Result<Matrix>)
    ensures n <= 0 ==> r == Err(IllegalArgument)
    ensures n > 0 ==> r == Ok(IdentityOf(n))
  {
    if n <= 0 {
      return Err(IllegalArgument);
    }
    var elements := new real[n, n]((i, j) => 0.0);
    for i := 0 to n
      invariant forall i', j :: 0 <= i' < n && 0 <= j < n ==>
        elements[i', j] == if i' == j && i' < i then 1.0 else 0.0
    {
      elements[i, i] := 1.0;
    }
    var m := Matrix(ToRows(elements));
    SameEntries(m.rows, IdentityOf(n).rows);
    return Ok(m);
  }

  /** magnify: every entry scaled by the ratio (a real is never NaN or
      infinite, so the source's check on the ratio never fails). */
  method Magnify(A: Matrix, ratio: real) returns (S: Matrix)
    requires A.Valid()
    ensures S == Scaled(A, ratio)
  {
    var rowSize, columnSize := A.RowSize(), A.ColumnSize();
    var elements := new real[rowSize, columnSize];
    for i := 0 to rowSize
      invariant forall i', j :: 0 <= i' < i && 0 <= j < columnSize ==> elements[i', j] == A.rows[i'][j] * ratio
    {
      for j := 0 to columnSize
        invariant forall i', j' :: 0 <= i' < i && 0 <= j' < columnSize ==> elements[i', j'] == A.rows[i'][j'] * ratio
        invariant forall j' :: 0 <= j' < j ==> elements[i, j'] == A.rows[i][j'] * ratio
      {
        elements[i, j] := A.rows[i][j] * ratio;
      }
    }
    S := Matrix(ToRows(elements));
    SameEntries(S.rows, Scaled(A, ratio).rows);
  }

  /** transpose */
  method Transpose(A: Matrix) returns (T: Matrix)
    requires A.Valid()
    ensures T == Transposed(A)
  {
    var rowSize, columnSize := A.RowSize(), A.ColumnSize();
    var elements := new real[columnSize, rowSize];
    for i := 0 to rowSize
      invariant forall i', j :: 0 <= i' < i && 0 <= j < columnSize ==> elements[j, i'] == A.rows[i'][j]
    {
      for j := 0 to columnSize
        invariant forall i', j' :: 0 <= i' < i && 0 <= j' < columnSize ==> elements[j', i'] == A.rows[i'][j']
        invariant forall j' :: 0 <= j' < j ==> elements[j', i] == A.rows[i][j']
      {
        elements[j, i] := A.rows[i][j];
      }
    }
    T := Matrix(ToRows(elements));
    SameEntries(T.rows, Transposed(A).rows);
  }

  /** plus: fails on any row or column mismatch, else the elementwise sum. */
  method Plus(A: Matrix, B: Matrix) returns (r: Result<Matrix>)
    requires A.Valid() && B.Valid()
    ensures r.Err? <==> A.RowSize() != B.RowSize() || A.ColumnSize() != B.ColumnSize()
    ensures r.Err? ==> r.error == IllegalArgument
    ensures r.Ok? ==> r.value == Added(A, B)
  {
    var rowSize, columnSize := A.RowSize(), A.ColumnSize();
    if rowSize != B.RowSize() || columnSize != B.ColumnSize() {
      return Err(IllegalArgument);
    }
    var elements := new real[rowSize, columnSize];
    for i := 0 to rowSize
      invariant forall i', j :: 0 <= i' < i && 0 <= j < columnSize ==>
        elements[i', j] == A.rows[i'][j] + B.rows[i'][j]
    {
      for j := 0 to columnSize
        invariant forall i', j' :: 0 <= i' < i && 0 <= j' < columnSize ==>
          elements[i', j'] == A.rows[i'][j'] + B.rows[i'][j']
        invariant forall j' :: 0 <= j' < j ==> elements[i, j'] == A.rows[i][j'] + B.rows[i][j']
      {
        elements[i, j] := A.rows[i][j] + B.rows[i][j];
      }
    }
    var S := Matrix(ToRows(elements));
    SameEntries(S.rows, Added(A, B).rows);
    return Ok(S);
  }

  /** minus: fails on any row or column mismatch, else the elementwise
      difference (this - right). */
  method Minus(A: Matrix, B: Matrix) returns (r: Result<Matrix>)
    requires A.Valid() && B.Valid()
    ensures r.Err? <==> A.RowSize() != B.RowSize() || A.ColumnSize() != B.ColumnSize()
    ensures r.Err? ==> r.error == IllegalArgument
    ensures r.Ok? ==> r.value == Subtracted(A, B)
  {
    var rowSize, columnSize := A.RowSize(), A.ColumnSize();
    if rowSize != B.RowSize() || columnSize != B.ColumnSize() {
      return Err(IllegalArgument);
    }
    var elements := new real[rowSize, columnSize];
    for i := 0 to rowSize
      invariant forall i', j :: 0 <= i' < i && 0 <= j < columnSize ==>
        elements[i', j] == A.rows[i'][j] - B.rows[i'][j]
    {
      for j := 0 to columnSize
        invariant forall i', j' :: 0 <= i' < i && 0 <= j' < columnSize ==>
          elements[i', j'] == A.rows[i'][j'] - B.rows[i'][j']
        invariant forall j' :: 0 <= j' < j ==> elements[i, j'] == A.rows[i][j'] - B.rows[i][j']
      {
        elements[i, j] := A.rows[i][j] - B.rows[i][j];
      }
    }
    var D := Matrix(ToRows(elements));
    SameEntries(D.rows, Subtracted(A, B).rows);
    return Ok(D);
  }

  /** product: fails unless A's column count is B's row count; otherwise
      the matrix product. The source skips every multiply-add in which either
      factor is exactly 0; such a term adds 0 to the sum, so the result is
      the full sum over j of A(i, j) * B(j, k). */
  method Product(A: Matrix, B: Matrix) returns (r: Result<Matrix>)
    requires A.Valid() && B.Valid()
    ensures r.Err? <==> A.ColumnSize() != B.RowSize()
    ensures r.Err? ==> r.error == IllegalArgument
    ensures r.Ok? ==> A.ColumnSize() == B.RowSize() && r.value == Mul(A, B)
  {
    var columnSize, oRowSize := A.ColumnSize(), B.RowSize();
    if columnSize != oRowSize {
      return Err(IllegalArgument);
    }
    var rowSize, oColumnSize := A.RowSize(), B.ColumnSize();
    var elements := new real[rowSize, oColumnSize]((i, k) => 0.0);
    for i := 0 to rowSize
      invariant forall i', k :: 0 <= i' < i && 0 <= k < oColumnSize ==> elements[i', k] == Dot(A, B, i', k)
      invariant forall i', k :: i <= i' < rowSize && 0 <= k < oColumnSize ==> elements[i', k] == 0.0
    {
      for j := 0 to columnSize
        invariant forall i', k :: 0 <= i' < i && 0 <= k < oColumnSize ==> elements[i', k] == Dot(A, B, i', k)
        invariant forall i', k :: i < i' < rowSize && 0 <= k < oColumnSize ==> elements[i', k] == 0.0
        invariant forall k :: 0 <= k < oColumnSize ==> elements[i, k] == Sum(0, j, Terms(A, B, i, k))
      {
        if A.rows[i][j] != 0.0 {
          for k := 0 to oColumnSize
            invariant forall i', k' :: 0 <= i' < i && 0 <= k' < oColumnSize ==> elements[i', k'] == Dot(A, B, i', k')
            invariant forall i', k' :: i < i' < rowSize && 0 <= k' < oColumnSize ==> elements[i', k'] == 0.0
            invariant forall k' :: 0 <= k' < k ==> elements[i, k'] == Sum(0, j + 1, Terms(A, B, i, k'))
            invariant forall k' :: k <= k' < oColumnSize ==> elements[i, k'] == Sum(0, j, Terms(A, B, i, k'))
          {
            assert Sum(0, j + 1, Terms(A, B, i, k)) == Sum(0, j, Terms(A, B, i, k)) + A.rows[i][j] * B.rows[j][k];
            if B.rows[j][k] != 0.0 {
              elements[i, k] := elements[i, k] + A.rows[i][j] * B.rows[j][k];
            }
          }
        } else {
          forall k | 0 <= k < oColumnSize
            ensures Sum(0, j + 1, Terms(A, B, i, k)) == Sum(0, j, Terms(A, B, i, k))
          {
            assert Terms(A, B, i, k)(j) == 0.0;
          }
        }
      }
    }
    var P := Matrix(ToRows(elements));
    SameEntries(P.rows, Mul(A, B).rows);
    return Ok(P);
  }

  /** concatVertical: fails when the column counts differ; otherwise `top`
      above `bottom`. */
  method ConcatVertical(top: Matrix, bottom: Matrix) returns (r: Result<Matrix>)
    requires top.Valid() && bottom.Valid()
    ensures r.Err? <==> top.ColumnSize() != bottom.ColumnSize()
    ensures r.Err? ==> r.error == IllegalArgument
    ensures r.Ok? ==> top.ColumnSize() == bottom.ColumnSize() && r.value == ConcatV(top, bottom)
  {
    if top.ColumnSize() != bottom.ColumnSize() {
      return Err(IllegalArgument);
    }
    var topRows, bottomRows, columnSize := top.RowSize(), bottom.RowSize(), top.ColumnSize();
    var elements := new real[topRows + bottomRows, columnSize];
    for i := 0 to topRows
      invariant forall i', j :: 0 <= i' < i && 0 <= j < columnSize ==> elements[i', j] == top.rows[i'][j]
    {
      for j := 0 to columnSize
        invariant forall i', j' :: 0 <= i' < i && 0 <= j' < columnSize ==> elements[i', j'] == top.rows[i'][j']
        invariant forall j' :: 0 <= j' < j ==> elements[i, j'] == top.rows[i][j']
      {
        elements[i, j] := top.rows[i][j];
      }
    }
    for i := topRows to topRows + bottomRows
      invariant forall i', j :: 0 <= i' < topRows && 0 <= j < columnSize ==> elements[i', j] == top.rows[i'][j]
      invariant forall i', j :: topRows <= i' < i && 0 <= j < columnSize ==>
        elements[i', j] == bottom.rows[i' - topRows][j]
    {
      for j := 0 to columnSize
        invariant forall i', j' :: 0 <= i' < topRows && 0 <= j' < columnSize ==> elements[i', j'] == top.rows[i'][j']
        invariant forall i', j' :: topRows <= i' < i && 0 <= j' < columnSize ==>
          elements[i', j'] == bottom.rows[i' - topRows][j']
        invariant forall j' :: 0 <= j' < j ==> elements[i, j'] == bottom.rows[i - topRows][j']
      {
        elements[i, j] := bottom.rows[i - topRows][j];
      }
    }
    var e := ToRows(elements);
    SameEntries(e, ConcatV(top, bottom).rows);
    r := Create(e);
  }

  /** concatHorizontal: fails when the row counts differ; otherwise `left`
      beside `right`. */
  method ConcatHorizontal(left: Matrix, right: Matrix) returns (r: Result<Matrix>)
    requires left.Valid() && right.Valid()
    ensures r.Err? <==> left.RowSize() != right.RowSize()
    ensures r.Err? ==> r.error == IllegalArgument
    ensures r.Ok? ==> left.RowSize() == right.RowSize() && r.value == ConcatH(left, right)
  {
    if left.RowSize() != right.RowSize() {
      return Err(IllegalArgument);
    }
    var rowSize, leftColumns, rightColumns := left.RowSize(), left.ColumnSize(), right.ColumnSize();
    var elements := new real[rowSize, leftColumns + rightColumns];
    for i := 0 to rowSize
      invariant forall i', j :: 0 <= i' < i && 0 <= j < leftColumns ==> elements[i', j] == left.rows[i'][j]
    {
      for j := 0 to leftColumns
        invariant forall i', j' :: 0 <= i' < i && 0 <= j' < leftColumns ==> elements[i', j'] == left.rows[i'][j']
        invariant forall j' :: 0 <= j' < j ==> elements[i, j'] == left.rows[i][j']
      {
        elements[i, j] := left.rows[i][j];
      }
    }
    for i := 0 to rowSize
      invariant forall i', j :: 0 <= i' < rowSize && 0 <= j < leftColumns ==> elements[i', j] == left.rows[i'][j]
      invariant forall i', j :: 0 <= i' < i && leftColumns <= j < leftColumns + rightColumns ==>
        elements[i', j] == right.rows[i'][j - leftColumns]
    {
      for j := leftColumns to leftColumns + rightColumns
        invariant forall i', j' :: 0 <= i' < rowSize && 0 <= j' < leftColumns ==> elements[i', j'] == left.rows[i'][j']
        invariant forall i', j' :: 0 <= i' < i && leftColumns <= j' < leftColumns + rightColumns ==>
          elements[i', j'] == right.rows[i'][j' - leftColumns]
        invariant forall j' :: leftColumns <= j' < j ==> elements[i, j'] == right.rows[i][j' - leftColumns]
      {
        elements[i, j] := right.rows[i][j - leftColumns];
      }
    }
    var e := ToRows(elements);
    var H := ConcatH(left, right);
    forall i, j | 0 <= i < rowSize && 0 <= j < leftColumns + rightColumns
      ensures e[i][j] == H.rows[i][j]
    {
      if j < leftColumns {
        assert H.rows[i][..leftColumns][j] == left.rows[i][j];
      } else {
        assert H.rows[i][leftColumns..][j - leftColumns] == right.rows[i][j - leftColumns];
      }
    }
    SameEntries(e, H.rows);
    r := Create(e);
  }

  /** equals: the same entries in row-major order and the same column count. */
  predicate Equals(A: Matrix, B: Matrix)
    requires A.Valid() && B.Valid()
  {
    Flatten(A.rows) == Flatten(B.rows) && A.ColumnSize() == B.ColumnSize()
  }

  // ---------------------------------------------------------------------
  // Properties.
  // ---------------------------------------------------------------------

  /** Flattening rows that all have c entries gives |e| * c entries, row i
      occupying positions i * c up to (i + 1) * c. */
  lemma {:induction false} FlattenPrefix(e: seq<seq<real>>, c: nat)
    requires |e| > 0 && forall i :: 0 <= i < |e| ==> |e[i]| == c
    ensures |Flatten(e)| >= c && Flatten(e)[..c] == e[0] && Flatten(e)[c..] == Flatten(e[1..])
  {
  }

  /** Flattening is injective on row sequences of a common row length. */
  lemma {:induction false} FlattenInjective(a: seq<seq<real>>, b: seq<seq<real>>, c: nat)
    requires forall i :: 0 <= i < |a| ==> |a[i]| == c
    requires forall i :: 0 <= i < |b| ==> |b[i]| == c
    requires c > 0
    requires Flatten(a) == Flatten(b)
    ensures a == b
    decreases |a|
  {
    if a == [] {
      if b != [] {
        assert false;
      }
    } else {
      if b == [] {
        assert false;
      } else {
        FlattenPrefix(a, c);
        FlattenPrefix(b, c);
        FlattenInjective(a[1..], b[1..], c);
        assert a == [a[0]] + a[1..] && b == [b[0]] + b[1..];
      }
    }
  }

  /** equals holds exactly when the two matrices are the same value. */
  lemma EqualsIffSame(A: Matrix, B: Matrix)
    requires A.Valid() && B.Valid()
    ensures Equals(A, B) <==> A == B
  {
    if Equals(A, B) {
      FlattenInjective(A.rows, B.rows, A.ColumnSize());
    }
  }

  /** Transposing twice gives back the matrix. */
  lemma TransposeInvolution(A: Matrix)
    requires A.Valid()
    ensures Transposed(Transposed(A)) == A
  {
    SameEntries(Transposed(Transposed(A)).rows, A.rows);
  }

  /** A * I == A. */
  lemma MulIdentityRight(A: Matrix)
    requires A.Valid()
    ensures Mul(A, IdentityOf(A.ColumnSize())) == A
  {
    var n := A.ColumnSize();
    var I := IdentityOf(n);
    var P := Mul(A, I);
    forall i, k | 0 <= i < A.RowSize() && 0 <= k < n
      ensures P.rows[i][k] == A.rows[i][k]
    {
      SumSingle(0, n, k, Terms(A, I, i, k));
    }
    SameEntries(P.rows, A.rows);
  }

  /** I * A == A. */
  lemma MulIdentityLeft(A: Matrix)
    requires A.Valid()
    ensures Mul(IdentityOf(A.RowSize()), A) == A
  {
    var n := A.RowSize();
    var I := IdentityOf(n);
    var P := Mul(I, A);
    forall i, k | 0 <= i < n && 0 <= k < A.ColumnSize()
      ensures P.rows[i][k] == A.rows[i][k]
    {
      SumSingle(0, n, i, Terms(I, A, i, k));
    }
    SameEntries(P.rows, A.rows);
  }

  /** minus undoes plus. */
  lemma MinusUndoesPlus(A: Matrix, B: Matrix)
    requires A.Valid() && B.HasShape(A.RowSize(), A.ColumnSize())
    ensures Subtracted(Added(A, B), B) == A
  {
    SameEntries(Subtracted(Added(A, B), B).rows, A.rows);
  }

  /** plus is commutative. */
  lemma AddedCommutes(A: Matrix, B: Matrix)
    requires A.Valid() && B.HasShape(A.RowSize(), A.ColumnSize())
    ensures Added(A, B) == Added(B, A)
  {
    SameEntries(Added(A, B).rows, Added(B, A).rows);
  }

  /** Scaling by 1 changes nothing, and two scalings compose. */
  lemma ScaledCompose(A: Matrix, a: real, b: real)
    requires A.Valid()
    ensures Scaled(A, 1.0) == A
    ensures Scaled(Scaled(A, a), b) == Scaled(A, a * b)
  {
    SameEntries(Scaled(A, 1.0).rows, A.rows);
    SameEntries(Scaled(Scaled(A, a), b).rows, Scaled(A, a * b).rows);
  }

  /** The transpose of a product is the product of the transposes in the
      other order. */
  lemma TransposeOfProduct(A: Matrix, B: Matrix)
    requires A.Valid() && B.Valid() && A.ColumnSize() == B.RowSize()
    ensures Transposed(Mul(A, B)) == Mul(Transposed(B), Transposed(A))
  {
    var L := Transposed(Mul(A, B));
    var BT, AT := Transposed(B), Transposed(A);
    var R := Mul(BT, AT);
    forall k, i | 0 <= k < B.ColumnSize() && 0 <= i < A.RowSize()
      ensures L.rows[k][i] == R.rows[k][i]
    {
      SumExt(0, A.ColumnSize(), Terms(A, B, i, k), Terms(BT, AT, k, i));
    }
    SameEntries(L.rows, R.rows);
  }

  /** The normal-equations matrix A^T * A is symmetric. */
  lemma NormalMatrixSymmetric(A: Matrix)
    requires A.Valid()
    ensures Transposed(Mul(Transposed(A), A)) == Mul(Transposed(A), A)
  {
    TransposeOfProduct(Transposed(A), A);
    TransposeInvolution(A);
  }

  /** The first k rows of X. */
  function TopRows(X: Matrix, k: nat): (T: Matrix)
    requires X.Valid() && 0 < k < X.RowSize()
    ensures T.Valid() && T.HasShape(k, X.ColumnSize()) && T.rows == X.rows[..k]
  {
    Matrix(X.rows[..k])
  }

  /** The rows of X from row k on. */
  function BottomRows(X: Matrix, k: nat): (B: Matrix)
    requires X.Valid() && 0 < k < X.RowSize()
    ensures B.Valid() && B.HasShape(X.RowSize() - k, X.ColumnSize()) && B.rows == X.rows[k..]
  {
    Matrix(X.rows[k..])
  }

  /** A stack of two blocks times X is the stack of the two products. */
  lemma MulConcatV(top: Matrix, bottom: Matrix, X: Matrix)
    requires top.Valid() && bottom.Valid() && top.ColumnSize() == bottom.ColumnSize()
    requires X.Valid() && X.RowSize() == top.ColumnSize()
    ensures Mul(ConcatV(top, bottom), X) == ConcatV(Mul(top, X), Mul(bottom, X))
  {
    var V := ConcatV(top, bottom);
    var L, R := Mul(V, X), ConcatV(Mul(top, X), Mul(bottom, X));
    var t := top.RowSize();
    forall i, k | 0 <= i < V.RowSize() && 0 <= k < X.ColumnSize()
      ensures L.rows[i][k] == R.rows[i][k]
    {
      if i < t {
        assert V.rows[i] == top.rows[i] && R.rows[i] == Mul(top, X).rows[i];
        SumExt(0, top.ColumnSize(), Terms(V, X, i, k), Terms(top, X, i, k));
      } else {
        assert V.rows[i] == bottom.rows[i - t] && R.rows[i] == Mul(bottom, X).rows[i - t];
        SumExt(0, top.ColumnSize(), Terms(V, X, i, k), Terms(bottom, X, i - t, k));
      }
    }
    SameEntries(L.rows, R.rows);
  }

  /** Two blocks side by side times X is the sum of each block times its
      share of X's rows. */
  lemma MulConcatH(left: Matrix, right: Matrix, X: Matrix)
    requires left.Valid() && right.Valid() && left.RowSize() == right.RowSize()
    requires X.Valid() && X.RowSize() == left.ColumnSize() + right.ColumnSize()
    ensures Mul(ConcatH(left, right), X)
      == Added(Mul(left, TopRows(X, left.ColumnSize())), Mul(right, BottomRows(X, left.ColumnSize())))
  {
    var H := ConcatH(left, right);
    var lc := left.ColumnSize();
    var L, R := Mul(H, X), Added(Mul(left, TopRows(X, lc)), Mul(right, BottomRows(X, lc)));
    forall i, k | 0 <= i < H.RowSize() && 0 <= k < X.ColumnSize()
      ensures L.rows[i][k] == R.rows[i][k]
    {
      MulConcatHEntry(left, right, X, i, k);
    }
    SameEntries(L.rows, R.rows);
  }

  /** Entry (i, k) of MulConcatH: the sum over the joined row splits at
      left's last column. */
  lemma MulConcatHEntry(left: Matrix, right: Matrix, X: Matrix, i: nat, k: nat)
    requires left.Valid() && right.Valid() && left.RowSize() == right.RowSize()
    requires X.Valid() && X.RowSize() == left.ColumnSize() + right.ColumnSize()
    requires i < left.RowSize() && k < X.ColumnSize()
    ensures var lc := left.ColumnSize();
      Dot(ConcatH(left, right), X, i, k)
      == Dot(left, TopRows(X, lc), i, k) + Dot(right, BottomRows(X, lc), i, k)
  {
    var lc, rc := left.ColumnSize(), right.ColumnSize();
    var f := Terms(ConcatH(left, right), X, i, k);
    SumSplit(0, lc, lc + rc, f);
    JoinedLeftPart(left, right, X, i, k);
    JoinedRightPart(left, right, X, i, k);
  }

  /** The terms of a joined row that fall on left's columns. */
  lemma JoinedLeftPart(left: Matrix, right: Matrix, X: Matrix, i: nat, k: nat)
    requires left.Valid() && right.Valid() && left.RowSize() == right.RowSize()
    requires X.Valid() && X.RowSize() == left.ColumnSize() + right.ColumnSize()
    requires i < left.RowSize() && k < X.ColumnSize()
    ensures var lc := left.ColumnSize();
      Sum(0, lc, Terms(ConcatH(left, right), X, i, k)) == Dot(left, TopRows(X, lc), i, k)
  {
    var H := ConcatH(left, right);
    var lc := left.ColumnSize();
    var T := TopRows(X, lc);
    var f := Terms(H, X, i, k);
    forall j | 0 <= j < lc
      ensures f(j) == Terms(left, T, i, k)(j)
    {
      assert H.rows[i][..lc][j] == left.rows[i][j];
      assert T.rows[j] == X.rows[j];
    }
    SumExt(0, lc, f, Terms(left, T, i, k));
  }

  /** The terms of a joined row that fall on right's columns. */
  lemma JoinedRightPart(left: Matrix, right: Matrix, X: Matrix, i: nat, k: nat)
    requires left.Valid() && right.Valid() && left.RowSize() == right.RowSize()
    requires X.Valid() && X.RowSize() == left.ColumnSize() + right.ColumnSize()
    requires i < left.RowSize() && k < X.ColumnSize()
    ensures var lc := left.ColumnSize();
      Sum(lc, lc + right.ColumnSize(), Terms(ConcatH(left, right), X, i, k)) == Dot(right, BottomRows(X, lc), i, k)
  {
    var H := ConcatH(left, right);
    var lc, rc := left.ColumnSize(), right.ColumnSize();
    var B := BottomRows(X, lc);
    var f := Terms(H, X, i, k);
    forall j | 0 <= j < rc
      ensures Terms(right, B, i, k)(j) == f(j + lc)
    {
      assert H.rows[i][lc..][j] == right.rows[i][j];
      assert B.rows[j] == X.rows[j + lc];
    }
    SumShift(lc, lc + rc, lc, f, Terms(right, B, i, k));
  }

  /** A zero matrix times anything is zero. */
  lemma MulZeros(r: nat, c: nat, X: Matrix)
    requires r > 0 && c > 0 && X.Valid() && X.RowSize() == c
    ensures Mul(Zeros(r, c), X) == Zeros(r, X.ColumnSize())
  {
    var P := Mul(Zeros(r, c), X);
    forall i, k | 0 <= i < r && 0 <= k < X.ColumnSize()
      ensures P.rows[i][k] == 0.0
    {
      forall j | 0 <= j < c
        ensures Terms(Zeros(r, c), X, i, k)(j) == 0.0
      {
      }
      SumZero(0, c, Terms(Zeros(r, c), X, i, k));
    }
    SameEntries(P.rows, Zeros(r, X.ColumnSize()).rows);
  }

  /** Adding a zero matrix changes nothing. */
  lemma AddedZeros(A: Matrix)
    requires A.Valid()
    ensures Added(A, Zeros(A.RowSize(), A.ColumnSize())) == A
  {
    SameEntries(Added(A, Zeros(A.RowSize(), A.ColumnSize())).rows, A.rows);
  }

  /** Two stacks with equally tall tops are equal only blockwise. */
  lemma ConcatVInjective(t1: Matrix, b1: Matrix, t2: Matrix, b2: Matrix)
    requires t1.Valid() && b1.Valid() && t1.ColumnSize() == b1.ColumnSize()
    requires t2.Valid() && b2.Valid() && t2.ColumnSize() == b2.ColumnSize()
    requires t1.RowSize() == t2.RowSize()
    requires ConcatV(t1, b1) == ConcatV(t2, b2)
    ensures t1 == t2 && b1 == b2
  {
    var V := ConcatV(t1, b1);
    assert t1.rows == V.rows[..t1.RowSize()] == t2.rows;
    assert b1.rows == V.rows[t1.RowSize()..] == b2.rows;
  }
}
