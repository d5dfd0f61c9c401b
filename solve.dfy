/** Matrix.solve and Matrix.pivot: the solution of A * X = B by LU
    decomposition with partial pivoting, then forward elimination and back
    substitution.

    The factorisation works in place on a copy of A's rows, exchanging rows
    by exchanging the row references of an array, and records the exchanges
    in an array of original row numbers. Its loop invariant says that every
    original row of A is recovered from the current rows: row r, whose
    original number is H[r], satisfies

      A[H[r]][c] == sum over k < s of M[r][k] * U(k, c) + (M[r][c] if c >= s)

    where s is min(r, stage) and U(k, c) is the upper-triangular part of the
    current row k. When the factorisation ends this is P * A == L * U. */
module LinearSolve {
  import opened Outcomes
  import opened Sums
  import opened Matrices

  function Abs(x: real): (a: real)
    ensures a >= 0.0 && (a == x || a == -x)
  {
    if x < 0.0 then -x else x
  }

  function Min(a: int, b: int): int {
    if a < b then a else b
  }

  /** 0, 1, ..., n - 1: the initial row-exchange record. */
  function Iota(n: nat): (s: seq<int>)
    ensures |s| == n && forall i :: 0 <= i < n ==> s[i] == i
  {
    seq(n, i requires 0 <= i < n => i)
  }

  /** The leading rowSize x rowSize block of A: the only columns the solver
      reads when A has more columns than rows. */
  function SquarePart(A: Matrix): (S: Matrix)
    requires A.Valid() && A.ColumnSize() >= A.RowSize()
    ensures S.Valid() && S.HasShape(A.RowSize(), A.RowSize())
    ensures forall i, j :: 0 <= i < A.RowSize() && 0 <= j < A.RowSize() ==> S.rows[i][j] == A.rows[i][j]
  {
    var n := A.RowSize();
    Matrix(seq(n, i requires 0 <= i < n => A.rows[i][..n]))
  }

  /** A square matrix is its own square part. */
  lemma SquarePartOfSquare(A: Matrix)
    requires A.Valid() && A.ColumnSize() == A.RowSize()
    ensures SquarePart(A) == A
  {
    SameEntries(SquarePart(A).rows, A.rows);
  }

  // ---------------------------------------------------------------------
  // The factorisation invariant.
  // ---------------------------------------------------------------------

  /** The upper-triangular factor: row k of M from column k on. */
  function Up(M: seq<seq<real>>, k: int, c: int): real {
    if c >= k then At(M, k, c) else 0.0
  }

  /** The terms M[r][k] * U(k, c) of the (r, c) entry of L * U. */
  function LTerms(M: seq<seq<real>>, r: int, c: int): int -> real {
    k => At(M, r, k) * Up(M, k, c)
  }

  /** Row r of the current rows, eliminated up to column s, reproduces
      original row H[r] of A0 in the columns below n. */
  predicate RowInv(A0: seq<seq<real>>, M: seq<seq<real>>, H: seq<int>, n: nat, r: nat, s: nat)
    requires r < |H|
  {
    forall c :: 0 <= c < n ==>
      At(A0, H[r], c) == Sum(0, s, LTerms(M, r, c)) + (if c >= s then At(M, r, c) else 0.0)
  }

  /** Every row satisfies the invariant for the given stage. */
  predicate Factored(A0: seq<seq<real>>, M: seq<seq<real>>, H: seq<int>, n: nat, stage: nat) {
    |M| == n && |H| == n && forall r :: 0 <= r < n ==> RowInv(A0, M, H, n, r, Min(r, stage))
  }

  /** Every row has w >= n entries. */
  predicate Wide(M: seq<seq<real>>, w: nat) {
    forall r :: 0 <= r < |M| ==> |M[r]| == w
  }

  /** Before any elimination, the rows are A's rows in their original order. */
  lemma FactoredInitially(A0: seq<seq<real>>, n: nat)
    requires |A0| == n
    ensures Factored(A0, A0, Iota(n), n, 0)
  {
  }

  /** Changing row j leaves the invariant of another row r, eliminated up
      to a stage s <= j, as it was. */
  lemma RowInvFrame(A0: seq<seq<real>>, M: seq<seq<real>>, H: seq<int>, n: nat, r: nat, s: nat, j: nat, x: seq<real>)
    requires r < |H| && r < |M| && j < |M| && r != j && s <= j
    requires RowInv(A0, M, H, n, r, s)
    ensures RowInv(A0, M[j := x], H, n, r, s)
  {
    var M' := M[j := x];
    forall c | 0 <= c < n
      ensures Sum(0, s, LTerms(M', r, c)) == Sum(0, s, LTerms(M, r, c))
    {
      forall k | 0 <= k < s
        ensures LTerms(M', r, c)(k) == LTerms(M, r, c)(k)
      {
        assert M'[k] == M[k] && M'[r] == M[r];
      }
      SumExt(0, s, LTerms(M', r, c), LTerms(M, r, c));
    }
    assert M'[r] == M[r];
  }

  /** Exchanging rows s and p (both at or below the stage s) together with
      their original row numbers keeps the invariant. */
  lemma SwapKeepsFactored(A0: seq<seq<real>>, M: seq<seq<real>>, H: seq<int>, n: nat, s: nat, p: nat)
    requires Factored(A0, M, H, n, s)
    requires s <= p < n
    ensures Factored(A0, M[s := M[p]][p := M[s]], H[s := H[p]][p := H[s]], n, s)
  {
    var M', H' := M[s := M[p]][p := M[s]], H[s := H[p]][p := H[s]];
    forall r | 0 <= r < n
      ensures RowInv(A0, M', H', n, r, Min(r, s))
    {
      var q := if r == s then p else if r == p then s else r;
      assert M'[r] == M[q] && H'[r] == H[q];
      assert RowInv(A0, M, H, n, q, Min(q, s));
      var t := Min(r, s);
      assert r >= s ==> q >= s;
      assert r < s ==> q == r;
      forall c | 0 <= c < n
        ensures Sum(0, t, LTerms(M', r, c)) == Sum(0, t, LTerms(M, q, c))
      {
        forall k | 0 <= k < t
          ensures LTerms(M', r, c)(k) == LTerms(M, q, c)(k)
        {
          assert M'[k] == M[k];
        }
        SumExt(0, t, LTerms(M', r, c), LTerms(M, q, c));
      }
    }
  }

  /** Row j after one elimination step against pivot row s: the multiplier
      l == row[s] / pivotRow[s] is stored in column s, and l * pivotRow[k]
      is subtracted from every column s < k < n. */
  function Reduced(row: seq<real>, pivotRow: seq<real>, s: nat, n: nat): (r: seq<real>)
    requires s < n <= |row| && n <= |pivotRow| && pivotRow[s] != 0.0
    ensures |r| == |row|
    ensures r[s] * pivotRow[s] == row[s]
    ensures forall k :: s < k < n ==> r[k] == row[k] - r[s] * pivotRow[k]
    ensures forall k :: 0 <= k < |row| && (k < s || k >= n) ==> r[k] == row[k]
  {
    var l := row[s] / pivotRow[s];
    seq(|row|, k requires 0 <= k < |row| => if k == s then l else if s < k < n then row[k] - l * pivotRow[k] else row[k])
  }

  /** One elimination step moves row j from stage s to stage s + 1. */
  lemma EliminationStep(A0: seq<seq<real>>, M: seq<seq<real>>, H: seq<int>, n: nat, s: nat, j: nat)
    requires |M| == n == |H| && s < j < n && Wide(M, |M[0]|) && n <= |M[0]|
    requires M[s][s] != 0.0
    requires RowInv(A0, M, H, n, j, s)
    ensures RowInv(A0, M[j := Reduced(M[j], M[s], s, n)], H, n, j, s + 1)
  {
    var M' := M[j := Reduced(M[j], M[s], s, n)];
    forall c | 0 <= c < n
      ensures At(A0, H[j], c) == Sum(0, s + 1, LTerms(M', j, c)) + (if c >= s + 1 then At(M', j, c) else 0.0)
    {
      EliminationStepColumn(A0, M, H, n, s, j, c);
    }
  }

  /** Column c of one elimination step: the term the multiplier adds to
      the sum is exactly what the step takes off row j. */
  lemma EliminationStepColumn(A0: seq<seq<real>>, M: seq<seq<real>>, H: seq<int>, n: nat, s: nat, j: nat, c: nat)
    requires |M| == n == |H| && s < j < n && Wide(M, |M[0]|) && n <= |M[0]|
    requires M[s][s] != 0.0 && c < n
    requires At(A0, H[j], c) == Sum(0, s, LTerms(M, j, c)) + (if c >= s then At(M, j, c) else 0.0)
    ensures var M' := M[j := Reduced(M[j], M[s], s, n)];
      At(A0, H[j], c) == Sum(0, s + 1, LTerms(M', j, c)) + (if c >= s + 1 then At(M', j, c) else 0.0)
  {
    var x := Reduced(M[j], M[s], s, n);
    var M' := M[j := x];
    ReducedKeepsEarlierTerms(M, n, s, j, c);
    ReducedAddsPivotTerm(M, n, s, j, c);
    ReducedColumn(M, n, s, j, c);
    assert At(M', j, c) == x[c];
  }

  /** The terms of row j before column s do not change in an elimination step. */
  lemma ReducedKeepsEarlierTerms(M: seq<seq<real>>, n: nat, s: nat, j: nat, c: nat)
    requires |M| == n && s < j < n && Wide(M, |M[0]|) && n <= |M[0]| && M[s][s] != 0.0
    ensures var M' := M[j := Reduced(M[j], M[s], s, n)];
      Sum(0, s, LTerms(M', j, c)) == Sum(0, s, LTerms(M, j, c))
  {
    var x := Reduced(M[j], M[s], s, n);
    var M' := M[j := x];
    forall k | 0 <= k < s
      ensures LTerms(M', j, c)(k) == LTerms(M, j, c)(k)
    {
      assert M'[k] == M[k];
      assert At(M', j, k) == At(M, j, k) by {
        assert x[k] == M[j][k];
      }
      assert Up(M', k, c) == Up(M, k, c);
    }
    SumExt(0, s, LTerms(M', j, c), LTerms(M, j, c));
  }

  /** An elimination step adds the multiplier times U(s, c) as term s. */
  lemma ReducedAddsPivotTerm(M: seq<seq<real>>, n: nat, s: nat, j: nat, c: nat)
    requires |M| == n && s < j < n && Wide(M, |M[0]|) && n <= |M[0]| && M[s][s] != 0.0
    ensures var x := Reduced(M[j], M[s], s, n);
      var M' := M[j := x];
      Sum(0, s + 1, LTerms(M', j, c)) == Sum(0, s, LTerms(M', j, c)) + x[s] * Up(M, s, c)
  {
    var x := Reduced(M[j], M[s], s, n);
    var M' := M[j := x];
    assert M'[s] == M[s] && M'[j] == x;
    assert LTerms(M', j, c)(s) == x[s] * Up(M, s, c);
  }

  /** Column c of row j before the step is the pivot term plus what is left
      of column c after it. */
  lemma ReducedColumn(M: seq<seq<real>>, n: nat, s: nat, j: nat, c: nat)
    requires |M| == n && s < j < n && Wide(M, |M[0]|) && n <= |M[0]| && M[s][s] != 0.0 && c < n
    ensures var x := Reduced(M[j], M[s], s, n);
      x[s] * Up(M, s, c) + (if c >= s + 1 then x[c] else 0.0) == (if c >= s then At(M, j, c) else 0.0)
  {
    var x := Reduced(M[j], M[s], s, n);
    if c < s {
      assert Up(M, s, c) == 0.0;
    } else if c == s {
      assert Up(M, s, c) == M[s][s];
      assert x[s] * M[s][s] == M[j][s];
    } else {
      assert Up(M, s, c) == M[s][c];
      assert x[c] == M[j][c] - x[s] * M[s][c];
    }
  }

  /** A row whose entry in the pivot column is already 0 is at stage s + 1
      without change. */
  lemma ZeroStep(A0: seq<seq<real>>, M: seq<seq<real>>, H: seq<int>, n: nat, s: nat, j: nat)
    requires |M| == n == |H| && s < j < n && Wide(M, |M[0]|) && n <= |M[0]|
    requires M[j][s] == 0.0
    requires RowInv(A0, M, H, n, j, s)
    ensures RowInv(A0, M, H, n, j, s + 1)
  {
    forall c | 0 <= c < n
      ensures Sum(0, s + 1, LTerms(M, j, c)) == Sum(0, s, LTerms(M, j, c))
    {
      assert LTerms(M, j, c)(s) == 0.0;
    }
  }

  /** While column i is eliminated: rows up to i are at their final
      stage, rows i + 1 .. j - 1 are at stage i + 1, the rest at stage i. */
  predicate Staged(A0: seq<seq<real>>, M: seq<seq<real>>, H: seq<int>, n: nat, i: nat, j: nat) {
    |M| == n && |H| == n && forall r :: 0 <= r < n ==> RowInv(A0, M, H, n, r, Stage(r, i, j))
  }

  /** Before row i + 1 is touched, stage i is the staged state. */
  lemma StagedStart(A0: seq<seq<real>>, M: seq<seq<real>>, H: seq<int>, n: nat, i: nat)
    requires Factored(A0, M, H, n, i)
    ensures Staged(A0, M, H, n, i, i + 1)
  {
    var next := i + 1;
    forall r | 0 <= r < n
      ensures RowInv(A0, M, H, n, r, Stage(r, i, next))
    {
      assert Stage(r, i, next) == Min(r, i);
    }
  }

  /** With every row below i done, stage i + 1 is reached. */
  lemma StagedEnd(A0: seq<seq<real>>, M: seq<seq<real>>, H: seq<int>, n: nat, i: nat)
    requires Staged(A0, M, H, n, i, n)
    ensures Factored(A0, M, H, n, i + 1)
  {
    var next := i + 1;
    forall r | 0 <= r < n
      ensures RowInv(A0, M, H, n, r, Min(r, next))
    {
      assert Stage(r, i, n) == Min(r, next);
    }
  }

  /** Eliminating row j advances it and keeps every other row. */
  lemma StagedEliminate(A0: seq<seq<real>>, M: seq<seq<real>>, H: seq<int>, n: nat, i: nat, j: nat)
    requires Staged(A0, M, H, n, i, j) && i < j < n && Wide(M, |M[0]|) && n <= |M[0]|
    requires M[i][i] != 0.0
    ensures Staged(A0, M[j := Reduced(M[j], M[i], i, n)], H, n, i, j + 1)
  {
    var M' := M[j := Reduced(M[j], M[i], i, n)];
    assert RowInv(A0, M, H, n, j, Stage(j, i, j));
    EliminationStep(A0, M, H, n, i, j);
    var next := j + 1;
    forall r | 0 <= r < n
      ensures RowInv(A0, M', H, n, r, Stage(r, i, next))
    {
      if r != j {
        assert RowInv(A0, M, H, n, r, Stage(r, i, j));
        RowInvFrame(A0, M, H, n, r, Stage(r, i, j), j, M'[j]);
      }
    }
  }

  /** A row already 0 in column i advances without change. */
  lemma StagedSkip(A0: seq<seq<real>>, M: seq<seq<real>>, H: seq<int>, n: nat, i: nat, j: nat)
    requires Staged(A0, M, H, n, i, j) && i < j < n && Wide(M, |M[0]|) && n <= |M[0]|
    requires M[j][i] == 0.0
    ensures Staged(A0, M, H, n, i, j + 1)
  {
    assert RowInv(A0, M, H, n, j, Stage(j, i, j));
    ZeroStep(A0, M, H, n, i, j);
    var next := j + 1;
    forall r | 0 <= r < n
      ensures RowInv(A0, M, H, n, r, Stage(r, i, next))
    {
      if r != j {
        assert RowInv(A0, M, H, n, r, Stage(r, i, j));
      }
    }
  }

  // ---------------------------------------------------------------------
  // pivot
  // ---------------------------------------------------------------------

  /** Matrix.pivot: among rows n and below, finds the first row whose entry
      in column n has the largest absolute value (row n itself when that
      column is all zero), and exchanges it with row n, in the rows and in
      the exchange record alike. */
  method Pivot(elements: array<seq<real>>, processHistory: array<int>, n: nat) returns (ghost p: nat)
    requires elements.Length == processHistory.Length
    requires forall i :: n <= i < elements.Length ==> n < |elements[i]|
    modifies elements, processHistory
    ensures n <= p && (n < elements.Length ==> p < elements.Length)
    ensures n >= elements.Length ==>
      p == n && elements[..] == old(elements[..]) && processHistory[..] == old(processHistory[..])
    ensures n < elements.Length ==>
      && elements[..] == old(elements[..])[n := old(elements[p])][p := old(elements[n])]
      && processHistory[..] == old(processHistory[..])[n := old(processHistory[p])][p := old(processHistory[n])]
    ensures forall i :: n <= i < elements.Length ==> Abs(old(elements[i][n])) <= Abs(old(elements[p][n]))
    ensures forall i :: n <= i < p ==> Abs(old(elements[i][n])) < Abs(old(elements[p][n]))
    ensures n < p ==> Abs(old(elements[p][n])) > 0.0
  {
    var maxVal := 0.0;
    var swapRowNum := n;
    var i := n;
    while i < elements.Length
      invariant n <= swapRowNum && (n < elements.Length ==> swapRowNum < elements.Length)
      invariant swapRowNum == n || swapRowNum < i
      invariant n < i ==> i <= elements.Length
      invariant n < swapRowNum ==> maxVal == Abs(elements[swapRowNum][n]) && maxVal > 0.0
      invariant n == swapRowNum && n < elements.Length ==> maxVal == 0.0 || maxVal == Abs(elements[n][n])
      invariant n == swapRowNum && n >= elements.Length ==> maxVal == 0.0
      invariant forall i' :: n <= i' < i ==> Abs(elements[i'][n]) <= maxVal
      invariant forall i' :: n <= i' < swapRowNum ==> Abs(elements[i'][n]) < maxVal
    {
      var tmp := Abs(elements[i][n]);
      if tmp > maxVal {
        maxVal := tmp;
        swapRowNum := i;
      }
      i := i + 1;
    }
    if swapRowNum > n {
      var tmpRow := elements[n];
      elements[n] := elements[swapRowNum];
      elements[swapRowNum] := tmpRow;
      var tmpNum := processHistory[n];
      processHistory[n] := processHistory[swapRowNum];
      processHistory[swapRowNum] := tmpNum;
    }
    p := swapRowNum;
  }

  /** Row exchanges permute the exchange record. */
  lemma SwapPreservesMultiset(H: seq<int>, s: nat, p: nat)
    requires s < |H| && p < |H|
    ensures multiset(H[s := H[p]][p := H[s]]) == multiset(H)
  {
    var H1 := H[s := H[p]];
    assert multiset(H1) == multiset(H) - multiset{H[s]} + multiset{H[p]};
    assert multiset(H1[p := H[s]]) == multiset(H1) - multiset{H1[p]} + multiset{H[s]};
  }

  /** The stage each row has reached while column i is being eliminated
      and rows i + 1 .. j - 1 are done. */
  function Stage(r: nat, i: nat, j: nat): nat {
    if r <= i then r else if r < j then i + 1 else i
  }

  /** Matrix.solve's row-elimination step on row j against pivot row i:
      divides the entry in the pivot column by the pivot, then subtracts
      that multiple of the pivot row from the columns i + 1 .. n - 1. */
  method EliminateRow(elem: array<seq<real>>, i: nat, j: nat, denominator: real)
    requires i < j < elem.Length
    requires elem.Length <= |elem[i]| && |elem[j]| == |elem[i]|
    requires denominator == elem[i][i] && denominator != 0.0
    modifies elem
    ensures elem[..] == old(elem[..])[j := Reduced(old(elem[j]), old(elem[i]), i, elem.Length)]
  {
    var rowSize := elem.Length;
    var row, pivotRow := elem[j], elem[i];
    ghost var original := row;
    row := row[i := row[i] / denominator];
    for k := i + 1 to rowSize
      invariant |row| == |original| && row[i] == original[i] / denominator
      invariant forall k' :: i < k' < k ==> row[k'] == original[k'] - row[i] * pivotRow[k']
      invariant forall k' :: 0 <= k' < |original| && (k' < i || k' >= k) ==> row[k'] == original[k']
    {
      row := row[k := row[k] - row[i] * pivotRow[k]];
    }
    ReducedUnique(original, pivotRow, i, rowSize, row);
    elem[j] := row;
  }

  /** Reduced is the only row with its three defining properties. */
  lemma ReducedUnique(row: seq<real>, pivotRow: seq<real>, s: nat, n: nat, r: seq<real>)
    requires s < n <= |row| && n <= |pivotRow| && pivotRow[s] != 0.0
    requires |r| == |row| && r[s] == row[s] / pivotRow[s]
    requires forall k :: s < k < n ==> r[k] == row[k] - r[s] * pivotRow[k]
    requires forall k :: 0 <= k < |row| && (k < s || k >= n) ==> r[k] == row[k]
    ensures r == Reduced(row, pivotRow, s, n)
  {
    var e := Reduced(row, pivotRow, s, n);
    assert e[s] == r[s];
    assert forall k :: 0 <= k < |r| ==> r[k] == e[k];
  }

  // ---------------------------------------------------------------------
  // Forward elimination and back substitution.
  // ---------------------------------------------------------------------

  /** H[i], or -1 outside the record. */
  function RowOf(H: seq<int>, i: int): int {
    if 0 <= i < |H| then H[i] else -1
  }

  /** The forward-elimination value Y(i, j) for the unit lower-triangular
      factor: Y(i, j) == B[H[i]][j] - sum over k < i of M[i][k] * Y(k, j). */
  function Forward(M: seq<seq<real>>, B: seq<seq<real>>, H: seq<int>, i: int, j: int): real
    decreases if i < 0 then 0 else i, 1
  {
    At(B, RowOf(H, i), j) - Sum(0, i, FwdTerms(M, B, H, i, j))
  }

  function FwdTerms(M: seq<seq<real>>, B: seq<seq<real>>, H: seq<int>, i: int, j: int): int -> real
    decreases if i < 0 then 0 else i, 0
  {
    k => if 0 <= k < i then At(M, i, k) * Forward(M, B, H, k, j) else 0.0
  }

  /** The back-substitution value X(i, j) for the upper-triangular factor:
      X(i, j) == (Y(i, j) - sum over i < k < n of M[i][k] * X(k, j)) / M[i][i]
      (0 where the diagonal entry is 0, a case the solver does not reach). */
  function Backward(M: seq<seq<real>>, B: seq<seq<real>>, H: seq<int>, n: nat, i: int, j: int): real
    decreases n - i, 1
  {
    if 0 <= i < n && At(M, i, i) != 0.0 then
      (Forward(M, B, H, i, j) - Sum(i + 1, n, BackTerms(M, B, H, n, i, j))) / At(M, i, i)
    else 0.0
  }

  function BackTerms(M: seq<seq<real>>, B: seq<seq<real>>, H: seq<int>, n: nat, i: int, j: int): int -> real
    decreases n - i, 0
  {
    k => if i < k < n then At(M, i, k) * Backward(M, B, H, n, k, j) else 0.0
  }

  /** The terms U(k, c) * x(c) of row k of U * x. */
  function UTerms(M: seq<seq<real>>, k: int, x: int -> real): int -> real {
    c => Up(M, k, c) * x(c)
  }

  /** The terms A[q][c] * x(c) of row q of A * x. */
  function ATerms(A0: seq<seq<real>>, q: int, x: int -> real): int -> real {
    c => At(A0, q, c) * x(c)
  }

  /** The terms M[r][k] * y(k) of row r of L * y, below the diagonal. */
  function YTerms(M: seq<seq<real>>, r: int, y: int -> real): int -> real {
    k => At(M, r, k) * y(k)
  }

  /** The part of row r of P * A * x that comes from the rows above it:
      sum over k < r of M[r][k] * U(k, c), times x(c). */
  function LowTerms(M: seq<seq<real>>, r: int, x: int -> real): int -> real {
    c => Sum(0, r, LTerms(M, r, c)) * x(c)
  }

  /** The double-indexed terms M[r][k] * U(k, c) * x(c). */
  function GTerms(M: seq<seq<real>>, r: int, x: int -> real): (int, int) -> real {
    (k, c) => At(M, r, k) * Up(M, k, c) * x(c)
  }

  /** Row r of P * A * x splits into the part from the rows above r and
      row r of U * x. */
  lemma RowSplits(A0: seq<seq<real>>, M: seq<seq<real>>, H: seq<int>, n: nat, r: nat, x: int -> real)
    requires Factored(A0, M, H, n, n) && r < n
    ensures Sum(0, n, ATerms(A0, H[r], x)) == Sum(0, n, LowTerms(M, r, x)) + Sum(0, n, UTerms(M, r, x))
  {
    assert RowInv(A0, M, H, n, r, Min(r, n));
    forall c | 0 <= c < n
      ensures ATerms(A0, H[r], x)(c) == LowTerms(M, r, x)(c) + UTerms(M, r, x)(c)
    {
      assert At(A0, H[r], c) == Sum(0, r, LTerms(M, r, c)) + Up(M, r, c);
    }
    SumAdd(0, n, LowTerms(M, r, x), UTerms(M, r, x), ATerms(A0, H[r], x));
  }

  /** The part from the rows above r, with the two sums exchanged. */
  lemma LowPartSwapped(M: seq<seq<real>>, n: nat, r: nat, x: int -> real)
    ensures Sum(0, n, LowTerms(M, r, x)) == Sum(0, r, k => Sum(0, n, c => GTerms(M, r, x)(k, c)))
  {
    var g := GTerms(M, r, x);
    forall c | 0 <= c < n
      ensures LowTerms(M, r, x)(c) == Sum(0, r, k => g(k, c))
    {
      SumScale(0, r, x(c), LTerms(M, r, c), k => g(k, c));
    }
    SumExt(0, n, LowTerms(M, r, x), c => Sum(0, r, k => g(k, c)));
    SumSwap(r, n, g);
  }

  /** The part from the rows above r is sum over k < r of M[r][k] * (U * x)[k]. */
  lemma LowPart(M: seq<seq<real>>, n: nat, r: nat, x: int -> real, y: int -> real)
    requires forall k :: 0 <= k < r ==> Sum(0, n, UTerms(M, k, x)) == y(k)
    ensures Sum(0, n, LowTerms(M, r, x)) == Sum(0, r, YTerms(M, r, y))
  {
    var g := GTerms(M, r, x);
    LowPartSwapped(M, n, r, x);
    forall k | 0 <= k < r
      ensures Sum(0, n, c => g(k, c)) == YTerms(M, r, y)(k)
    {
      LowPartTerm(M, n, r, x, k);
    }
    SumExt(0, r, k => Sum(0, n, c => g(k, c)), YTerms(M, r, y));
  }

  /** Term k of the exchanged sum is M[r][k] times row k of U * x. */
  lemma LowPartTerm(M: seq<seq<real>>, n: nat, r: nat, x: int -> real, k: int)
    ensures Sum(0, n, c => GTerms(M, r, x)(k, c)) == At(M, r, k) * Sum(0, n, UTerms(M, k, x))
  {
    forall c | 0 <= c < n
      ensures GTerms(M, r, x)(k, c) == At(M, r, k) * UTerms(M, k, x)(c)
    {
      var a, u, xc := At(M, r, k), Up(M, k, c), x(c);
      assert a * u * xc == a * (u * xc);
    }
    SumScale(0, n, At(M, r, k), UTerms(M, k, x), c => GTerms(M, r, x)(k, c));
  }

  /** Once factored, a column x with U * x == y satisfies
      (P * A * x)[r] == (L * y)[r] for every row r. */
  lemma ThroughFactors(A0: seq<seq<real>>, M: seq<seq<real>>, H: seq<int>, n: nat, r: nat, x: int -> real, y: int -> real)
    requires Factored(A0, M, H, n, n) && r < n
    requires forall k :: 0 <= k < n ==> Sum(0, n, UTerms(M, k, x)) == y(k)
    ensures Sum(0, n, ATerms(A0, H[r], x)) == Sum(0, r, YTerms(M, r, y)) + y(r)
  {
    RowSplits(A0, M, H, n, r, x);
    LowPart(M, n, r, x, y);
  }

  /** Column j of the back-substitution result, as a function of the row. */
  function BackColumn(M: seq<seq<real>>, B: seq<seq<real>>, H: seq<int>, n: nat, j: int): int -> real {
    c => Backward(M, B, H, n, c, j)
  }

  /** Column j of the forward-elimination result, as a function of the row. */
  function FwdColumn(M: seq<seq<real>>, B: seq<seq<real>>, H: seq<int>, j: int): int -> real {
    k => Forward(M, B, H, k, j)
  }

  /** Row k of U vanishes left of the diagonal. */
  lemma UTermsBelowDiagonal(M: seq<seq<real>>, k: nat, x: int -> real)
    ensures Sum(0, k, UTerms(M, k, x)) == 0.0
  {
    forall c | 0 <= c < k
      ensures UTerms(M, k, x)(c) == 0.0
    {
      assert UTerms(M, k, x)(c) == Up(M, k, c) * x(c);
    }
    SumZero(0, k, UTerms(M, k, x));
  }

  /** Right of the diagonal, row k of U * X is back substitution's sum. */
  lemma UTermsRightOfDiagonal(M: seq<seq<real>>, B: seq<seq<real>>, H: seq<int>, n: nat, k: nat, j: int)
    ensures Sum(k + 1, n, UTerms(M, k, BackColumn(M, B, H, n, j))) == Sum(k + 1, n, BackTerms(M, B, H, n, k, j))
  {
    var f, g := UTerms(M, k, BackColumn(M, B, H, n, j)), BackTerms(M, B, H, n, k, j);
    forall c | k + 1 <= c < n
      ensures f(c) == g(c)
    {
      assert f(c) == Up(M, k, c) * BackColumn(M, B, H, n, j)(c);
      assert BackColumn(M, B, H, n, j)(c) == Backward(M, B, H, n, c, j);
    }
    SumExt(k + 1, n, f, g);
  }

  /** Back substitution inverts U: with every diagonal entry non-zero,
      U * X(., j) == Y(., j). */
  lemma BackwardSolvesUpper(M: seq<seq<real>>, B: seq<seq<real>>, H: seq<int>, n: nat, k: nat, j: int)
    requires k < n && At(M, k, k) != 0.0
    ensures Sum(0, n, UTerms(M, k, BackColumn(M, B, H, n, j))) == Forward(M, B, H, k, j)
  {
    var f := UTerms(M, k, BackColumn(M, B, H, n, j));
    SumSplit(0, k, n, f);
    UTermsBelowDiagonal(M, k, BackColumn(M, B, H, n, j));
    SumFirst(k, n, f);
    UTermsRightOfDiagonal(M, B, H, n, k, j);
    BackwardDiagonal(M, B, H, n, k, j);
    DiagonalUTerm(M, B, H, n, k, j);
  }

  /** The diagonal term of row k of U * X(., j). */
  lemma DiagonalUTerm(M: seq<seq<real>>, B: seq<seq<real>>, H: seq<int>, n: nat, k: nat, j: int)
    ensures UTerms(M, k, BackColumn(M, B, H, n, j))(k) == At(M, k, k) * Backward(M, B, H, n, k, j)
  {
    assert UTerms(M, k, BackColumn(M, B, H, n, j))(k) == Up(M, k, k) * BackColumn(M, B, H, n, j)(k);
  }

  /** The diagonal term of row k of U * X is what back substitution
      leaves after subtracting the terms to its right. */
  lemma BackwardDiagonal(M: seq<seq<real>>, B: seq<seq<real>>, H: seq<int>, n: nat, k: nat, j: int)
    requires k < n && At(M, k, k) != 0.0
    ensures At(M, k, k) * Backward(M, B, H, n, k, j) == Forward(M, B, H, k, j) - Sum(k + 1, n, BackTerms(M, B, H, n, k, j))
  {
    var d, v := At(M, k, k), Forward(M, B, H, k, j) - Sum(k + 1, n, BackTerms(M, B, H, n, k, j));
    assert Backward(M, B, H, n, k, j) == v / d;
  }

  /** Forward elimination inverts L: (L * Y(., j))[r] == B[H[r]][j]. */
  lemma ForwardSolvesLower(M: seq<seq<real>>, B: seq<seq<real>>, H: seq<int>, r: nat, j: int)
    requires r < |H|
    ensures Sum(0, r, YTerms(M, r, FwdColumn(M, B, H, j))) + Forward(M, B, H, r, j) == At(B, H[r], j)
  {
    forall k | 0 <= k < r
      ensures YTerms(M, r, FwdColumn(M, B, H, j))(k) == FwdTerms(M, B, H, r, j)(k)
    {
    }
    SumExt(0, r, YTerms(M, r, FwdColumn(M, B, H, j)), FwdTerms(M, B, H, r, j));
  }

  /** The rows of the computed solution. */
  function Solution(M: seq<seq<real>>, B: seq<seq<real>>, H: seq<int>, n: nat, m: nat): (X: Matrix)
    requires n > 0 && m > 0
    ensures X.Valid() && X.HasShape(n, m)
    ensures forall i, j :: 0 <= i < n && 0 <= j < m ==> X.rows[i][j] == Backward(M, B, H, n, i, j)
  {
    Matrix(seq(n, i requires 0 <= i < n => seq(m, j requires 0 <= j < m => Backward(M, B, H, n, i, j))))
  }

  /** Row q of the square part of A times column j of the solution is a
      sum over A's own entries. */
  lemma SolutionTerms(A: Matrix, B: Matrix, M: seq<seq<real>>, H: seq<int>, q: nat, j: nat)
    requires A.Valid() && B.Valid() && A.RowSize() == B.RowSize() && A.ColumnSize() >= A.RowSize()
    requires q < A.RowSize() && j < B.ColumnSize()
    ensures Dot(SquarePart(A), Solution(M, B.rows, H, A.RowSize(), B.ColumnSize()), q, j)
      == Sum(0, A.RowSize(), ATerms(A.rows, q, BackColumn(M, B.rows, H, A.RowSize(), j)))
  {
    var n, m := A.RowSize(), B.ColumnSize();
    var S, X := SquarePart(A), Solution(M, B.rows, H, n, m);
    var x := BackColumn(M, B.rows, H, n, j);
    forall c | 0 <= c < n
      ensures Terms(S, X, q, j)(c) == ATerms(A.rows, q, x)(c)
    {
      assert x(c) == Backward(M, B.rows, H, n, c, j);
      assert ATerms(A.rows, q, x)(c) == At(A.rows, q, c) * x(c);
    }
    SumExt(0, n, Terms(S, X, q, j), ATerms(A.rows, q, x));
  }

  /** Every row number 0 .. n - 1 occurs in a permutation of them. */
  lemma PermutationCovers(H: seq<int>, n: nat, q: nat) returns (r: nat)
    requires multiset(H) == multiset(Iota(n)) && q < n
    ensures r < |H| && H[r] == q
  {
    assert Iota(n)[q] == q;
    assert q in multiset(H);
    r :| 0 <= r < |H| && H[r] == q;
  }

  /** If P * A == L * U with U's diagonal free of zeros, the substitutions
      solve A * X == B. */
  lemma SolutionSolves(A: Matrix, B: Matrix, M: seq<seq<real>>, H: seq<int>)
    requires A.Valid() && B.Valid() && A.RowSize() == B.RowSize() && A.ColumnSize() >= A.RowSize()
    requires Factored(A.rows, M, H, A.RowSize(), A.RowSize())
    requires multiset(H) == multiset(Iota(A.RowSize()))
    requires forall i :: 0 <= i < A.RowSize() ==> At(M, i, i) != 0.0
    ensures Mul(SquarePart(A), Solution(M, B.rows, H, A.RowSize(), B.ColumnSize())) == B
  {
    var n, m := A.RowSize(), B.ColumnSize();
    var P := Mul(SquarePart(A), Solution(M, B.rows, H, n, m));
    forall q, j | 0 <= q < n && 0 <= j < m
      ensures P.rows[q][j] == B.rows[q][j]
    {
      var r := PermutationCovers(H, n, q);
      var x, y := BackColumn(M, B.rows, H, n, j), FwdColumn(M, B.rows, H, j);
      forall k | 0 <= k < n
        ensures Sum(0, n, UTerms(M, k, x)) == y(k)
      {
        BackwardSolvesUpper(M, B.rows, H, n, k, j);
      }
      ThroughFactors(A.rows, M, H, n, r, x, y);
      SolutionTerms(A, B, M, H, q, j);
      ForwardSolvesLower(M, B.rows, H, r, j);
    }
    SameEntries(P.rows, B.rows);
  }

  // ---------------------------------------------------------------------
  // When solve gives up: a zero pivot means a singular matrix, and back.
  // ---------------------------------------------------------------------

  /** V is a non-zero column that S maps to zero. */
  ghost predicate IsKernelVector(S: Matrix, V: Matrix)
    requires S.Valid()
  {
    V.Valid() && V.HasShape(S.ColumnSize(), 1) && V != Zeros(S.ColumnSize(), 1)
      && Mul(S, V) == Zeros(S.RowSize(), 1)
  }

  /** S has a non-trivial kernel, so S * X == B has no unique solution. */
  ghost predicate Singular(S: Matrix)
    requires S.Valid()
  {
    exists V :: IsKernelVector(S, V)
  }

  /** The n x 1 matrix with entries v(0), ..., v(n - 1). */
  function ColumnOf(n: nat, v: int -> real): (V: Matrix)
    requires n > 0
    ensures V.Valid() && V.HasShape(n, 1)
    ensures forall c :: 0 <= c < n ==> V.rows[c][0] == v(c)
  {
    Matrix(seq(n, c requires 0 <= c < n => [v(c)]))
  }

  /** The entries of column 0 of V, as a function of the row. */
  function EntriesOf(V: Matrix): int -> real {
    c => At(V.rows, c, 0)
  }

  /** Row q of S * V is the sum of S[q][c] * V[c][0]. */
  lemma MulColumn(S: Matrix, V: Matrix, q: nat)
    requires S.Valid() && V.Valid() && V.HasShape(S.ColumnSize(), 1) && q < S.RowSize()
    ensures Mul(S, V).rows[q][0] == Sum(0, S.ColumnSize(), ATerms(S.rows, q, EntriesOf(V)))
  {
    forall c | 0 <= c < S.ColumnSize()
      ensures Terms(S, V, q, 0)(c) == ATerms(S.rows, q, EntriesOf(V))(c)
    {
    }
    SumExt(0, S.ColumnSize(), Terms(S, V, q, 0), ATerms(S.rows, q, EntriesOf(V)));
  }

  /** The k-th entry of a kernel vector of U whose first zero diagonal
      entry is at i0: 1 at i0, 0 below it, and above it the back
      substitution of U * v == 0 with v(i0) == 1. */
  function KernelEntry(M: seq<seq<real>>, i0: int, c: int): real
    decreases i0 - c, 1
  {
    if c > i0 || c < 0 then 0.0
    else if c == i0 then 1.0
    else if At(M, c, c) == 0.0 then 0.0
    else -Sum(c + 1, i0 + 1, KernelTerms(M, i0, c)) / At(M, c, c)
  }

  function KernelTerms(M: seq<seq<real>>, i0: int, c: int): int -> real
    decreases i0 - c, 0
  {
    k => if c < k <= i0 then At(M, c, k) * KernelEntry(M, i0, k) else 0.0
  }

  function KernelColumn(M: seq<seq<real>>, i0: int): int -> real {
    c => KernelEntry(M, i0, c)
  }

  /** The diagonal term of row k < i0 of U * v cancels the terms to its right. */
  lemma KernelDiagonal(M: seq<seq<real>>, i0: nat, k: nat)
    requires k < i0 && At(M, k, k) != 0.0
    ensures UTerms(M, k, KernelColumn(M, i0))(k) == -Sum(k + 1, i0 + 1, KernelTerms(M, i0, k))
  {
    assert UTerms(M, k, KernelColumn(M, i0))(k) == Up(M, k, k) * KernelColumn(M, i0)(k);
    var d, t := At(M, k, k), Sum(k + 1, i0 + 1, KernelTerms(M, i0, k));
    assert KernelEntry(M, i0, k) == -t / d;
  }

  /** Row k < i0 of U * v, right of the diagonal, is the kernel's sum. */
  lemma KernelRight(M: seq<seq<real>>, n: nat, i0: nat, k: nat)
    requires k < i0 < n
    ensures Sum(k + 1, n, UTerms(M, k, KernelColumn(M, i0))) == Sum(k + 1, i0 + 1, KernelTerms(M, i0, k))
  {
    var f := UTerms(M, k, KernelColumn(M, i0));
    SumSplit(k + 1, i0 + 1, n, f);
    KernelTail(M, n, i0, k);
    KernelMiddle(M, i0, k);
  }

  /** Row k of U * v has nothing right of column i0, where v is 0. */
  lemma KernelTail(M: seq<seq<real>>, n: nat, i0: nat, k: nat)
    ensures Sum(i0 + 1, n, UTerms(M, k, KernelColumn(M, i0))) == 0.0
  {
    var f := UTerms(M, k, KernelColumn(M, i0));
    forall c | i0 + 1 <= c < n
      ensures f(c) == 0.0
    {
      assert KernelEntry(M, i0, c) == 0.0;
      assert f(c) == Up(M, k, c) * KernelEntry(M, i0, c);
    }
    SumZero(i0 + 1, n, f);
  }

  /** Between the diagonal and column i0, row k of U * v is the kernel's sum. */
  lemma KernelMiddle(M: seq<seq<real>>, i0: nat, k: nat)
    ensures Sum(k + 1, i0 + 1, UTerms(M, k, KernelColumn(M, i0))) == Sum(k + 1, i0 + 1, KernelTerms(M, i0, k))
  {
    var f := UTerms(M, k, KernelColumn(M, i0));
    forall c | k + 1 <= c < i0 + 1
      ensures f(c) == KernelTerms(M, i0, k)(c)
    {
      assert Up(M, k, c) == At(M, k, c);
      assert f(c) == At(M, k, c) * KernelEntry(M, i0, c);
    }
    SumExt(k + 1, i0 + 1, f, KernelTerms(M, i0, k));
  }

  /** U * v == 0 when U[i0][i0] == 0 and the diagonal above i0 has no zero. */
  lemma KernelOfUpper(M: seq<seq<real>>, n: nat, i0: nat, k: nat)
    requires i0 < n && At(M, i0, i0) == 0.0 && forall c :: 0 <= c < i0 ==> At(M, c, c) != 0.0
    requires k < n
    ensures Sum(0, n, UTerms(M, k, KernelColumn(M, i0))) == 0.0
  {
    var v := KernelColumn(M, i0);
    var f := UTerms(M, k, v);
    if k >= i0 {
      forall c | 0 <= c < n
        ensures f(c) == 0.0
      {
        assert f(c) == Up(M, k, c) * KernelEntry(M, i0, c);
      }
      SumZero(0, n, f);
    } else {
      SumSplit(0, k, n, f);
      UTermsBelowDiagonal(M, k, v);
      SumFirst(k, n, f);
      KernelRight(M, n, i0, k);
      KernelDiagonal(M, i0, k);
    }
  }

  /** L * y == 0 forces y == 0 on rows below m (L is unit lower triangular). */
  lemma {:induction false} LowerKernelTrivial(M: seq<seq<real>>, y: int -> real, m: nat)
    requires forall r :: 0 <= r < m ==> Sum(0, r, YTerms(M, r, y)) + y(r) == 0.0
    ensures forall r :: 0 <= r < m ==> y(r) == 0.0
  {
    if m > 0 {
      LowerKernelTrivial(M, y, m - 1);
      LowerKernelRow(M, y, m - 1);
    }
  }

  /** Row r of L * y == 0 with y == 0 above r gives y(r) == 0. */
  lemma LowerKernelRow(M: seq<seq<real>>, y: int -> real, r: nat)
    requires forall k :: 0 <= k < r ==> y(k) == 0.0
    requires Sum(0, r, YTerms(M, r, y)) + y(r) == 0.0
    ensures y(r) == 0.0
  {
    var f := YTerms(M, r, y);
    forall k | 0 <= k < r
      ensures f(k) == 0.0
    {
      assert f(k) == At(M, r, k) * y(k);
    }
    SumZero(0, r, f);
  }

  /** U * v == 0 with no zero on U's diagonal forces v == 0 on rows m and up. */
  lemma {:induction false} UpperKernelTrivial(M: seq<seq<real>>, n: nat, v: int -> real, m: nat)
    requires m <= n
    requires forall i :: 0 <= i < n ==> At(M, i, i) != 0.0
    requires forall k :: 0 <= k < n ==> Sum(0, n, UTerms(M, k, v)) == 0.0
    ensures forall c :: m <= c < n ==> v(c) == 0.0
    decreases n - m
  {
    if m < n {
      UpperKernelTrivial(M, n, v, m + 1);
      var f := UTerms(M, m, v);
      SumSplit(0, m, n, f);
      UTermsBelowDiagonal(M, m, v);
      SumFirst(m, n, f);
      forall c | m + 1 <= c < n
        ensures f(c) == 0.0
      {
        assert f(c) == Up(M, m, c) * v(c);
      }
      SumZero(m + 1, n, f);
      assert f(m) == At(M, m, m) * v(m);
    }
  }

  /** A zero diagonal entry of U makes the square part singular. */
  lemma ZeroPivotSingular(A: Matrix, M: seq<seq<real>>, H: seq<int>, i0: nat)
    requires A.Valid() && A.ColumnSize() >= A.RowSize()
    requires Factored(A.rows, M, H, A.RowSize(), A.RowSize())
    requires multiset(H) == multiset(Iota(A.RowSize()))
    requires i0 < A.RowSize() && At(M, i0, i0) == 0.0
    requires forall c :: 0 <= c < i0 ==> At(M, c, c) != 0.0
    ensures Singular(SquarePart(A))
  {
    var n, S := A.RowSize(), SquarePart(A);
    var v := KernelColumn(M, i0);
    var V := ColumnOf(n, v);
    var zero := (k: int) => 0.0;
    forall k | 0 <= k < n
      ensures Sum(0, n, UTerms(M, k, v)) == zero(k)
    {
      KernelOfUpper(M, n, i0, k);
    }
    forall q | 0 <= q < n
      ensures Mul(S, V).rows[q][0] == 0.0
    {
      var r := PermutationCovers(H, n, q);
      ThroughFactors(A.rows, M, H, n, r, v, zero);
      SumZero(0, r, YTerms(M, r, zero));
      MulColumn(S, V, q);
      forall c | 0 <= c < n
        ensures ATerms(S.rows, q, EntriesOf(V))(c) == ATerms(A.rows, q, v)(c)
      {
      }
      SumExt(0, n, ATerms(S.rows, q, EntriesOf(V)), ATerms(A.rows, q, v));
    }
    SameEntries(Mul(S, V).rows, Zeros(n, 1).rows);
    assert V.rows[i0][0] == 1.0;
    assert V != Zeros(n, 1);
    assert IsKernelVector(S, V);
  }

  /** With no zero on U's diagonal, the square part is not singular. */
  lemma NonzeroPivotsRegular(A: Matrix, M: seq<seq<real>>, H: seq<int>)
    requires A.Valid() && A.ColumnSize() >= A.RowSize()
    requires Factored(A.rows, M, H, A.RowSize(), A.RowSize())
    requires multiset(H) == multiset(Iota(A.RowSize()))
    requires forall i :: 0 <= i < A.RowSize() ==> At(M, i, i) != 0.0
    ensures !Singular(SquarePart(A))
  {
    var n, S := A.RowSize(), SquarePart(A);
    if V :| IsKernelVector(S, V) {
      PermutationBounded(H, n);
      var v := EntriesOf(V);
      var y := k => Sum(0, n, UTerms(M, k, v));
      forall r | 0 <= r < n
        ensures Sum(0, r, YTerms(M, r, y)) + y(r) == 0.0
      {
        KernelThroughFactors(A, M, H, V, y, r);
      }
      LowerKernelTrivial(M, y, n);
      forall k | 0 <= k < n
        ensures Sum(0, n, UTerms(M, k, v)) == 0.0
      {
        assert y(k) == 0.0;
      }
      UpperKernelTrivial(M, n, v, 0);
      forall c, j | 0 <= c < n && 0 <= j < 1
        ensures V.rows[c][j] == Zeros(n, 1).rows[c][j]
      {
        assert v(c) == 0.0;
      }
      SameEntries(V.rows, Zeros(n, 1).rows);
      assert false;
    }
  }

  /** A kernel vector V of the square part, pushed through the factors:
      row r of L * (U * V) is 0. */
  lemma KernelThroughFactors(A: Matrix, M: seq<seq<real>>, H: seq<int>, V: Matrix, y: int -> real, r: nat)
    requires A.Valid() && A.ColumnSize() >= A.RowSize()
    requires Factored(A.rows, M, H, A.RowSize(), A.RowSize())
    requires forall i :: 0 <= i < |H| ==> 0 <= H[i] < |H|
    requires IsKernelVector(SquarePart(A), V) && r < A.RowSize()
    requires forall k :: 0 <= k < A.RowSize() ==> Sum(0, A.RowSize(), UTerms(M, k, EntriesOf(V))) == y(k)
    ensures Sum(0, r, YTerms(M, r, y)) + y(r) == 0.0
  {
    ThroughFactors(A.rows, M, H, A.RowSize(), r, EntriesOf(V), y);
    KernelRowOfA(A, V, H[r]);
  }

  /** A kernel vector V of the square part gives 0 in every row of A,
      restricted to the square part's columns. */
  lemma KernelRowOfA(A: Matrix, V: Matrix, q: nat)
    requires A.Valid() && A.ColumnSize() >= A.RowSize()
    requires IsKernelVector(SquarePart(A), V) && q < A.RowSize()
    ensures Sum(0, A.RowSize(), ATerms(A.rows, q, EntriesOf(V))) == 0.0
  {
    var n, S := A.RowSize(), SquarePart(A);
    var v := EntriesOf(V);
    MulColumn(S, V, q);
    forall c | 0 <= c < n
      ensures ATerms(S.rows, q, v)(c) == ATerms(A.rows, q, v)(c)
    {
      assert At(S.rows, q, c) == At(A.rows, q, c);
    }
    SumExt(0, n, ATerms(S.rows, q, v), ATerms(A.rows, q, v));
    assert Mul(S, V).rows[q][0] == Zeros(n, 1).rows[q][0];
  }

  /** The first zero on the diagonal, when there is one. */
  lemma FirstZeroDiagonal(M: seq<seq<real>>, n: nat) returns (i0: nat)
    requires exists i :: 0 <= i < n && At(M, i, i) == 0.0
    ensures i0 < n && At(M, i0, i0) == 0.0 && forall c :: 0 <= c < i0 ==> At(M, c, c) != 0.0
  {
    if exists i :: 0 <= i < n - 1 && At(M, i, i) == 0.0 {
      i0 := FirstZeroDiagonal(M, n - 1);
    } else {
      i0 := n - 1;
    }
  }

  // ---------------------------------------------------------------------
  // solve, in its three phases.
  // ---------------------------------------------------------------------

  /** The exchange record holds each row number 0 .. n - 1 once, so every
      entry is a row number. */
  lemma PermutationBounded(H: seq<int>, n: nat)
    requires multiset(H) == multiset(Iota(n))
    ensures |H| == n && forall r :: 0 <= r < |H| ==> 0 <= H[r] < n
  {
    calc {
      |H|;
      |multiset(H)|;
      |multiset(Iota(n))|;
      n;
    }
    forall r | 0 <= r < |H|
      ensures 0 <= H[r] < n
    {
      assert H[r] in multiset(Iota(n));
    }
  }

  /** The LU-decomposition loop of Matrix.solve: for each column i, pivots
      and then eliminates every row below i whose entry in column i is not
      already 0. Afterwards P * A == L * U, where P is the exchange record. */
  method Decompose(A0: seq<seq<real>>, elem: array<seq<real>>, processHistory: array<int>, ghost w: nat)
    requires elem.Length == processHistory.Length <= w
    requires Wide(elem[..], w) && elem[..] == A0 && processHistory[..] == Iota(elem.Length)
    modifies elem, processHistory
    ensures Wide(elem[..], w)
    ensures Factored(A0, elem[..], processHistory[..], elem.Length, elem.Length)
    ensures multiset(processHistory[..]) == multiset(Iota(elem.Length))
  {
    var rowSize := elem.Length;
    FactoredInitially(A0, rowSize);
    for i := 0 to rowSize
      invariant Wide(elem[..], w)
      invariant Factored(A0, elem[..], processHistory[..], rowSize, i)
      invariant multiset(processHistory[..]) == multiset(Iota(rowSize))
    {
      EliminateColumn(A0, elem, processHistory, i, w);
    }
  }

  /** One pass of the decomposition loop: pivot on column i, then eliminate
      column i from every row below it. */
  method EliminateColumn(A0: seq<seq<real>>, elem: array<seq<real>>, processHistory: array<int>, i: nat, ghost w: nat)
    requires elem.Length == processHistory.Length <= w && i < elem.Length
    requires Wide(elem[..], w) && Factored(A0, elem[..], processHistory[..], elem.Length, i)
    modifies elem, processHistory
    ensures Wide(elem[..], w) && Factored(A0, elem[..], processHistory[..], elem.Length, i + 1)
    ensures multiset(processHistory[..]) == multiset(old(processHistory[..]))
  {
    var rowSize := elem.Length;
    ghost var M0, H0 := elem[..], processHistory[..];
    ghost var p := Pivot(elem, processHistory, i);
    SwapKeepsFactored(A0, M0, H0, rowSize, i, p);
    SwapPreservesMultiset(H0, i, p);
    PivotIsLargest(M0, elem[..], i, p);
    StagedStart(A0, elem[..], processHistory[..], rowSize, i);
    EliminateBelow(A0, elem, processHistory[..], i, w);
    StagedEnd(A0, elem[..], processHistory[..], rowSize, i);
  }

  /** The elimination loop for column i: every row j below the pivot row
      whose entry in column i is not 0 is reduced against the pivot row. */
  method EliminateBelow(A0: seq<seq<real>>, elem: array<seq<real>>, ghost H: seq<int>, i: nat, ghost w: nat)
    requires i < elem.Length <= w && Wide(elem[..], w)
    requires Staged(A0, elem[..], H, elem.Length, i, i + 1)
    requires forall r :: i <= r < elem.Length ==> Abs(elem[r][i]) <= Abs(elem[i][i])
    modifies elem
    ensures Wide(elem[..], w) && Staged(A0, elem[..], H, elem.Length, i, elem.Length)
  {
    var rowSize := elem.Length;
    ghost var P := elem[..];
    var denominator := elem[i][i];
    for j := i + 1 to rowSize
      invariant Wide(elem[..], w)
      invariant forall r :: 0 <= r < rowSize && (r <= i || j <= r) ==> elem[r] == P[r]
      invariant Staged(A0, elem[..], H, rowSize, i, j)
    {
      if elem[j][i] != 0.0 {
        // |pivot| >= |elem[j][i]| > 0, so the quotient is finite and the
        // source's early `return null` here is never taken.
        StagedEliminate(A0, elem[..], H, rowSize, i, j);
        EliminateRow(elem, i, j, denominator);
      } else {
        StagedSkip(A0, elem[..], H, rowSize, i, j);
      }
    }
  }

  /** After the exchange, the pivot row holds the largest entry of column i
      in absolute value among rows i and below. */
  lemma PivotIsLargest(M0: seq<seq<real>>, P: seq<seq<real>>, i: nat, p: nat)
    requires i <= p < |M0| && P == M0[i := M0[p]][p := M0[i]]
    requires forall r :: i <= r < |M0| ==> i < |M0[r]|
    requires forall r :: i <= r < |M0| ==> Abs(M0[r][i]) <= Abs(M0[p][i])
    ensures forall r :: i <= r < |P| ==> Abs(P[r][i]) <= Abs(P[i][i])
  {
    forall r | i <= r < |P|
      ensures Abs(P[r][i]) <= Abs(P[i][i])
    {
      var q := if r == i then p else if r == p then i else r;
      assert P[r] == M0[q];
    }
  }

  /** The forward-elimination loop of Matrix.solve: row i of the result is
      row H[i] of B minus the multiples M[i][k] of the result rows k < i. */
  method ForwardEliminate(elem: array<seq<real>>, processHistory: array<int>, B: Matrix) returns (result: array2<real>)
    requires B.Valid() && B.RowSize() == elem.Length == processHistory.Length
    requires forall r :: 0 <= r < elem.Length ==> elem.Length <= |elem[r]|
    requires forall r :: 0 <= r < elem.Length ==> 0 <= processHistory[r] < elem.Length
    ensures fresh(result) && result.Length0 == B.RowSize() && result.Length1 == B.ColumnSize()
    ensures forall i, j :: 0 <= i < result.Length0 && 0 <= j < result.Length1 ==>
      result[i, j] == Forward(elem[..], B.rows, processHistory[..], i, j)
  {
    ghost var M, H := elem[..], processHistory[..];
    var rowSize, rColumnSize := elem.Length, B.ColumnSize();
    result := new real[B.RowSize(), rColumnSize];
    for i := 0 to rowSize
      invariant forall i', j :: 0 <= i' < i && 0 <= j < rColumnSize ==> result[i', j] == Forward(M, B.rows, H, i', j)
    {
      for j := 0 to rColumnSize
        invariant forall i', j' :: 0 <= i' < i && 0 <= j' < rColumnSize ==> result[i', j'] == Forward(M, B.rows, H, i', j')
        invariant forall j' :: 0 <= j' < j ==> result[i, j'] == Forward(M, B.rows, H, i, j')
      {
        var d := ForwardEntry(elem, processHistory, B, result, i, j);
        result[i, j] := d;
      }
    }
  }

  /** The innermost loop of forward elimination: entry (i, j) of the
      result, from B's row H[i] and the result rows above i. */
  method ForwardEntry(elem: array<seq<real>>, processHistory: array<int>, B: Matrix, result: array2<real>, i: nat, j: nat)
    returns (d: real)
    requires B.Valid() && B.RowSize() == elem.Length == processHistory.Length
    requires forall r :: 0 <= r < elem.Length ==> elem.Length <= |elem[r]|
    requires forall r :: 0 <= r < elem.Length ==> 0 <= processHistory[r] < elem.Length
    requires result.Length0 == B.RowSize() && result.Length1 == B.ColumnSize()
    requires i < result.Length0 && j < result.Length1
    requires forall i' :: 0 <= i' < i ==> result[i', j] == Forward(elem[..], B.rows, processHistory[..], i', j)
    ensures d == Forward(elem[..], B.rows, processHistory[..], i, j)
  {
    ghost var M, H := elem[..], processHistory[..];
    d := B.rows[processHistory[i]][j];
    for k := 0 to i
      invariant d == At(B.rows, H[i], j) - Sum(0, k, FwdTerms(M, B.rows, H, i, j))
    {
      assert FwdTerms(M, B.rows, H, i, j)(k) == elem[i][k] * result[k, j];
      d := d - elem[i][k] * result[k, j];
    }
  }

  /** The back-substitution loop of Matrix.solve, from the last row up:
      overwrites row i of the result with (Y(i, j) - the multiples M[i][k]
      of the solved rows k > i) / M[i][i]. A zero diagonal entry makes the
      quotient NaN or infinite, where the source returns null: here `solved`
      is false exactly when some diagonal entry is 0. */
  method BackSubstitute(elem: array<seq<real>>, result: array2<real>, ghost B: seq<seq<real>>, ghost H: seq<int>)
    returns (solved: bool)
    requires result.Length0 == elem.Length && result.Length1 > 0
    requires forall r :: 0 <= r < elem.Length ==> elem.Length <= |elem[r]|
    requires forall i, j :: 0 <= i < result.Length0 && 0 <= j < result.Length1 ==>
      result[i, j] == Forward(elem[..], B, H, i, j)
    modifies result
    ensures solved <==> forall i :: 0 <= i < elem.Length ==> At(elem[..], i, i) != 0.0
    ensures solved ==> forall i, j :: 0 <= i < result.Length0 && 0 <= j < result.Length1 ==>
      result[i, j] == Backward(elem[..], B, H, elem.Length, i, j)
  {
    ghost var M := elem[..];
    var rowSize := elem.Length;
    var i := rowSize - 1;
    while i >= 0
      invariant -1 <= i < rowSize
      invariant forall i', j :: 0 <= i' <= i && 0 <= j < result.Length1 ==> result[i', j] == Forward(M, B, H, i', j)
      invariant forall i', j :: i < i' < rowSize && 0 <= j < result.Length1 ==> result[i', j] == Backward(M, B, H, rowSize, i', j)
      invariant forall i' :: i < i' < rowSize ==> At(M, i', i') != 0.0
    {
      solved := SubstituteRow(elem, result, B, H, i);
      if !solved {
        return;
      }
      i := i - 1;
    }
    return true;
  }

  /** One pass of the back-substitution loop, on row i. */
  method SubstituteRow(elem: array<seq<real>>, result: array2<real>, ghost B: seq<seq<real>>, ghost H: seq<int>, i: nat)
    returns (solved: bool)
    requires result.Length0 == elem.Length && result.Length1 > 0 && i < elem.Length
    requires forall r :: 0 <= r < elem.Length ==> elem.Length <= |elem[r]|
    requires forall j :: 0 <= j < result.Length1 ==> result[i, j] == Forward(elem[..], B, H, i, j)
    requires forall i', j :: i < i' < elem.Length && 0 <= j < result.Length1 ==>
      result[i', j] == Backward(elem[..], B, H, elem.Length, i', j)
    modifies result
    ensures solved <==> At(elem[..], i, i) != 0.0
    ensures forall i', j :: 0 <= i' < result.Length0 && i' != i && 0 <= j < result.Length1 ==>
      result[i', j] == old(result[i', j])
    ensures solved ==> forall j :: 0 <= j < result.Length1 ==> result[i, j] == Backward(elem[..], B, H, elem.Length, i, j)
  {
    ghost var M := elem[..];
    var rowSize, rColumnSize := elem.Length, result.Length1;
    var denominator := elem[i][i];
    for j := 0 to rColumnSize
      invariant forall i', j' :: 0 <= i' < rowSize && i' != i && 0 <= j' < rColumnSize ==> result[i', j'] == old(result[i', j'])
      invariant forall j' :: 0 <= j' < j ==> result[i, j'] == Backward(M, B, H, rowSize, i, j')
      invariant forall j' :: j <= j' < rColumnSize ==> result[i, j'] == Forward(M, B, H, i, j')
      invariant j > 0 ==> denominator != 0.0
    {
      var dd := BackEntry(elem, result, B, H, i, j);
      if denominator == 0.0 {
        assert At(M, i, i) == 0.0;
        return false;
      }
      result[i, j] := dd / denominator;
    }
    return true;
  }

  /** The inner loop of back substitution: entry (i, j) of the result
      minus the multiples M[i][k] of the solved rows k > i, before the
      division by the diagonal entry. */
  method BackEntry(elem: array<seq<real>>, result: array2<real>, ghost B: seq<seq<real>>, ghost H: seq<int>, i: nat, j: nat)
    returns (dd: real)
    requires result.Length0 == elem.Length && i < elem.Length && j < result.Length1
    requires forall r :: 0 <= r < elem.Length ==> elem.Length <= |elem[r]|
    requires result[i, j] == Forward(elem[..], B, H, i, j)
    requires forall i' :: i < i' < elem.Length ==> result[i', j] == Backward(elem[..], B, H, elem.Length, i', j)
    ensures dd == Forward(elem[..], B, H, i, j) - Sum(i + 1, elem.Length, BackTerms(elem[..], B, H, elem.Length, i, j))
  {
    ghost var M := elem[..];
    var rowSize := elem.Length;
    dd := result[i, j];
    for k := i + 1 to rowSize
      invariant dd == Forward(M, B, H, i, j) - Sum(i + 1, k, BackTerms(M, B, H, rowSize, i, j))
    {
      assert BackTerms(M, B, H, rowSize, i, j)(k) == elem[i][k] * result[k, j];
      dd := dd - elem[i][k] * result[k, j];
    }
  }

  /** Matrix.solve: the solution X of A * X == B.
      - a row count of B other than A's fails with IllegalArgument;
      - fewer columns than rows makes the elimination index past the end of
        a row: IndexOutOfBounds;
      - otherwise the result is `None` (the source's null) or `Some(X)` with
        X of B's shape solving S * X == B, where S is the leading square
        block of A (all of A when A is square). */
  method Solve(A: Matrix, B: Matrix) returns (r: Result<Option<Matrix>>)
    requires A.Valid() && B.Valid()
    ensures A.RowSize() != B.RowSize() ==> r == Err(IllegalArgument)
    ensures A.RowSize() == B.RowSize() && A.ColumnSize() < A.RowSize() ==> r == Err(IndexOutOfBounds)
    ensures A.RowSize() == B.RowSize() && A.ColumnSize() >= A.RowSize() ==> r.Ok?
    ensures r.Ok? && r.value.Some? ==>
      && A.RowSize() == B.RowSize() && A.ColumnSize() >= A.RowSize()
      && r.value.value.Valid() && r.value.value.HasShape(A.RowSize(), B.ColumnSize())
      && Mul(SquarePart(A), r.value.value) == B
    ensures r.Ok? ==> A.ColumnSize() >= A.RowSize() && (r.value.None? <==> Singular(SquarePart(A)))
  {
    var rowSize := A.RowSize();
    if rowSize != B.RowSize() {
      return Err(IllegalArgument);
    }
    var processHistory := new int[rowSize];
    for i := 0 to rowSize
      invariant forall i' :: 0 <= i' < i ==> processHistory[i'] == i'
    {
      processHistory[i] := i;
    }
    var elem := new seq<real>[rowSize](i requires 0 <= i < rowSize => A.rows[i]);
    if A.ColumnSize() < rowSize {
      // The elimination reads elem[i][i] and elem[j][k] for all
      // i, j, k < rowSize; the first read past a row's end throws.
      return Err(IndexOutOfBounds);
    }
    assert elem[..] == A.rows && processHistory[..] == Iota(rowSize);
    Decompose(A.rows, elem, processHistory, A.ColumnSize());
    PermutationBounded(processHistory[..], rowSize);
    var result := ForwardEliminate(elem, processHistory, B);
    var solved := BackSubstitute(elem, result, B.rows, processHistory[..]);
    if !solved {
      ghost var i0 := FirstZeroDiagonal(elem[..], rowSize);
      ZeroPivotSingular(A, elem[..], processHistory[..], i0);
      return Ok(None);
    }
    NonzeroPivotsRegular(A, elem[..], processHistory[..]);
    var X := Matrix(ToRows(result));
    var spec := Solution(elem[..], B.rows, processHistory[..], rowSize, B.ColumnSize());
    SameEntries(X.rows, spec.rows);
    SolutionSolves(A, B, elem[..], processHistory[..]);
    return Ok(Some(X));
  }
}
