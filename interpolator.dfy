/** Spline-curve interpolation (SplineCurveInterpolator.java): checks the
    input points, lays out the knots, builds the weight matrix of the
    B-spline basis and fits the control points by least squares. */
module Interpolation {
  import opened Outcomes
  import opened Points
  import opened Ranges
  import opened Matrices
  import opened LinearSolve
  import opened LeastSquaresFit
  import opened Splines
  import opened Basis

  // ---------------------------------------------------------------------
  // The time-series check.
  // ---------------------------------------------------------------------

  /** The time stamps of the points, in order. */
  function Times(points: seq<Point>): (times: seq<real>)
    ensures |times| == |points|
    ensures forall i :: 0 <= i < |points| ==> times[i] == points[i].time
  {
    seq(|points|, i requires 0 <= i < |points| => points[i].time)
  }

  /** Every time is later than the one before it. */
  predicate StrictlyIncreasing(times: seq<real>) {
    forall i :: 0 < i < |times| ==> times[i - 1] < times[i]
  }

  /** A strictly increasing series of at least two times starts before it ends. */
  lemma {:induction false} StrictlyIncreasingEnds(times: seq<real>)
    requires |times| >= 2 && StrictlyIncreasing(times)
    ensures times[0] < times[|times| - 1]
    decreases |times|
  {
    if |times| > 2 {
      var init := times[..|times| - 1];
      assert StrictlyIncreasing(init) by {
        forall i | 0 < i < |init|
          ensures init[i - 1] < init[i]
        {
          assert init[i - 1] == times[i - 1] && init[i] == times[i];
        }
      }
      StrictlyIncreasingEnds(init);
      assert times[|times| - 2] < times[|times| - 1];
    }
  }

  /** `t <= preTime`, where `None` stands for negative infinity, the value
      the source starts preTime with. */
  predicate AtOrBefore(t: real, preTime: Option<real>) {
    preTime.Some? && t <= preTime.value
  }

  /** What the source's time-series loop accepts: it never assigns
      preTime, so every time is compared with negative infinity. */
  predicate PassesAsWritten(times: seq<real>) {
    forall i :: 0 <= i < |times| ==> !AtOrBefore(times[i], None)
  }

  /** The time-series loop as the source writes it: preTime keeps its
      initial value, so no order is ever rejected. */
  method CheckTimeSeriesAsWritten(points: seq<Point>) returns (ok: bool)
    ensures ok == PassesAsWritten(Times(points))
  {
    var preTime: Option<real> := None;
    for i := 0 to |points|
      invariant preTime == None
      invariant forall k :: 0 <= k < i ==> !AtOrBefore(points[k].time, preTime)
    {
      var t := points[i].time;
      if AtOrBefore(t, preTime) {
        return false;
      }
    }
    return true;
  }

  /** The loop as written accepts every series of times. */
  lemma AsWrittenAcceptsEverything(times: seq<real>)
    ensures PassesAsWritten(times)
  {
  }

  /** Times 0, 2, 1, 3 go back in time between the second and third point,
      and the loop as written lets them through. */
  lemma AsWrittenAcceptsOutOfOrder()
    ensures PassesAsWritten([0.0, 2.0, 1.0, 3.0])
    ensures !StrictlyIncreasing([0.0, 2.0, 1.0, 3.0])
  {
    var times := [0.0, 2.0, 1.0, 3.0];
    assert !(times[1] < times[2]);
  }

  /** The time-series check as intended: preTime follows the previous
      point, so the check passes exactly when the times strictly increase. */
  method CheckTimeSeries(points: seq<Point>) returns (ok: bool)
    ensures ok <==> StrictlyIncreasing(Times(points))
  {
    var preTime: Option<real> := None;
    for i := 0 to |points|
      invariant preTime == if i == 0 then None else Some(points[i - 1].time)
      invariant forall k :: 0 < k < i ==> points[k - 1].time < points[k].time
    {
      var t := points[i].time;
      if AtOrBefore(t, preTime) {
        assert !StrictlyIncreasing(Times(points)) by {
          assert Times(points)[i - 1] >= Times(points)[i];
        }
        return false;
      }
      preTime := Some(t);
    }
    return true;
  }

  // ---------------------------------------------------------------------
  // The weight matrix.
  // ---------------------------------------------------------------------

  /** Under FiniteBoundaries every weight calculateWeights produces is finite. */
  lemma AllWeightsFinite(knots: seq<real>, degree: int, j: int, t: real)
    requires 1 <= degree < |knots| && FiniteBoundaries(knots, degree)
    requires 0 <= j <= |knots| - degree
    ensures CalculateWeight(knots, degree, j, t).Some?
  {
    NonFiniteOnlyAtBoundary(knots, degree, j, t);
  }

  /** The weight matrix: one row per point, one column per control point,
      entry (i, j) the weight of control point j at the time of point i. */
  function WeightMatrix(points: seq<Point>, degree: int, knots: seq<real>): (W: Matrix)
    requires |points| > 0 && 1 <= degree < |knots| && FiniteBoundaries(knots, degree)
    ensures W.Valid() && W.HasShape(|points|, |knots| - degree + 1)
  {
    var size := |knots| - degree + 1;
    Matrix(seq(|points|, i requires 0 <= i < |points| =>
      seq(size, j requires 0 <= j < size =>
        AllWeightsFinite(knots, degree, j, points[i].time);
        CalculateWeight(knots, degree, j, points[i].time).value)))
  }

  /** Entry (i, j) of the weight matrix is calculateWeight(knots, degree, j, t_i). */
  lemma WeightMatrixEntries(points: seq<Point>, degree: int, knots: seq<real>, i: int, j: int)
    requires |points| > 0 && 1 <= degree < |knots| && FiniteBoundaries(knots, degree)
    requires 0 <= i < |points| && 0 <= j <= |knots| - degree
    ensures CalculateWeight(knots, degree, j, points[i].time) == Some(WeightMatrix(points, degree, knots).rows[i][j])
  {
    AllWeightsFinite(knots, degree, j, points[i].time);
  }

  /** On sorted knots no entry of the weight matrix is negative. */
  lemma WeightMatrixNonnegative(points: seq<Point>, degree: int, knots: seq<real>, i: int, j: int)
    requires |points| > 0 && 1 <= degree < |knots| && FiniteBoundaries(knots, degree) && Sorted(knots)
    requires 0 <= i < |points| && 0 <= j <= |knots| - degree
    ensures WeightMatrix(points, degree, knots).rows[i][j] >= 0.0
  {
    WeightMatrixEntries(points, degree, knots, i, j);
    WeightNonnegative(knots, degree, j, points[i].time);
  }

  /** Every weight in `row` is finite. */
  predicate AllFinite(row: seq<Option<real>>) {
    forall j :: 0 <= j < |row| ==> row[j].Some?
  }

  /** Some entry of `rows` is non-finite. */
  predicate HasNonFinite(rows: seq<seq<Option<real>>>) {
    exists i :: 0 <= i < |rows| && !AllFinite(rows[i])
  }

  /** createWeightMatrix: the rows of weights, one per point, handed to
      Matrix.create, which rejects no rows at all and non-finite entries. */
  method CreateWeightMatrix(points: seq<Point>, degree: int, knots: seq<real>) returns (r: Result<Matrix>)
    requires 1 <= degree < |knots|
    ensures r.Err? <==> |points| == 0 || !FiniteBoundaries(knots, degree)
    ensures r.Err? ==> r.error == IllegalArgument
    ensures r.Ok? ==> |points| > 0 && FiniteBoundaries(knots, degree) && r.value == WeightMatrix(points, degree, knots)
  {
    var size := |knots| - degree + 1;
    var elements: seq<seq<Option<real>>> := [];
    for i := 0 to |points|
      invariant |elements| == i
      invariant forall k :: 0 <= k < i ==> |elements[k]| == size
      invariant forall k, j :: 0 <= k < i && 0 <= j < size ==>
        elements[k][j] == CalculateWeight(knots, degree, j, points[k].time)
      invariant forall k :: 0 <= k < i ==> (AllFinite(elements[k]) <==> FiniteBoundaries(knots, degree))
    {
      var weights := CalculateWeights(knots, degree, points[i].time);
      assert AllFinite(weights) <==> FiniteBoundaries(knots, degree);
      elements := elements + [weights];
      assert elements[i] == weights;
    }
    if |elements| == 0 || HasNonFinite(elements) {
      assert |points| > 0 ==> !FiniteBoundaries(knots, degree) by {
        if |points| > 0 {
          var k :| 0 <= k < |elements| && !AllFinite(elements[k]);
        }
      }
      return Err(IllegalArgument);
    }
    assert forall k :: 0 <= k < |elements| ==> AllFinite(elements[k]);
    var rows := seq(|elements|, k requires 0 <= k < |elements| =>
      seq(size, j requires 0 <= j < size => elements[k][j].value));
    var m := Matrices.Create(rows);
    var W := WeightMatrix(points, degree, knots);
    forall k | 0 <= k < |rows|
      ensures rows[k] == W.rows[k]
    {
      forall j | 0 <= j < size
        ensures rows[k][j] == W.rows[k][j]
      {
        WeightMatrixEntries(points, degree, knots, k, j);
      }
    }
    return m;
  }

  // ---------------------------------------------------------------------
  // The control points.
  // ---------------------------------------------------------------------

  /** The points' coordinates as an n x 2 matrix, one row [x, y] per point. */
  function Coordinates(points: seq<Point>): (P: Matrix)
    requires |points| > 0
    ensures P.Valid() && P.HasShape(|points|, 2)
    ensures forall i :: 0 <= i < |points| ==> P.rows[i] == [points[i].x, points[i].y]
  {
    Matrix(seq(|points|, i requires 0 <= i < |points| => [points[i].x, points[i].y]))
  }

  /** The least-squares condition the control points meet: their
      coordinates solve the normal equations W^T W X == W^T P of the
      weight matrix W and the input coordinates P. */
  predicate FitsNormalEquations(W: Matrix, controlPoints: seq<Point>, points: seq<Point>)
    requires W.Valid() && W.RowSize() == |points| > 0
  {
    && |controlPoints| == W.ColumnSize()
    && Mul(NormalMatrix(W), Coordinates(controlPoints)) == NormalRhs(W, Coordinates(points))
  }

  /** calculateControlPoints: solves the least-squares problem for the
      coordinates and turns each row of the solution into a control point at
      time 0. A singular normal matrix makes the solver return null, which
      the source dereferences. */
  method CalculateControlPoints(mat: Matrix, points: seq<Point>) returns (r: Result<seq<Point>>)
    requires mat.Valid()
    ensures r.Err? <==> |points| == 0 || mat.RowSize() != |points| || Singular(NormalMatrix(mat))
    ensures r.Err? && |points| > 0 && mat.RowSize() == |points| ==> r.error == NullPointer
    ensures r.Err? && (|points| == 0 || mat.RowSize() != |points|) ==> r.error == IllegalArgument
    ensures r.Ok? ==> |points| > 0 && mat.RowSize() == |points| && FitsNormalEquations(mat, r.value, points)
    ensures r.Ok? ==> forall i :: 0 <= i < |r.value| ==> r.value[i].time == 0.0
  {
    var elements: seq<seq<real>> := [];
    for i := 0 to |points|
      invariant |elements| == i
      invariant forall k :: 0 <= k < i ==> elements[k] == [points[k].x, points[k].y]
    {
      var p := points[i];
      elements := elements + [[p.x, p.y]];
    }
    var b := Matrices.Create(elements);
    if b.Err? {
      return Err(b.error);
    }
    assert b.value == Coordinates(points);
    var solved := LeastSquaresFit.Solve(mat, b.value);
    if solved.Err? {
      return Err(solved.error);
    }
    if solved.value.None? {
      return Err(NullPointer);
    }
    var result := solved.value.value;
    var controlPoints := ControlPointsOf(result);
    return Ok(controlPoints);
  }

  /** The loop that reads row i of the solution as control point i. */
  method ControlPointsOf(result: Matrix) returns (controlPoints: seq<Point>)
    requires result.Valid() && result.ColumnSize() == 2
    ensures |controlPoints| == result.RowSize()
    ensures Coordinates(controlPoints) == result
    ensures forall i :: 0 <= i < |controlPoints| ==> controlPoints[i].time == 0.0
  {
    controlPoints := [];
    for i := 0 to result.RowSize()
      invariant |controlPoints| == i
      invariant forall k :: 0 <= k < i ==>
        controlPoints[k] == CreateXY(result.rows[k][0], result.rows[k][1])
    {
      controlPoints := controlPoints + [CreateXY(result.Get(i, 0).value, result.Get(i, 1).value)];
    }
    assert forall k :: 0 <= k < |controlPoints| ==> result.rows[k] == [result.rows[k][0], result.rows[k][1]];
  }

  // ---------------------------------------------------------------------
  // interpolate.
  // ---------------------------------------------------------------------

  /** Points both overloads accept: at least two, with strictly increasing
      times (the time-series check as intended). */
  predicate AcceptablePoints(points: seq<Point>) {
    |points| >= 2 && StrictlyIncreasing(Times(points))
  }

  /** The curve's range: from the first point's time to the last's. */
  function TimeRange(points: seq<Point>): (range: Range)
    requires AcceptablePoints(points)
    ensures range.Valid() && range.start < range.end
    ensures range.start == points[0].time && range.end == points[|points| - 1].time
  {
    StrictlyIncreasingEnds(Times(points));
    Range(points[0].time, points[|points| - 1].time)
  }

  /** The point checks both overloads share, ending with Range.create;
      every rejection is IllegalArgument. */
  method CheckPoints(points: seq<Point>) returns (r: Result<Range>)
    ensures r.Ok? <==> AcceptablePoints(points)
    ensures r.Ok? ==> r.value == TimeRange(points)
    ensures r.Err? ==> r.error == IllegalArgument
  {
    if |points| < 2 {
      return Err(IllegalArgument);
    }
    var ordered := CheckTimeSeries(points);
    if !ordered {
      return Err(IllegalArgument);
    }
    StrictlyIncreasingEnds(Times(points));
    r := Ranges.Create(points[0].time, points[|points| - 1].time);
  }

  /** The conditions on the knots SplineCurve.create checks that do not
      involve the control points: the range lies inside the knots'
      domain and the knots never decrease. */
  predicate KnotsFit(degree: int, knots: seq<real>, range: Range)
    requires 1 <= degree <= |knots|
  {
    knots[degree - 1] <= range.start && range.end <= knots[|knots| - degree] && Sorted(knots)
  }

  /** The steps both overloads end with: the weight matrix, the control
      points and SplineCurve.create. A boundary weight that is non-finite
      fails with IllegalArgument, a singular normal matrix with the null
      dereference, knots that do not fit the range with IllegalArgument. */
  method Fit(points: seq<Point>, degree: int, knots: seq<real>, range: Range) returns (r: Result<SplineCurve>)
    requires AcceptablePoints(points) && 1 <= degree < |knots|
    ensures r.Err? <==>
      || !FiniteBoundaries(knots, degree)
      || Singular(NormalMatrix(WeightMatrix(points, degree, knots)))
      || !KnotsFit(degree, knots, range)
    ensures r.Err? && !FiniteBoundaries(knots, degree) ==> r.error == IllegalArgument
    ensures r.Err? && FiniteBoundaries(knots, degree) ==>
      r.error == if Singular(NormalMatrix(WeightMatrix(points, degree, knots))) then NullPointer else IllegalArgument
    ensures r.Ok? ==>
      && r.value.Valid()
      && r.value.degree == degree && r.value.knots == knots && r.value.range == range
      && FitsNormalEquations(WeightMatrix(points, degree, knots), r.value.controlPoints, points)
      && (forall i :: 0 <= i < |r.value.controlPoints| ==> r.value.controlPoints[i].time == 0.0)
  {
    var wmat := CreateWeightMatrix(points, degree, knots);
    if wmat.Err? {
      return Err(wmat.error);
    }
    var controlPoints := CalculateControlPoints(wmat.value, points);
    if controlPoints.Err? {
      return Err(controlPoints.error);
    }
    r := Splines.Create(degree, controlPoints.value, knots, range);
  }

  /** The knots the interval overload lays out over the points' range.
      They always suit the fit: their boundary weights are finite, and the
      range starts at knot degree - 1 and ends at knot |knots| - degree of
      a strictly increasing sequence. */
  function IntervalKnots(points: seq<Point>, degree: int, knotInterval: real): (knots: seq<real>)
    requires AcceptablePoints(points) && degree >= 1 && knotInterval > 0.0
    ensures |knots| >= 2 * degree
    ensures FiniteBoundaries(knots, degree) && KnotsFit(degree, knots, TimeRange(points))
  {
    var range := TimeRange(points);
    var n := IntervalCount(range.start, range.end, knotInterval);
    UniformKnotsProperties(range.start, range.end, degree, knotInterval);
    IncreasingKnotsAreFinite(UniformKnots(range.start, range.end, degree, n), degree);
    UniformKnots(range.start, range.end, degree, n)
  }

  /** interpolate(points, degree, knotInterval): rejects a degree below 1,
      a non-positive knot interval, fewer than two points and times that do
      not strictly increase; otherwise the only failure left is a singular
      normal matrix, and the curve it returns is valid, spans the points'
      times, and has the least-squares control points. */
  method InterpolateWithInterval(points: seq<Point>, degree: int, knotInterval: real) returns (r: Result<SplineCurve>)
    ensures degree < 1 || knotInterval <= 0.0 || !AcceptablePoints(points) ==> r == Err(IllegalArgument)
    ensures degree >= 1 && knotInterval > 0.0 && AcceptablePoints(points) ==>
      && (r.Err? <==> Singular(NormalMatrix(WeightMatrix(points, degree, IntervalKnots(points, degree, knotInterval)))))
      && (r.Err? ==> r.error == NullPointer)
      && (r.Ok? ==>
        && r.value.Valid()
        && r.value.degree == degree
        && r.value.knots == IntervalKnots(points, degree, knotInterval)
        && r.value.range == TimeRange(points)
        && FitsNormalEquations(WeightMatrix(points, degree, r.value.knots), r.value.controlPoints, points))
  {
    if degree < 1 {
      return Err(IllegalArgument);
    }
    if knotInterval <= 0.0 {
      return Err(IllegalArgument);
    }
    var range := CheckPoints(points);
    if range.Err? {
      return Err(range.error);
    }
    var knots := CreateKnots(range.value.start, range.value.end, degree, knotInterval);
    r := Fit(points, degree, knots, range.value);
  }

  /** interpolate(points, degree, knots): rejects a degree below 1, at most
      2 * degree - 1 knots, fewer than two points and times that do not
      strictly increase; then fails exactly as Fit does on the given knots. */
  method InterpolateWithKnots(points: seq<Point>, degree: int, knots: seq<real>) returns (r: Result<SplineCurve>)
    ensures degree < 1 || |knots| <= 2 * degree - 1 || !AcceptablePoints(points) ==> r == Err(IllegalArgument)
    ensures degree >= 1 && |knots| > 2 * degree - 1 && AcceptablePoints(points) ==>
      && (r.Err? <==>
        || !FiniteBoundaries(knots, degree)
        || Singular(NormalMatrix(WeightMatrix(points, degree, knots)))
        || !KnotsFit(degree, knots, TimeRange(points)))
      && (r.Err? && FiniteBoundaries(knots, degree) && Singular(NormalMatrix(WeightMatrix(points, degree, knots))) ==>
          r.error == NullPointer)
      && (r.Err? && !(FiniteBoundaries(knots, degree) && Singular(NormalMatrix(WeightMatrix(points, degree, knots)))) ==>
          r.error == IllegalArgument)
      && (r.Ok? ==>
        && r.value.Valid()
        && r.value == SplineCurve(degree, r.value.controlPoints, knots, TimeRange(points))
        && FitsNormalEquations(WeightMatrix(points, degree, knots), r.value.controlPoints, points))
  {
    if degree < 1 {
      return Err(IllegalArgument);
    }
    if |knots| <= 2 * degree - 1 {
      return Err(IllegalArgument);
    }
    var range := CheckPoints(points);
    if range.Err? {
      return Err(range.error);
    }
    r := Fit(points, degree, knots, range.value);
  }
}
