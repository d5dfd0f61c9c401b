/** A B-spline curve: degree, control points, knots and parameter range
    (SplineCurve.java), with knot-span search and de Boor evaluation. */
module Splines {
  import opened Outcomes
  import opened Points
  import opened Ranges

  /** Each knot is at least its predecessor: the check create's loop makes. */
  predicate NonDecreasing(s: seq<real>) {
    forall i :: 0 < i < |s| ==> s[i - 1] <= s[i]
  }

  /** Every pair of knots is in order. */
  predicate Sorted(s: seq<real>) {
    forall i, j :: 0 <= i <= j < |s| ==> s[i] <= s[j]
  }

  lemma {:induction false} NonDecreasingPair(s: seq<real>, i: int, j: int)
    requires NonDecreasing(s) && 0 <= i <= j < |s|
    ensures s[i] <= s[j]
    decreases j - i
  {
    if i < j {
      NonDecreasingPair(s, i, j - 1);
    }
  }

  /** Checking neighbours is enough: the adjacent check and full sortedness agree. */
  lemma NonDecreasingIffSorted(s: seq<real>)
    ensures NonDecreasing(s) <==> Sorted(s)
  {
    if NonDecreasing(s) {
      forall i, j | 0 <= i <= j < |s|
        ensures s[i] <= s[j]
      {
        NonDecreasingPair(s, i, j);
      }
    }
  }

  /** The first index in [r, hi] whose knot lies above t, or hi when there
      is none: a linear scan that the binary search is measured against. */
  function SpanFrom(knots: seq<real>, t: real, r: int, hi: int): (s: int)
    requires 0 <= r <= hi < |knots|
    ensures r <= s <= hi
    ensures s == hi || t < knots[s]
    decreases hi - r
  {
    if r == hi || t < knots[r] then r else SpanFrom(knots, t, r + 1, hi)
  }

  /** The scan stops at the first index r whose knot lies above t (or at hi). */
  lemma {:induction false} SpanFromFinds(knots: seq<real>, t: real, lo: int, hi: int, r: int)
    requires 0 <= lo <= r <= hi < |knots|
    requires r == hi || t < knots[r]
    requires forall k :: lo <= k < r ==> knots[k] <= t
    ensures SpanFrom(knots, t, lo, hi) == r
    decreases r - lo
  {
    if lo < r {
      SpanFromFinds(knots, t, lo + 1, hi, r);
    }
  }

  /** If t is at least the knot before lo and below knots[hi], the scan
      returns the span [knots[s-1], knots[s]) holding t. */
  lemma {:induction false} SpanFromBrackets(knots: seq<real>, t: real, lo: int, hi: int)
    requires 1 <= lo <= hi < |knots|
    requires knots[lo - 1] <= t < knots[hi]
    ensures var s := SpanFrom(knots, t, lo, hi); knots[s - 1] <= t < knots[s]
    decreases hi - lo
  {
    if lo < hi && knots[lo] <= t {
      SpanFromBrackets(knots, t, lo + 1, hi);
    }
  }

  /** SplineCurve: the source's constructor stores the four values as given. */
  datatype SplineCurve = SplineCurve(degree: int, controlPoints: seq<Point>, knots: seq<real>, range: Range) {

    /** What create checks: degree at least 1, the range inside
        [knots[degree-1], knots[|knots|-degree]], |knots| == |cp| + degree - 1,
        knots in order. */
    predicate Valid() {
      && 1 <= degree <= |knots|
      && knots[degree - 1] <= range.start && range.end <= knots[|knots| - degree]
      && |knots| == |controlPoints| + degree - 1
      && Sorted(knots)
    }

    /** range(): a fresh Range built by Range.create, so it fails when the
        stored range has start > end. */
    function CopyRange(): (r: Result<Range>)
      ensures r.Ok? <==> range.Valid()
      ensures r.Ok? ==> r.value == range
      ensures r.Err? ==> r.error == IllegalArgument
    {
      Ranges.Create(range.start, range.end)
    }

    /** equals: same degree, control points, knots and range. Points are
        values here, so control points are compared by value, not by
        reference as Arrays.deepEquals does on Point objects. */
    predicate Equals(other: SplineCurve) {
      && degree == other.degree
      && controlPoints == other.controlPoints
      && knots == other.knots
      && range.Equals(other.range)
    }

    /** searchKnotNum: the span index for t among knots[minIndex..maxIndex],
        by binary search. */
    method SearchKnotNum(t: real, minIndex: int, maxIndex: int) returns (r: Result<int>)
      ensures minIndex < 0 || maxIndex >= |knots| ==> r == Err(IndexOutOfBounds)
      ensures 0 <= minIndex && maxIndex < |knots| && minIndex > maxIndex ==> r == Err(IllegalArgument)
      ensures r.Ok? <==> 0 <= minIndex <= maxIndex < |knots|
      ensures r.Ok? && knots[maxIndex] <= t ==> r.value == maxIndex
      ensures r.Ok? && minIndex < maxIndex ==> minIndex < r.value <= maxIndex
      ensures r.Ok? && minIndex == maxIndex && t < knots[maxIndex] ==> r.value == maxIndex + 1
      ensures r.Ok? && knots[minIndex] <= t < knots[maxIndex] ==> knots[r.value - 1] <= t < knots[r.value]
      ensures r.Ok? && Sorted(knots) && minIndex < maxIndex ==> r.value == SpanFrom(knots, t, minIndex + 1, maxIndex)
    {
      if minIndex < 0 || maxIndex >= |knots| {
        return Err(IndexOutOfBounds);
      }
      if minIndex > maxIndex {
        return Err(IllegalArgument);
      }
      if knots[maxIndex] <= t {
        if Sorted(knots) && minIndex < maxIndex {
          SpanFromFinds(knots, t, minIndex + 1, maxIndex, maxIndex);
        }
        return Ok(maxIndex);
      }
      if minIndex == maxIndex {
        return Ok(minIndex + 1);
      }
      var found := BinarySearch(t, minIndex, maxIndex);
      return Ok(found);
    }

    /** The do-while loop of searchKnotNum, entered with
        minIndex < maxIndex and t below knots[maxIndex]. */
    method BinarySearch(t: real, minIndex: int, maxIndex: int) returns (r: int)
      requires 0 <= minIndex < maxIndex < |knots| && t < knots[maxIndex]
      ensures minIndex < r <= maxIndex
      ensures knots[minIndex] <= t ==> knots[r - 1] <= t < knots[r]
      ensures Sorted(knots) ==> r == SpanFrom(knots, t, minIndex + 1, maxIndex)
    {
      var lo, hi := minIndex, maxIndex;
      // The source's do-while: its condition holds on entry.
      while lo <= hi
        invariant minIndex <= lo <= hi + 1 && hi <= maxIndex
        invariant lo <= maxIndex - 1
        invariant knots[minIndex] <= t ==> knots[lo] <= t
        invariant hi < maxIndex ==> t < knots[hi + 1]
        invariant Sorted(knots) && t < knots[minIndex] ==> lo == minIndex
        decreases hi - lo
      {
        var i := (lo + hi) / 2;
        if knots[i] <= t && t < knots[i + 1] {
          if Sorted(knots) {
            SpanFromFinds(knots, t, minIndex + 1, maxIndex, i + 1);
          }
          return i + 1;
        } else if t < knots[i] {
          hi := i - 1;
        } else {
          lo := i + 1;
        }
      }
      return lo + 1;
    }

    /** span leaves room for the window cp[span-degree..span] and for every
        knot the blends read. */
    predicate HasWindow(span: int) {
      && 1 <= degree <= span && span + degree <= |knots|
      && |knots| == |controlPoints| + degree - 1
    }

    /** The first knot the de Boor blend for window entry m at level i reads
        (the source's k, with j == degree - m). */
    function LowKnot(span: int, m: int): int {
      span - degree + m - 1
    }

    /** The denominator knots[k + degree - i] - knots[k] of that blend. */
    function Denominator(span: int, i: int, m: int): real
      requires HasWindow(span)
      requires 0 <= i < degree && i < m <= degree
    {
      knots[LowKnot(span, m) + degree - i] - knots[LowKnot(span, m)]
    }

    /** The blend weight w, taken as 0 where the source would fail. */
    function Weight(span: int, t: real, i: int, m: int): real
      requires HasWindow(span)
      requires 0 <= i < degree && i < m <= degree
    {
      var d := Denominator(span, i, m);
      if d == 0.0 then 0.0 else (t - knots[LowKnot(span, m)]) / d
    }

    /** Entry m of the window part[] after i rounds of the de Boor loop:
        round i replaces entries i+1..degree by the blend of each with its
        left neighbour. */
    function Blended(span: int, t: real, i: int, m: int): Point
      requires HasWindow(span)
      requires 0 <= i <= degree && 0 <= m <= degree
      decreases i
    {
      if i == 0 then controlPoints[span - degree + m]
      else if m < i then Blended(span, t, i - 1, m)
      else
        var w := Weight(span, t, i - 1, m);
        Blended(span, t, i - 1, m).InternalDivision(Blended(span, t, i - 1, m - 1), 1.0 - w, w)
    }

    /** Some blend on this span divides by zero. */
    predicate Degenerate(span: int)
      requires HasWindow(span)
    {
      exists i, m :: 0 <= i < degree && i < m <= degree && Denominator(span, i, m) == 0.0
    }

    /** The span evaluate uses for t, when there is more than one candidate. */
    function Span(t: real): (span: int)
      requires Valid() && |controlPoints| > degree
      ensures degree <= span <= |knots| - degree && HasWindow(span)
    {
      SpanFrom(knots, t, degree, |knots| - degree)
    }

    /** The evaluated point: the last window entry, at time t. */
    function DeBoor(span: int, t: real): (p: Point)
      requires HasWindow(span)
      ensures p.time == t
    {
      var q := Blended(span, t, degree, degree);
      CreateXYT(q.x, q.y, t)
    }

    /** Round i + 1 of the blend, unfolded for an entry it replaces. */
    lemma BlendedStep(span: int, t: real, i: int, m: int)
      requires HasWindow(span) && 0 <= i < degree && i < m <= degree
      ensures Blended(span, t, i + 1, m) ==
        Blended(span, t, i, m).InternalDivision(Blended(span, t, i, m - 1), 1.0 - Weight(span, t, i, m), Weight(span, t, i, m))
    {
    }

    /** One pass of the inner de Boor loop: part[m] becomes the blend of
        part[m] and part[m-1] with the weight for knots k == LowKnot(span, m)
        and k + degree - i; false, with nothing changed, when that
        denominator is zero. */
    method BlendEntry(part: array<Point>, span: int, t: real, i: int, m: int) returns (ok: bool)
      requires HasWindow(span) && 0 <= i < degree && i < m <= degree
      requires part.Length == degree + 1
      requires part[m] == Blended(span, t, i, m) && part[m - 1] == Blended(span, t, i, m - 1)
      modifies part
      ensures ok <==> Denominator(span, i, m) != 0.0
      ensures ok ==> part[m] == Blended(span, t, i + 1, m)
      ensures forall k :: 0 <= k < part.Length && k != m ==> part[k] == old(part[k])
    {
      var k := span - (degree - m) - 1;
      var denominator := knots[k + degree - i] - knots[k];
      assert denominator == Denominator(span, i, m);
      if denominator == 0.0 {
        return false;
      }
      var w := (t - knots[k]) / denominator;
      assert w == Weight(span, t, i, m);
      BlendedStep(span, t, i, m);
      part[m] := part[m].InternalDivision(part[m - 1], 1.0 - w, w);
      return true;
    }

    /** Round i of evaluate's de Boor loop (the inner loop over j, which
        blends entry degree - j). It stops with false at the first zero
        denominator, where the source's internalDivision throws. */
    method BlendRound(part: array<Point>, span: int, t: real, i: int) returns (ok: bool)
      requires HasWindow(span) && 0 <= i < degree
      requires part.Length == degree + 1
      requires forall m :: 0 <= m <= degree ==> part[m] == Blended(span, t, i, m)
      modifies part
      ensures ok <==> forall m :: i < m <= degree ==> Denominator(span, i, m) != 0.0
      ensures ok ==> forall m :: 0 <= m <= degree ==> part[m] == Blended(span, t, i + 1, m)
    {
      ghost var next := i + 1;
      for j := 0 to degree - i
        invariant forall m :: 0 <= m <= degree - j ==> part[m] == Blended(span, t, i, m)
        invariant forall m :: degree - j < m <= degree ==> part[m] == Blended(span, t, next, m)
        invariant forall m :: degree - j < m <= degree ==> Denominator(span, i, m) != 0.0
      {
        ok := BlendEntry(part, span, t, i, degree - j);
        if !ok {
          return;
        }
      }
      forall m | 0 <= m <= i
        ensures part[m] == Blended(span, t, next, m)
      {
      }
      return true;
    }

    /** The first half of evaluate: searchKnotNum over
        [degree-1, |knots|-degree], then the bounds System.arraycopy checks
        before copying cp[span-degree..span]. */
    method LocateWindow(t: real) returns (r: Result<int>)
      requires Valid()
      ensures |controlPoints| < degree ==> r == Err(IllegalArgument)
      ensures |controlPoints| == degree ==> r == Err(IndexOutOfBounds)
      ensures |controlPoints| > degree ==> r == Ok(Span(t))
    {
      var search := SearchKnotNum(t, degree - 1, |knots| - degree);
      if search.Err? {
        return Err(search.error);
      }
      var span := search.value;
      if span - degree < 0 || span + 1 > |controlPoints| {
        return Err(IndexOutOfBounds);
      }
      return Ok(span);
    }

    /** The window part[0..degree] == cp[span-degree..span], in a fresh array. */
    method CopyWindow(span: int, t: real) returns (part: array<Point>)
      requires HasWindow(span)
      ensures fresh(part) && part.Length == degree + 1
      ensures forall m :: 0 <= m <= degree ==> part[m] == Blended(span, t, 0, m)
    {
      part := new Point[degree + 1];
      forall m | 0 <= m <= degree {
        part[m] := controlPoints[span - degree + m];
      }
    }

    /** The outer de Boor loop: degree rounds over the copied window. */
    method BlendRounds(part: array<Point>, span: int, t: real) returns (ok: bool)
      requires HasWindow(span) && part.Length == degree + 1
      requires forall m :: 0 <= m <= degree ==> part[m] == Blended(span, t, 0, m)
      modifies part
      ensures ok <==> !Degenerate(span)
      ensures ok ==> part[degree] == Blended(span, t, degree, degree)
    {
      for i := 0 to degree
        invariant forall m :: 0 <= m <= degree ==> part[m] == Blended(span, t, i, m)
        invariant forall i', m :: 0 <= i' < i && i' < m <= degree ==> Denominator(span, i', m) != 0.0
      {
        ok := BlendRound(part, span, t, i);
        if !ok {
          return;
        }
      }
      return true;
    }

    /** evaluate: copies the window cp[span-degree..span] and blends it in
        place. Too few control points fail in searchKnotNum or in the copy;
        a zero blend denominator fails in internalDivision. */
    method Evaluate(t: real) returns (p: Result<Point>)
      requires Valid()
      ensures |controlPoints| < degree ==> p == Err(IllegalArgument)
      ensures |controlPoints| == degree ==> p == Err(IndexOutOfBounds)
      ensures |controlPoints| > degree ==> (p.Err? <==> Degenerate(Span(t)))
      ensures |controlPoints| > degree && p.Err? ==> p.error == IllegalArgument
      ensures p.Ok? ==> |controlPoints| > degree && p.value == DeBoor(Span(t), t) && p.value.time == t
    {
      var located := LocateWindow(t);
      if located.Err? {
        return Err(located.error);
      }
      var span := located.value;
      var part := CopyWindow(span, t);
      var ok := BlendRounds(part, span, t);
      if !ok {
        return Err(IllegalArgument);
      }
      var q := part[degree];
      p := Ok(CreateXYT(q.x, q.y, t));
    }

    /** Inside the curve's knot span, the span evaluate picks brackets t. */
    lemma SpanBrackets(t: real)
      requires Valid() && |controlPoints| > degree
      requires knots[degree - 1] <= t < knots[|knots| - degree]
      ensures knots[Span(t) - 1] <= t < knots[Span(t)]
    {
      SpanFromBrackets(knots, t, degree, |knots| - degree);
    }

    /** On sorted knots, a span of positive length has no zero denominator:
        every blend reads one knot at or below knots[span-1] and one at or
        above knots[span]. */
    lemma NondegenerateSpan(span: int)
      requires Valid() && HasWindow(span) && knots[span - 1] < knots[span]
      ensures !Degenerate(span)
    {
      forall i, m | 0 <= i < degree && i < m <= degree
        ensures Denominator(span, i, m) > 0.0
      {
        var low := LowKnot(span, m);
        assert knots[low] <= knots[span - 1];
        assert knots[span] <= knots[low + degree - i];
      }
    }

    /** evaluate succeeds for every t in the closed knot span
        [knots[degree-1], knots[|knots|-degree]] of a valid curve. At the
        right end, which searchKnotNum resolves to the last span, the last
        span must have positive length. */
    lemma EvaluateDefinedInside(t: real)
      requires Valid() && |controlPoints| > degree
      requires knots[degree - 1] <= t <= knots[|knots| - degree]
      requires t == knots[|knots| - degree] ==> knots[|knots| - degree - 1] < knots[|knots| - degree]
      ensures !Degenerate(Span(t))
    {
      if t < knots[|knots| - degree] {
        SpanBrackets(t);
      } else {
        SpanAtEnd();
      }
      NondegenerateSpan(Span(t));
    }

    /** The right end of the knot span resolves to the last span. */
    lemma SpanAtEnd()
      requires Valid() && |controlPoints| > degree
      ensures Span(knots[|knots| - degree]) == |knots| - degree
    {
      var hi := |knots| - degree;
      SpanFromFinds(knots, knots[hi], degree, hi, hi);
    }

    /** Degree 1: evaluate is linear interpolation between the two control
        points of the span, (1 - w) cp[span-1] + w cp[span] with
        w == (t - knots[span-1]) / (knots[span] - knots[span-1]). */
    lemma DegreeOneIsLinear(span: int, t: real)
      requires degree == 1 && HasWindow(span) && knots[span] != knots[span - 1]
      ensures var w := (t - knots[span - 1]) / (knots[span] - knots[span - 1]);
        DeBoor(span, t) == Point((1.0 - w) * controlPoints[span - 1].x + w * controlPoints[span].x,
                                 (1.0 - w) * controlPoints[span - 1].y + w * controlPoints[span].y, t)
    {
      var w := (t - knots[span - 1]) / (knots[span] - knots[span - 1]);
      assert Weight(span, t, 0, 1) == w;
      var p, q := controlPoints[span], controlPoints[span - 1];
      assert Blended(span, t, 1, 1) == p.InternalDivision(q, 1.0 - w, w);
      InternalDivisionAffine(p, q, 1.0 - w);
    }

    /** Blending equal points gives that point back, at every level. */
    lemma {:induction false} BlendedConstant(span: int, t: real, i: int, m: int, c: Point)
      requires HasWindow(span) && 0 <= i <= degree && 0 <= m <= degree
      requires forall k :: 0 <= k < |controlPoints| ==> controlPoints[k] == c
      ensures Blended(span, t, i, m) == c
      decreases i
    {
      if i > 0 {
        BlendedConstant(span, t, i - 1, m, c);
        if m >= i {
          BlendedConstant(span, t, i - 1, m - 1, c);
          var w := Weight(span, t, i - 1, m);
          InternalDivisionAffine(c, c, 1.0 - w);
        }
      }
    }

    /** A curve whose control points all equal c passes through c's
        coordinates everywhere: the blend weights of each round sum to 1. */
    lemma ConstantControlPoints(span: int, t: real, c: Point)
      requires HasWindow(span)
      requires forall k :: 0 <= k < |controlPoints| ==> controlPoints[k] == c
      ensures DeBoor(span, t) == Point(c.x, c.y, t)
    {
      BlendedConstant(span, t, degree, degree, c);
    }

    /** equals holds exactly for the same curve. */
    lemma EqualsIffSame(other: SplineCurve)
      ensures Equals(other) <==> this == other
    {
      Ranges.EqualsIffSame(range, other.range);
    }
  }

  /** SplineCurve.create: succeeds exactly on valid curves. A degree below 1
      fails first; too few knots for the range check fail with an index
      error; every other rejection is IllegalArgument. */
  method Create(degree: int, controlPoints: seq<Point>, knots: seq<real>, range: Range) returns (r: Result<SplineCurve>)
    ensures degree < 1 ==> r == Err(IllegalArgument)
    ensures 1 <= degree && |knots| < degree ==> r == Err(IndexOutOfBounds)
    ensures r.Ok? <==> SplineCurve(degree, controlPoints, knots, range).Valid()
    ensures r.Ok? ==> r.value == SplineCurve(degree, controlPoints, knots, range)
    ensures r.Err? && 1 <= degree <= |knots| ==> r.error == IllegalArgument
  {
    if degree < 1 {
      return Err(IllegalArgument);
    }
    if |knots| < degree {
      return Err(IndexOutOfBounds);
    }
    if range.start < knots[degree - 1] || knots[|knots| - degree] < range.end {
      return Err(IllegalArgument);
    }
    if |knots| != |controlPoints| + degree - 1 {
      return Err(IllegalArgument);
    }
    var pre := knots[0];
    for i := 0 to |knots|
      invariant pre == knots[if i == 0 then 0 else i - 1]
      invariant NonDecreasing(knots[..i])
    {
      if knots[i] < pre {
        assert !Sorted(knots) by {
          assert knots[i - 1] > knots[i];
        }
        return Err(IllegalArgument);
      }
      pre := knots[i];
    }
    assert knots[..|knots|] == knots;
    NonDecreasingIffSorted(knots);
    return Ok(SplineCurve(degree, controlPoints, knots, range));
  }
}
