/** The B-spline basis of SplineCurveInterpolator.java: uniform knot
    generation (createKnots) and the Cox-de Boor recursion with its special
    cases at the first and last control point (calculateWeight). */
module Basis {
  import opened Outcomes
  import opened Splines

  /** Math.ceil on an exact real, as an integer. */
  function Ceil(x: real): (n: int)
    ensures (n - 1) as real < x <= n as real
  {
    -((-x).Floor)
  }

  /** The number of knot intervals createKnots puts in [start, end]:
      ceil((end - start) / knotInterval). */
  function IntervalCount(start: real, end: real, knotInterval: real): (n: int)
    requires start < end && knotInterval > 0.0
    ensures n >= 1
    ensures (n - 1) as real * knotInterval < end - start <= n as real * knotInterval
  {
    var ratio := (end - start) / knotInterval;
    var n := Ceil(ratio);
    assert (n - 1) as real < ratio <= n as real;
    assert ratio * knotInterval == end - start;
    n
  }

  /** Knot i of the uniform sequence: the point dividing [start, end] at
      w == (i - degree + 1) / n, so knots run past both ends by degree - 1
      intervals. */
  function UniformKnot(start: real, end: real, degree: int, n: int, i: int): real
    requires n >= 1
  {
    var w := (i - degree + 1) as real / n as real;
    (1.0 - w) * start + w * end
  }

  /** Knot i in closed form: start plus (i - degree + 1) equal steps. */
  lemma {:induction false} UniformKnotClosedForm(start: real, end: real, degree: int, n: int, i: int)
    requires n >= 1
    ensures UniformKnot(start, end, degree, n, i) == start + (i - degree + 1) as real * ((end - start) / n as real)
  {
    var w := (i - degree + 1) as real / n as real;
    assert w == (i - degree + 1) as real * (1.0 / n as real);
    assert (end - start) / n as real == (end - start) * (1.0 / n as real);
  }

  /** Neighbouring knots are one step (end - start) / n apart. */
  lemma {:induction false} UniformKnotStep(start: real, end: real, degree: int, n: int, i: int)
    requires n >= 1
    ensures UniformKnot(start, end, degree, n, i + 1) - UniformKnot(start, end, degree, n, i) == (end - start) / n as real
  {
    UniformKnotClosedForm(start, end, degree, n, i);
    UniformKnotClosedForm(start, end, degree, n, i + 1);
    var step := (end - start) / n as real;
    assert (i + 1 - degree + 1) as real * step == (i - degree + 1) as real * step + step;
  }

  /** The knots createKnots returns for a range and a count n. */
  function UniformKnots(start: real, end: real, degree: int, n: int): (knots: seq<real>)
    requires n >= 1 && degree >= 1
    ensures |knots| == n + 2 * degree - 1
  {
    seq(n + 2 * degree - 1, i => UniformKnot(start, end, degree, n, i))
  }

  /** The uniform knots strictly increase, one step (end - start) / n apart. */
  lemma {:induction false} UniformKnotsIncrease(start: real, end: real, degree: int, n: int)
    requires start < end && n >= 1 && degree >= 1
    ensures var knots := UniformKnots(start, end, degree, n);
      forall i :: 0 < i < |knots| ==> knots[i] - knots[i - 1] == (end - start) / n as real
  {
    var knots := UniformKnots(start, end, degree, n);
    forall i | 0 < i < |knots|
      ensures knots[i] - knots[i - 1] == (end - start) / n as real
    {
      UniformKnotStep(start, end, degree, n, i - 1);
    }
  }

  /** The step (end - start) / n is positive and at most knotInterval. */
  lemma {:induction false} StepWithinInterval(start: real, end: real, knotInterval: real)
    requires start < end && knotInterval > 0.0
    ensures var step := (end - start) / IntervalCount(start, end, knotInterval) as real;
      0.0 < step <= knotInterval
  {
    var n := IntervalCount(start, end, knotInterval) as real;
    var step := (end - start) / n;
    assert step * n == end - start;
    assert end - start <= n * knotInterval;
  }

  /** The range's ends are knots degree - 1 and n + degree - 1. */
  lemma {:induction false} UniformKnotsEnds(start: real, end: real, degree: int, n: int)
    requires n >= 1 && degree >= 1
    ensures var knots := UniformKnots(start, end, degree, n);
      knots[degree - 1] == start && knots[|knots| - degree] == end
  {
    assert UniformKnot(start, end, degree, n, degree - 1) == start;
    assert n + degree - 1 - degree + 1 == n;
    DivSelf(n as real);
    assert UniformKnot(start, end, degree, n, n + degree - 1) == end;
  }

  /** A non-zero real divided by itself is 1. */
  lemma DivSelf(x: real)
    requires x != 0.0
    ensures x / x == 1.0
  {
  }

  /** createKnots: the range's start is knot degree - 1 and its end is knot
      n + degree - 1, that is the knot |knots| - degree that SplineCurve
      requires the range to end before; with start < end the knots strictly
      increase, in steps of at most knotInterval. */
  lemma {:induction false} UniformKnotsProperties(start: real, end: real, degree: int, knotInterval: real)
    requires start < end && knotInterval > 0.0 && degree >= 1
    ensures var n := IntervalCount(start, end, knotInterval);
      var knots := UniformKnots(start, end, degree, n);
      && knots[degree - 1] == start
      && knots[|knots| - degree] == end
      && (forall i :: 0 < i < |knots| ==> knots[i - 1] < knots[i] && knots[i] - knots[i - 1] <= knotInterval)
      && Sorted(knots)
  {
    var n := IntervalCount(start, end, knotInterval);
    var knots := UniformKnots(start, end, degree, n);
    UniformKnotsEnds(start, end, degree, n);
    UniformKnotsIncrease(start, end, degree, n);
    StepWithinInterval(start, end, knotInterval);
    NonDecreasingIffSorted(knots);
  }

  /** createKnots, with n == ceil((end - start) / knotInterval). The source
      divides by n, so it needs start < end (n == 0 gives non-finite knots). */
  method CreateKnots(start: real, end: real, degree: int, knotInterval: real) returns (knots: seq<real>)
    requires start < end && knotInterval > 0.0 && degree >= 1
    ensures knots == UniformKnots(start, end, degree, IntervalCount(start, end, knotInterval))
  {
    var knotIntervalNum := Ceil((end - start) / knotInterval);
    var a := new real[knotIntervalNum + 2 * degree - 1];
    for i := 0 to a.Length
      invariant forall k :: 0 <= k < i ==> a[k] == UniformKnot(start, end, degree, knotIntervalNum, k)
    {
      var w := (i - degree + 1) as real / knotIntervalNum as real;
      a[i] := (1.0 - w) * start + w * end;
    }
    knots := a[..];
  }

  /** Arguments calculateWeight is called with from calculateWeights: a
      degree of at least 1 and an index 0 .. |knots| - degree. */
  predicate TopLevel(knots: seq<real>, degree: int, i: int) {
    1 <= degree < |knots| && 0 <= i <= |knots| - degree
  }

  /** Arguments of every recursive call: the general case keeps
      1 <= i and i + degree <= |knots| - 1. */
  predicate Inner(knots: seq<real>, degree: int, i: int) {
    0 <= degree && 1 <= i && i + degree < |knots|
  }

  /** The two denominators calculateWeight divides by without a guard are
      non-zero: knots[degree] - knots[0] and knots[|knots|-1] - knots[|knots|-degree-1]. */
  predicate FiniteBoundaries(knots: seq<real>, degree: int)
    requires 1 <= degree < |knots|
  {
    knots[degree] != knots[0] && knots[|knots| - 1] != knots[|knots| - degree - 1]
  }

  /** The coefficient (t - knots[i-1]) / (knots[i+degree-1] - knots[i-1]);
      the general case takes it as 0 where the denominator is 0, and the
      last-index case only uses it where the denominator is not 0. */
  function LeftCoefficient(knots: seq<real>, degree: int, i: int, t: real): real
    requires 0 <= degree && 1 <= i && i + degree - 1 < |knots|
  {
    var denom1 := knots[i + degree - 1] - knots[i - 1];
    if denom1 != 0.0 then (t - knots[i - 1]) / denom1 else 0.0
  }

  /** The coefficient (knots[i+degree] - t) / (knots[i+degree] - knots[i]),
      0 where the denominator is 0, as for LeftCoefficient. */
  function RightCoefficient(knots: seq<real>, degree: int, i: int, t: real): real
    requires 0 <= degree && 0 <= i && i + degree < |knots|
  {
    var denom2 := knots[i + degree] - knots[i];
    if denom2 != 0.0 then (knots[i + degree] - t) / denom2 else 0.0
  }

  /** Each coefficient is its quotient where the denominator is non-zero
      and 0 where it is zero, so the general case never divides by zero. */
  lemma {:induction false} CoefficientsGuarded(knots: seq<real>, degree: int, i: int, t: real)
    requires 0 <= degree && 1 <= i && i + degree < |knots|
    ensures var denom1 := knots[i + degree - 1] - knots[i - 1];
      && (denom1 == 0.0 ==> LeftCoefficient(knots, degree, i, t) == 0.0)
      && (denom1 != 0.0 ==> LeftCoefficient(knots, degree, i, t) * denom1 == t - knots[i - 1])
    ensures var denom2 := knots[i + degree] - knots[i];
      && (denom2 == 0.0 ==> RightCoefficient(knots, degree, i, t) == 0.0)
      && (denom2 != 0.0 ==> RightCoefficient(knots, degree, i, t) * denom2 == knots[i + degree] - t)
  {
  }

  /** One term of the recursion: a coefficient times a lower-degree weight. */
  function Term(c: real, w: real): real { c * w }

  /** calculateWeight: the weight of control point i at time t. `None`
      stands for the non-finite double the source computes when a boundary
      denominator is zero. */
  function CalculateWeight(knots: seq<real>, degree: int, i: int, t: real): (w: Option<real>)
    requires TopLevel(knots, degree, i) || Inner(knots, degree, i)
    ensures Inner(knots, degree, i) ==> w.Some?
    decreases degree
  {
    if i == 0 then
      var d := knots[i + degree] - knots[i];
      if d == 0.0 then None
      else Some(Term(RightCoefficient(knots, degree, i, t), CalculateWeight(knots, degree - 1, i + 1, t).value))
    else if i == |knots| - degree then
      var d := knots[i + degree - 1] - knots[i - 1];
      if d == 0.0 then None
      else Some(Term(LeftCoefficient(knots, degree, i, t), CalculateWeight(knots, degree - 1, i, t).value))
    else if degree == 0 then
      Some(if knots[i - 1] <= t < knots[i] then 1.0 else 0.0)
    else
      Some(Term(LeftCoefficient(knots, degree, i, t), CalculateWeight(knots, degree - 1, i, t).value)
      + Term(RightCoefficient(knots, degree, i, t), CalculateWeight(knots, degree - 1, i + 1, t).value))
  }

  /** A weight is non-finite exactly at a boundary index whose
      denominator is zero; every other weight is finite. */
  lemma {:induction false} NonFiniteOnlyAtBoundary(knots: seq<real>, degree: int, i: int, t: real)
    requires TopLevel(knots, degree, i)
    ensures CalculateWeight(knots, degree, i, t).None? <==>
      (i == 0 && knots[degree] == knots[0])
      || (i == |knots| - degree && knots[|knots| - 1] == knots[i - 1])
  {
  }

  /** Degree 0: the indicator of the half-open span [knots[i-1], knots[i]). */
  lemma {:induction false} DegreeZeroIsIndicator(knots: seq<real>, i: int, t: real)
    requires Inner(knots, 0, i)
    ensures CalculateWeight(knots, 0, i, t) == Some(if knots[i - 1] <= t && t < knots[i] then 1.0 else 0.0)
  {
  }

  /** On sorted knots, an inner weight vanishes outside [knots[i-1], knots[i+degree]). */
  lemma {:induction false} InnerSupport(knots: seq<real>, degree: int, i: int, t: real)
    requires Inner(knots, degree, i) && Sorted(knots)
    requires t < knots[i - 1] || knots[i + degree] <= t
    ensures CalculateWeight(knots, degree, i, t) == Some(0.0)
    decreases degree
  {
    if degree > 0 {
      assert knots[i - 1] <= knots[i] && knots[i + degree - 1] <= knots[i + degree];
      InnerSupport(knots, degree - 1, i, t);
      InnerSupport(knots, degree - 1, i + 1, t);
      assert CalculateWeight(knots, degree - 1, i, t).value == 0.0;
      assert CalculateWeight(knots, degree - 1, i + 1, t).value == 0.0;
    } else {
      assert CalculateWeight(knots, degree, i, t) == Some(0.0);
    }
  }

  lemma {:induction false} ProductNonnegative(x: real, y: real)
    requires x >= 0.0 && y >= 0.0
    ensures x * y >= 0.0
  {
  }

  lemma {:induction false} QuotientNonnegative(x: real, y: real)
    requires x >= 0.0 && y > 0.0
    ensures x / y >= 0.0
  {
    var q := x / y;
    assert q * y == x;
  }

  /** On sorted knots the left coefficient is non-negative from knots[i-1] on. */
  lemma {:induction false} LeftCoefficientNonnegative(knots: seq<real>, degree: int, i: int, t: real)
    requires 0 <= degree && 1 <= i && i + degree - 1 < |knots|
    requires knots[i - 1] <= t && knots[i - 1] <= knots[i + degree - 1]
    ensures LeftCoefficient(knots, degree, i, t) >= 0.0
  {
    var denom1 := knots[i + degree - 1] - knots[i - 1];
    if denom1 != 0.0 {
      QuotientNonnegative(t - knots[i - 1], denom1);
    }
  }

  /** On sorted knots the right coefficient is non-negative up to knots[i+degree]. */
  lemma {:induction false} RightCoefficientNonnegative(knots: seq<real>, degree: int, i: int, t: real)
    requires 0 <= degree && 0 <= i && i + degree < |knots|
    requires t <= knots[i + degree] && knots[i] <= knots[i + degree]
    ensures RightCoefficient(knots, degree, i, t) >= 0.0
  {
    var denom2 := knots[i + degree] - knots[i];
    if denom2 != 0.0 {
      QuotientNonnegative(knots[i + degree] - t, denom2);
    }
  }

  /** The general case of calculateWeight, unfolded. */
  lemma {:induction false} InnerUnfold(knots: seq<real>, degree: int, i: int, t: real)
    requires Inner(knots, degree, i) && degree > 0
    ensures CalculateWeight(knots, degree, i, t).value ==
      Term(LeftCoefficient(knots, degree, i, t), CalculateWeight(knots, degree - 1, i, t).value)
      + Term(RightCoefficient(knots, degree, i, t), CalculateWeight(knots, degree - 1, i + 1, t).value)
  {
  }

  /** The first-index case of calculateWeight, unfolded. */
  lemma {:induction false} FirstUnfold(knots: seq<real>, degree: int, t: real)
    requires TopLevel(knots, degree, 0) && knots[degree] != knots[0]
    ensures CalculateWeight(knots, degree, 0, t).value ==
      Term(RightCoefficient(knots, degree, 0, t), CalculateWeight(knots, degree - 1, 1, t).value)
  {
  }

  /** The last-index case of calculateWeight, unfolded. */
  lemma {:induction false} LastUnfold(knots: seq<real>, degree: int, t: real)
    requires TopLevel(knots, degree, |knots| - degree)
    requires knots[|knots| - 1] != knots[|knots| - degree - 1]
    ensures CalculateWeight(knots, degree, |knots| - degree, t).value ==
      Term(LeftCoefficient(knots, degree, |knots| - degree, t), CalculateWeight(knots, degree - 1, |knots| - degree, t).value)
  {
  }

  /** The left term is non-negative once the weight it scales is. */
  lemma {:induction false} LeftTermNonnegative(knots: seq<real>, degree: int, i: int, t: real)
    requires degree >= 1 && Inner(knots, degree - 1, i) && Sorted(knots)
    requires CalculateWeight(knots, degree - 1, i, t).value >= 0.0
    ensures Term(LeftCoefficient(knots, degree, i, t), CalculateWeight(knots, degree - 1, i, t).value) >= 0.0
  {
    if t < knots[i - 1] || knots[i + degree - 1] <= t {
      InnerSupport(knots, degree - 1, i, t);
    } else {
      LeftCoefficientNonnegative(knots, degree, i, t);
      ProductNonnegative(LeftCoefficient(knots, degree, i, t), CalculateWeight(knots, degree - 1, i, t).value);
    }
  }

  /** The right term is non-negative once the weight it scales is. */
  lemma {:induction false} RightTermNonnegative(knots: seq<real>, degree: int, i: int, t: real)
    requires degree >= 1 && Inner(knots, degree - 1, i + 1) && Sorted(knots)
    requires CalculateWeight(knots, degree - 1, i + 1, t).value >= 0.0
    ensures Term(RightCoefficient(knots, degree, i, t), CalculateWeight(knots, degree - 1, i + 1, t).value) >= 0.0
  {
    if t < knots[i] || knots[i + degree] <= t {
      InnerSupport(knots, degree - 1, i + 1, t);
    } else {
      RightCoefficientNonnegative(knots, degree, i, t);
      ProductNonnegative(RightCoefficient(knots, degree, i, t), CalculateWeight(knots, degree - 1, i + 1, t).value);
    }
  }

  /** On sorted knots, every inner weight is non-negative: a coefficient
      can be negative only where the weight it multiplies vanishes. */
  lemma {:induction false} InnerNonnegative(knots: seq<real>, degree: int, i: int, t: real)
    requires Inner(knots, degree, i) && Sorted(knots)
    ensures CalculateWeight(knots, degree, i, t).value >= 0.0
    decreases degree
  {
    if degree > 0 {
      InnerNonnegative(knots, degree - 1, i, t);
      InnerNonnegative(knots, degree - 1, i + 1, t);
      LeftTermNonnegative(knots, degree, i, t);
      RightTermNonnegative(knots, degree, i, t);
      InnerUnfold(knots, degree, i, t);
    }
  }

  /** On sorted knots, every finite weight calculateWeights produces is
      non-negative, the two boundary cases included. */
  lemma {:induction false} WeightNonnegative(knots: seq<real>, degree: int, i: int, t: real)
    requires TopLevel(knots, degree, i) && Sorted(knots)
    requires CalculateWeight(knots, degree, i, t).Some?
    ensures CalculateWeight(knots, degree, i, t).value >= 0.0
  {
    NonFiniteOnlyAtBoundary(knots, degree, i, t);
    if i == 0 {
      FirstWeightNonnegative(knots, degree, t);
    } else if i == |knots| - degree {
      LastWeightNonnegative(knots, degree, t);
    } else {
      InnerNonnegative(knots, degree, i, t);
    }
  }

  /** The first weight is a single right term. */
  lemma {:induction false} FirstWeightNonnegative(knots: seq<real>, degree: int, t: real)
    requires TopLevel(knots, degree, 0) && Sorted(knots)
    requires knots[degree] != knots[0]
    ensures CalculateWeight(knots, degree, 0, t).value >= 0.0
  {
    InnerNonnegative(knots, degree - 1, 1, t);
    RightTermNonnegative(knots, degree, 0, t);
    FirstUnfold(knots, degree, t);
  }

  /** The last weight is a single left term. */
  lemma {:induction false} LastWeightNonnegative(knots: seq<real>, degree: int, t: real)
    requires TopLevel(knots, degree, |knots| - degree) && Sorted(knots)
    requires knots[|knots| - 1] != knots[|knots| - degree - 1]
    ensures CalculateWeight(knots, degree, |knots| - degree, t).value >= 0.0
  {
    InnerNonnegative(knots, degree - 1, |knots| - degree, t);
    LeftTermNonnegative(knots, degree, |knots| - degree, t);
    LastUnfold(knots, degree, t);
  }

  /** At or after the last knot every weight is zero: the half-open degree-0
      spans never contain knots[|knots|-1]. */
  lemma {:induction false} WeightsVanishAtLastKnot(knots: seq<real>, degree: int, i: int, t: real)
    requires TopLevel(knots, degree, i) && Sorted(knots)
    requires knots[|knots| - 1] <= t
    requires CalculateWeight(knots, degree, i, t).Some?
    ensures CalculateWeight(knots, degree, i, t).value == 0.0
  {
    if i == 0 {
      InnerSupport(knots, degree - 1, 1, t);
    } else if i == |knots| - degree {
      InnerSupport(knots, degree - 1, i, t);
    } else {
      InnerSupport(knots, degree, i, t);
    }
  }

  /** For degree 1 the uniform knots end exactly at the range's end, so a
      point at the end of the range gets weight 0 from every control point. */
  lemma {:induction false} DegreeOneEndHasNoWeight(start: real, end: real, knotInterval: real, i: int)
    requires start < end && knotInterval > 0.0
    requires var knots := UniformKnots(start, end, 1, IntervalCount(start, end, knotInterval));
      0 <= i <= |knots| - 1
    ensures var knots := UniformKnots(start, end, 1, IntervalCount(start, end, knotInterval));
      CalculateWeight(knots, 1, i, end) == Some(0.0)
  {
    var knots := UniformKnots(start, end, 1, IntervalCount(start, end, knotInterval));
    UniformKnotsProperties(start, end, 1, knotInterval);
    assert knots[|knots| - 1] == end;
    WeightsVanishAtLastKnot(knots, 1, i, end);
  }

  /** Strictly increasing knots give finite weights everywhere. */
  lemma {:induction false} IncreasingKnotsAreFinite(knots: seq<real>, degree: int)
    requires 1 <= degree < |knots|
    requires forall i :: 0 < i < |knots| ==> knots[i - 1] < knots[i]
    ensures FiniteBoundaries(knots, degree)
  {
    assert knots[0] < knots[1];
    NonDecreasingIffSorted(knots);
    var last := |knots| - 1;
    assert knots[last - 1] < knots[last];
  }

  /** calculateWeights: the weights of all |knots| - degree + 1 control
      points at one time. */
  method CalculateWeights(knots: seq<real>, degree: int, time: real) returns (weights: seq<Option<real>>)
    requires 1 <= degree < |knots|
    ensures |weights| == |knots| - degree + 1
    ensures forall i :: 0 <= i < |weights| ==> weights[i] == CalculateWeight(knots, degree, i, time)
    ensures (forall i :: 0 <= i < |weights| ==> weights[i].Some?) <==> FiniteBoundaries(knots, degree)
  {
    var size := |knots| - degree + 1;
    var a := new Option<real>[size];
    for i := 0 to size
      invariant forall k :: 0 <= k < i ==> a[k] == CalculateWeight(knots, degree, k, time)
    {
      a[i] := CalculateWeight(knots, degree, i, time);
    }
    weights := a[..];
    NonFiniteOnlyAtBoundary(knots, degree, 0, time);
    NonFiniteOnlyAtBoundary(knots, degree, size - 1, time);
    forall i | 0 <= i < size
      ensures weights[i].None? ==> !FiniteBoundaries(knots, degree)
    {
      NonFiniteOnlyAtBoundary(knots, degree, i, time);
    }
  }
}
