/** A closed interval [start, end] of parameter values (Range.java). */
module Ranges {
  import opened Outcomes

  /** An interval value. `Create` only builds intervals with start <= end;
      the record itself also admits the source's unchecked constructor. */
  datatype Range = Range(start: real, end: real) {

    /** The invariant `Create` establishes. */
    predicate Valid() { start <= end }

    /** end - start: the interval's length, never negative for a valid range. */
    function Length(): (l: real)
      ensures start + l == end
      ensures Valid() ==> l >= 0.0
    {
      end - start
    }

    /** The midpoint, computed as length / 2 + start. */
    function Middle(): (m: real)
      ensures m - start == end - m
      ensures Valid() ==> start <= m <= end
    {
      Length() / 2.0 + start
    }

    /** Whether d lies in the closed interval (a real is never NaN). */
    predicate IsInner(d: real) {
      start <= d && d <= end
    }

    /** Whether both ends of r lie in this interval. */
    predicate IsInnerRange(r: Range) {
      IsInner(r.start) && IsInner(r.end)
    }

    /** Field-by-field equality, as the source's equals compares start and end. */
    predicate Equals(other: Range) {
      start == other.start && end == other.end
    }
  }

  /** Range.create: fails when start > end (a real is never NaN or infinite). */
  function Create(start: real, end: real): (r: Result<Range>)
    ensures r.Ok? <==> start <= end
    ensures r.Ok? ==> r.value.Valid() && r.value.start == start && r.value.end == end
    ensures r.Err? ==> r.error == IllegalArgument
  {
    if start > end then Err(IllegalArgument) else Ok(Range(start, end))
  }

  /** Range.zeroToOne: the unit interval. The source caches one instance;
      as a value it is the same on every call. */
  function ZeroToOne(): (r: Range)
    ensures r.Valid() && r.start == 0.0 && r.end == 1.0
    ensures r.Length() == 1.0 && r.Middle() == 0.5
  {
    Range(0.0, 1.0)
  }

  /** Both ends of a valid range are inside it. */
  lemma EndsAreInner(r: Range)
    requires r.Valid()
    ensures r.IsInner(r.start) && r.IsInner(r.end) && r.IsInner(r.Middle())
  {
  }

  /** isInner(Range) holds exactly when every value of r is inside this range. */
  lemma IsInnerRangeIffContainsAll(outer: Range, r: Range)
    requires r.Valid()
    ensures outer.IsInnerRange(r) <==> forall d :: r.IsInner(d) ==> outer.IsInner(d)
  {
    if forall d :: r.IsInner(d) ==> outer.IsInner(d) {
      assert r.IsInner(r.start) && r.IsInner(r.end);
    }
  }

  /** isInner(Range) is reflexive on valid ranges. */
  lemma IsInnerRangeReflexive(r: Range)
    requires r.Valid()
    ensures r.IsInnerRange(r)
  {
  }

  /** isInner(Range) is transitive. */
  lemma IsInnerRangeTransitive(a: Range, b: Range, c: Range)
    requires a.IsInnerRange(b) && b.IsInnerRange(c)
    ensures a.IsInnerRange(c)
  {
  }

  /** equals holds exactly when the two ranges are the same value. */
  lemma EqualsIffSame(a: Range, b: Range)
    ensures a.Equals(b) <==> a == b
  {
  }
}
