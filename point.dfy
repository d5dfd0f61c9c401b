/** A time-stamped point of the plane (Point.java). */
module Points {

  /** x and y coordinates and a time parameter. Every real is finite, so
      the factories' NaN and infinity checks never fail in this model. */
  datatype Point = Point(x: real, y: real, time: real) {

    /** internalDivision: the point dividing this point and `other` in the
        ratio tA : tB, that is (tB * this + tA * other) / (tA + tB) in every
        component, time included. The ratios are normalised by their sum, so
        "1 : 4" and "0.2 : 0.8" give the same point. When the sum is 0, the
        source's division produces a non-finite x or y and it returns this
        point unchanged. */
    function InternalDivision(other: Point, tA: real, tB: real): (r: Point)
      ensures tA + tB == 0.0 ==> r == this
      ensures tA + tB != 0.0 ==>
        && (tA + tB) * r.x == tB * x + tA * other.x
        && (tA + tB) * r.y == tB * y + tA * other.y
        && (tA + tB) * r.time == tB * time + tA * other.time
    {
      var sumOfRatio := tA + tB;
      if sumOfRatio == 0.0 then this
      else Point((tB * x + tA * other.x) / sumOfRatio,
                 (tB * y + tA * other.y) / sumOfRatio,
                 (tB * time + tA * other.time) / sumOfRatio)
    }
  }

  /** Point.createXYT: the accessors give back exactly x, y and t. */
  function CreateXYT(x: real, y: real, t: real): (p: Point)
    ensures p.x == x && p.y == y && p.time == t
  {
    Point(x, y, t)
  }

  /** Point.createXY: a point at time 0. */
  function CreateXY(x: real, y: real): (p: Point)
    ensures p.x == x && p.y == y && p.time == 0.0
  {
    CreateXYT(x, y, 0.0)
  }

  /** The ratio 1 : 1 gives the midpoint. */
  lemma InternalDivisionMidpoint(p: Point, q: Point)
    ensures p.InternalDivision(q, 1.0, 1.0) ==
      Point((p.x + q.x) / 2.0, (p.y + q.y) / 2.0, (p.time + q.time) / 2.0)
  {
  }

  /** The ratio 0 : r (r not 0) gives this point. */
  lemma InternalDivisionAtThis(p: Point, q: Point, r: real)
    requires r != 0.0
    ensures p.InternalDivision(q, 0.0, r) == p
  {
    var d := p.InternalDivision(q, 0.0, r);
    assert r * d.x == r * p.x && r * d.y == r * p.y && r * d.time == r * p.time;
  }

  /** The ratio r : 0 (r not 0) gives the other point. */
  lemma InternalDivisionAtOther(p: Point, q: Point, r: real)
    requires r != 0.0
    ensures p.InternalDivision(q, r, 0.0) == q
  {
    var d := p.InternalDivision(q, r, 0.0);
    assert r * d.x == r * q.x && r * d.y == r * q.y && r * d.time == r * q.time;
  }

  /** Scaling both ratios by the same non-zero factor changes nothing. */
  lemma InternalDivisionScaleInvariant(p: Point, q: Point, tA: real, tB: real, c: real)
    requires c != 0.0
    ensures p.InternalDivision(q, c * tA, c * tB) == p.InternalDivision(q, tA, tB)
  {
    var s := tA + tB;
    assert c * tA + c * tB == c * s;
    if s != 0.0 {
      var u := p.InternalDivision(q, c * tA, c * tB);
      var v := p.InternalDivision(q, tA, tB);
      assert (c * s) * u.x == c * (s * v.x);
      assert (c * s) * u.y == c * (s * v.y);
      assert (c * s) * u.time == c * (s * v.time);
    }
  }

  /** With ratios summing to 1 (as de Boor evaluation uses them), the
      division is the affine blend this + tA * (other - this). */
  lemma InternalDivisionAffine(p: Point, q: Point, w: real)
    ensures p.InternalDivision(q, w, 1.0 - w) ==
      Point(p.x + w * (q.x - p.x), p.y + w * (q.y - p.y), p.time + w * (q.time - p.time))
  {
  }
}
