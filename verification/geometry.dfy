/**
 The geometry kernel: segment/segment and segment/rectangle intersection
 tests on rational points, as used by the visibility test. A segment is
 given by its two endpoints; `At(a1, a2, s)` is the point at parameter s
 along it, so the closed segment is the set of `At(a1, a2, s)` for s in [0, 1].
 */
module Geometry {

  datatype Point = Point(x: real, y: real)

  /** An axis-aligned rectangle with the cc.Rect fields; xMax = x + width, yMax = y + height. */
  datatype Rect = Rect(x: real, y: real, width: real, height: real)

  function XMax(r: Rect): real { r.x + r.width }
  function YMax(r: Rect): real { r.y + r.height }

  /** The point at parameter s on the line through a1 and a2. */
  function At(a1: Point, a2: Point, s: real): Point {
    Point(a1.x + s * (a2.x - a1.x), a1.y + s * (a2.y - a1.y))
  }

  /** The closed segments a1-a2 and b1-b2 share at least one point. */
  ghost predicate SegmentsMeet(a1: Point, a2: Point, b1: Point, b2: Point) {
    exists s: real, t: real :: 0.0 <= s <= 1.0 && 0.0 <= t <= 1.0 && At(a1, a2, s) == At(b1, b2, t)
  }

  /**
   The denominator `u_b` of the parametric solution: the cross product of the
   two direction vectors; it is zero exactly when the segments are parallel
   or collinear (or one of them is a single point).
   */
  function Denominator(a1: Point, a2: Point, b1: Point, b2: Point): real {
    (b2.y - b1.y) * (a2.x - a1.x) - (b2.x - b1.x) * (a2.y - a1.y)
  }

  /** The numerator `ua_t` of the parameter along a1-a2. */
  function NumeratorA(a1: Point, a2: Point, b1: Point, b2: Point): real {
    (b2.x - b1.x) * (a1.y - b1.y) - (b2.y - b1.y) * (a1.x - b1.x)
  }

  /** The numerator `ub_t` of the parameter along b1-b2. */
  function NumeratorB(a1: Point, a2: Point, b1: Point, b2: Point): real {
    (a2.x - a1.x) * (a1.y - b1.y) - (a2.y - a1.y) * (a1.x - b1.x)
  }

  /**
   `intersectionLineLine`: true when the two closed segments cross. A zero
   denominator (parallel or collinear segments) always answers false, even
   when collinear segments overlap; otherwise the answer is exact.
   */
  function IntersectLineLine(a1: Point, a2: Point, b1: Point, b2: Point): (r: bool)
    ensures Denominator(a1, a2, b1, b2) == 0.0 ==> !r
    ensures r ==> SegmentsMeet(a1, a2, b1, b2)
    ensures Denominator(a1, a2, b1, b2) != 0.0 && SegmentsMeet(a1, a2, b1, b2) ==> r
  {
    var ub := Denominator(a1, a2, b1, b2);
    if ub != 0.0 then
      var ua := NumeratorA(a1, a2, b1, b2) / ub;
      var ubb := NumeratorB(a1, a2, b1, b2) / ub;
      ParametersSolve(a1, a2, b1, b2);
      ParametersUnique(a1, a2, b1, b2);
      0.0 <= ua && ua <= 1.0 && 0.0 <= ubb && ubb <= 1.0
    else
      false
  }

  lemma ProductZero(d: real, v: real)
    requires d != 0.0 && d * v == 0.0
    ensures v == 0.0
  {
  }

  /** With a non-zero denominator the computed parameters name one common point. */
  lemma ParametersSolve(a1: Point, a2: Point, b1: Point, b2: Point)
    requires Denominator(a1, a2, b1, b2) != 0.0
    ensures At(a1, a2, NumeratorA(a1, a2, b1, b2) / Denominator(a1, a2, b1, b2))
         == At(b1, b2, NumeratorB(a1, a2, b1, b2) / Denominator(a1, a2, b1, b2))
  {
    var d := Denominator(a1, a2, b1, b2);
    var na, nb := NumeratorA(a1, a2, b1, b2), NumeratorB(a1, a2, b1, b2);
    var ua, ub := na / d, nb / d;
    var dax, day := a2.x - a1.x, a2.y - a1.y;
    var dbx, dby := b2.x - b1.x, b2.y - b1.y;
    var wx, wy := a1.x - b1.x, a1.y - b1.y;
    assert ua * d == na && ub * d == nb;
    var ex := wx + ua * dax - ub * dbx;
    var ey := wy + ua * day - ub * dby;
    assert d * ex == wx * d + na * dax - nb * dbx;
    assert wx * d + na * dax - nb * dbx == 0.0;
    ProductZero(d, ex);
    assert d * ey == wy * d + na * day - nb * dby;
    assert wy * d + na * day - nb * dby == 0.0;
    ProductZero(d, ey);
  }

  /** With a non-zero denominator any common point has exactly the computed parameters. */
  lemma ParametersUnique(a1: Point, a2: Point, b1: Point, b2: Point)
    requires Denominator(a1, a2, b1, b2) != 0.0
    ensures forall s: real, t: real :: At(a1, a2, s) == At(b1, b2, t) ==>
              s == NumeratorA(a1, a2, b1, b2) / Denominator(a1, a2, b1, b2) &&
              t == NumeratorB(a1, a2, b1, b2) / Denominator(a1, a2, b1, b2)
  {
    forall s: real, t: real | At(a1, a2, s) == At(b1, b2, t)
      ensures s == NumeratorA(a1, a2, b1, b2) / Denominator(a1, a2, b1, b2)
      ensures t == NumeratorB(a1, a2, b1, b2) / Denominator(a1, a2, b1, b2)
    {
      CommonPointParameters(a1, a2, b1, b2, s, t);
    }
  }

  lemma CommonPointParameters(a1: Point, a2: Point, b1: Point, b2: Point, s: real, t: real)
    requires Denominator(a1, a2, b1, b2) != 0.0
    requires At(a1, a2, s) == At(b1, b2, t)
    ensures s == NumeratorA(a1, a2, b1, b2) / Denominator(a1, a2, b1, b2)
    ensures t == NumeratorB(a1, a2, b1, b2) / Denominator(a1, a2, b1, b2)
  {
    var d := Denominator(a1, a2, b1, b2);
    var dax, day := a2.x - a1.x, a2.y - a1.y;
    var dbx, dby := b2.x - b1.x, b2.y - b1.y;
    var wx, wy := a1.x - b1.x, a1.y - b1.y;
    assert s * dax == t * dbx - wx;
    assert s * day == t * dby - wy;
    assert s * d == dby * (s * dax) - dbx * (s * day);
    assert s * d == NumeratorA(a1, a2, b1, b2);
    assert t * dbx == wx + s * dax;
    assert t * dby == wy + s * day;
    assert t * d == dax * (t * dby) - day * (t * dbx);
    assert t * d == NumeratorB(a1, a2, b1, b2);
  }

  /** Collinear segments (0,0)-(2,0) and (1,0)-(3,0) overlap ... */
  lemma CollinearOverlapMeets()
    ensures SegmentsMeet(Point(0.0, 0.0), Point(2.0, 0.0), Point(1.0, 0.0), Point(3.0, 0.0))
  {
    assert At(Point(0.0, 0.0), Point(2.0, 0.0), 0.5) == At(Point(1.0, 0.0), Point(3.0, 0.0), 0.0);
  }

  /** ... but their denominator is zero, so the test does not report them. */
  lemma CollinearOverlapNotReported()
    ensures SegmentsMeet(Point(0.0, 0.0), Point(2.0, 0.0), Point(1.0, 0.0), Point(3.0, 0.0))
    ensures !IntersectLineLine(Point(0.0, 0.0), Point(2.0, 0.0), Point(1.0, 0.0), Point(3.0, 0.0))
  {
    CollinearOverlapMeets();
    assert Denominator(Point(0.0, 0.0), Point(2.0, 0.0), Point(1.0, 0.0), Point(3.0, 0.0)) == 0.0;
  }

  lemma MeetSwap(a1: Point, a2: Point, b1: Point, b2: Point)
    ensures SegmentsMeet(a1, a2, b1, b2) <==> SegmentsMeet(b1, b2, a1, a2)
  {
    if SegmentsMeet(a1, a2, b1, b2) {
      var s, t :| 0.0 <= s <= 1.0 && 0.0 <= t <= 1.0 && At(a1, a2, s) == At(b1, b2, t);
      assert At(b1, b2, t) == At(a1, a2, s);
    }
    if SegmentsMeet(b1, b2, a1, a2) {
      var t, s :| 0.0 <= t <= 1.0 && 0.0 <= s <= 1.0 && At(b1, b2, t) == At(a1, a2, s);
      assert At(a1, a2, s) == At(b1, b2, t);
    }
  }

  /** The parameters of one common point of two meeting segments. */
  lemma MeetingParameters(a1: Point, a2: Point, b1: Point, b2: Point) returns (s: real, t: real)
    requires SegmentsMeet(a1, a2, b1, b2)
    ensures 0.0 <= s <= 1.0 && 0.0 <= t <= 1.0
    ensures At(a1, a2, s).x == At(b1, b2, t).x && At(a1, a2, s).y == At(b1, b2, t).y
  {
    s, t :| 0.0 <= s <= 1.0 && 0.0 <= t <= 1.0 && At(a1, a2, s) == At(b1, b2, t);
  }

  lemma AtReversed(a1: Point, a2: Point, s: real)
    ensures At(a2, a1, 1.0 - s) == At(a1, a2, s)
  {
  }

  lemma MeetReverse(a1: Point, a2: Point, b1: Point, b2: Point)
    ensures SegmentsMeet(a1, a2, b1, b2) <==> SegmentsMeet(a2, a1, b1, b2)
  {
    if SegmentsMeet(a1, a2, b1, b2) {
      var s, t :| 0.0 <= s <= 1.0 && 0.0 <= t <= 1.0 && At(a1, a2, s) == At(b1, b2, t);
      AtReversed(a1, a2, s);
      assert At(a2, a1, 1.0 - s) == At(b1, b2, t);
    }
    if SegmentsMeet(a2, a1, b1, b2) {
      var s, t :| 0.0 <= s <= 1.0 && 0.0 <= t <= 1.0 && At(a2, a1, s) == At(b1, b2, t);
      AtReversed(a2, a1, s);
      assert At(a1, a2, 1.0 - s) == At(b1, b2, t);
    }
  }

  /** The test answers the same for the two segments given in the other order. */
  lemma LineLineSwap(a1: Point, a2: Point, b1: Point, b2: Point)
    ensures IntersectLineLine(a1, a2, b1, b2) == IntersectLineLine(b1, b2, a1, a2)
  {
    assert Denominator(b1, b2, a1, a2) == -Denominator(a1, a2, b1, b2);
    MeetSwap(a1, a2, b1, b2);
  }

  /** The test answers the same when the first segment's endpoints are given in the other order. */
  lemma LineLineReverseFirst(a1: Point, a2: Point, b1: Point, b2: Point)
    ensures IntersectLineLine(a2, a1, b1, b2) == IntersectLineLine(a1, a2, b1, b2)
  {
    assert Denominator(a2, a1, b1, b2) == -Denominator(a1, a2, b1, b2);
    MeetReverse(a1, a2, b1, b2);
  }

  /** The test answers the same when the second segment's endpoints are given in the other order. */
  lemma LineLineReverseSecond(a1: Point, a2: Point, b1: Point, b2: Point)
    ensures IntersectLineLine(a1, a2, b2, b1) == IntersectLineLine(a1, a2, b1, b2)
  {
    LineLineSwap(a1, a2, b2, b1);
    LineLineReverseFirst(b1, b2, a1, a2);
    LineLineSwap(b1, b2, a1, a2);
  }

  /** The four edges of a rectangle, in the order `intersectionLineRect` tests them. */
  function Edges(r: Rect): (e: seq<(Point, Point)>)
    ensures |e| == 4
  {
    var c0 := Point(r.x, r.y);
    var c1 := Point(r.x, YMax(r));
    var c2 := Point(XMax(r), YMax(r));
    var c3 := Point(XMax(r), r.y);
    [(c0, c1), (c1, c2), (c2, c3), (c3, c0)]
  }

  /** The segment a1-a2 crosses edge k of r with a non-zero denominator. */
  ghost predicate CrossesEdge(a1: Point, a2: Point, r: Rect, k: int)
    requires 0 <= k < 4
  {
    var e := Edges(r)[k];
    Denominator(a1, a2, e.0, e.1) != 0.0 && SegmentsMeet(a1, a2, e.0, e.1)
  }

  /**
   `intersectionLineRect`: true exactly when the segment crosses one of the
   four edges (with a non-zero denominator); the interior is not tested.
   */
  function IntersectLineRect(a1: Point, a2: Point, r: Rect): (b: bool)
    ensures b <==> exists k :: 0 <= k < 4 && CrossesEdge(a1, a2, r, k)
  {
    var r0 := Point(r.x, r.y);
    var r1 := Point(r.x, YMax(r));
    var r2 := Point(XMax(r), YMax(r));
    var r3 := Point(XMax(r), r.y);
    assert Edges(r) == [(r0, r1), (r1, r2), (r2, r3), (r3, r0)];
    if IntersectLineLine(a1, a2, r0, r1) then assert CrossesEdge(a1, a2, r, 0); true
    else if IntersectLineLine(a1, a2, r1, r2) then assert CrossesEdge(a1, a2, r, 1); true
    else if IntersectLineLine(a1, a2, r2, r3) then assert CrossesEdge(a1, a2, r, 2); true
    else if IntersectLineLine(a1, a2, r3, r0) then assert CrossesEdge(a1, a2, r, 3); true
    else
      assert forall k :: 0 <= k < 4 ==> !CrossesEdge(a1, a2, r, k);
      false
  }

  /** The test answers the same for the segment given in the other direction. */
  lemma LineRectReverse(a1: Point, a2: Point, r: Rect)
    ensures IntersectLineRect(a2, a1, r) == IntersectLineRect(a1, a2, r)
  {
    var e := Edges(r);
    LineLineReverseFirst(a1, a2, e[0].0, e[0].1);
    LineLineReverseFirst(a1, a2, e[1].0, e[1].1);
    LineLineReverseFirst(a1, a2, e[2].0, e[2].1);
    LineLineReverseFirst(a1, a2, e[3].0, e[3].1);
    assert forall k :: 0 <= k < 4 ==> (CrossesEdge(a2, a1, r, k) <==> CrossesEdge(a1, a2, r, k));
  }

  /** A point strictly between the rectangle's sides. */
  predicate StrictlyInside(p: Point, r: Rect) {
    r.x < p.x < XMax(r) && r.y < p.y < YMax(r)
  }

  lemma MulNonneg(u: real, v: real)
    requires u >= 0.0 && v >= 0.0
    ensures u * v >= 0.0
  {
  }

  lemma MulPos(u: real, v: real)
    requires u > 0.0 && v > 0.0
    ensures u * v > 0.0
  {
  }

  /** Strict lower and upper bounds that hold at both ends of a segment hold all along it. */
  lemma BetweenEnds(a: real, b: real, s: real, lo: real, hi: real)
    requires 0.0 <= s <= 1.0
    requires lo < a < hi && lo < b < hi
    ensures lo < a + s * (b - a) < hi
  {
    AlongWithinEnds(a, b, s);
  }

  /** Every point of a segment whose endpoints are strictly inside r is strictly inside r. */
  lemma SegmentStaysInside(a1: Point, a2: Point, r: Rect, s: real)
    requires StrictlyInside(a1, r) && StrictlyInside(a2, r)
    requires 0.0 <= s <= 1.0
    ensures StrictlyInside(At(a1, a2, s), r)
  {
    BetweenEnds(a1.x, a2.x, s, r.x, XMax(r));
    BetweenEnds(a1.y, a2.y, s, r.y, YMax(r));
  }

  /** A point of an edge lies on the rectangle's boundary lines. */
  lemma EdgePointOnBoundary(r: Rect, k: int, t: real)
    requires 0 <= k < 4
    ensures var e := Edges(r)[k]; var p := At(e.0, e.1, t);
      p.x == r.x || p.x == XMax(r) || p.y == r.y || p.y == YMax(r)
  {
  }

  /** A segment lying strictly inside the rectangle touches no edge, so it is reported as not intersecting. */
  lemma SegmentInsideRectNotReported(a1: Point, a2: Point, r: Rect)
    requires StrictlyInside(a1, r) && StrictlyInside(a2, r)
    ensures !IntersectLineRect(a1, a2, r)
  {
    forall k | 0 <= k < 4
      ensures !SegmentsMeet(a1, a2, Edges(r)[k].0, Edges(r)[k].1)
    {
      var e := Edges(r)[k];
      forall s: real, t: real | 0.0 <= s <= 1.0 && 0.0 <= t <= 1.0
        ensures At(a1, a2, s) != At(e.0, e.1, t)
      {
        SegmentStaysInside(a1, a2, r, s);
        EdgePointOnBoundary(r, k, t);
      }
    }
  }

  function MinR(a: real, b: real): real { if a <= b then a else b }
  function MaxR(a: real, b: real): real { if a >= b then a else b }

  lemma AlongWithinEnds(a: real, b: real, s: real)
    requires 0.0 <= s <= 1.0
    ensures MinR(a, b) <= a + s * (b - a) <= MaxR(a, b)
  {
    if a <= b {
      MulNonneg(s, b - a);
      MulNonneg(1.0 - s, b - a);
      assert b - (a + s * (b - a)) == (1.0 - s) * (b - a);
    } else {
      MulNonneg(s, a - b);
      MulNonneg(1.0 - s, a - b);
      assert a + s * (b - a) - b == (1.0 - s) * (a - b);
    }
  }

  /** Every point of an edge of a rectangle of non-negative size lies in the closed rectangle. */
  lemma EdgePointInRect(r: Rect, k: int, t: real)
    requires r.width >= 0.0 && r.height >= 0.0
    requires 0 <= k < 4 && 0.0 <= t <= 1.0
    ensures var e := Edges(r)[k]; var p := At(e.0, e.1, t);
      r.x <= p.x <= XMax(r) && r.y <= p.y <= YMax(r)
  {
    var e := Edges(r)[k];
    assert r.x <= e.0.x <= XMax(r) && r.x <= e.1.x <= XMax(r);
    assert r.y <= e.0.y <= YMax(r) && r.y <= e.1.y <= YMax(r);
    AtBetweenEnds(e.0, e.1, t);
  }

  /** A point of a segment lies between its ends on both axes. */
  lemma AtBetweenEnds(a1: Point, a2: Point, t: real)
    requires 0.0 <= t <= 1.0
    ensures var p := At(a1, a2, t);
      MinR(a1.x, a2.x) <= p.x <= MaxR(a1.x, a2.x) && MinR(a1.y, a2.y) <= p.y <= MaxR(a1.y, a2.y)
  {
    AlongWithinEnds(a1.x, a2.x, t);
    AlongWithinEnds(a1.y, a2.y, t);
  }

  /**
   A segment that crosses a rectangle of non-negative size overlaps the
   rectangle's span on both axes, so a bounding-box test that skips
   rectangles outside the segment's box never skips a crossed one.
   */
  lemma CrossingOverlapsBox(a1: Point, a2: Point, r: Rect)
    requires r.width >= 0.0 && r.height >= 0.0
    requires IntersectLineRect(a1, a2, r)
    ensures !(XMax(r) < MinR(a1.x, a2.x)) && !(r.x > MaxR(a1.x, a2.x))
    ensures !(YMax(r) < MinR(a1.y, a2.y)) && !(r.y > MaxR(a1.y, a2.y))
  {
    var k :| 0 <= k < 4 && CrossesEdge(a1, a2, r, k);
    var e := Edges(r)[k];
    var s, t := MeetingParameters(a1, a2, e.0, e.1);
    CrossingPointX(a1, a2, r, k, s, t);
    CrossingPointY(a1, a2, r, k, s, t);
  }

  lemma CrossingPointX(a1: Point, a2: Point, r: Rect, k: int, s: real, t: real)
    requires r.width >= 0.0 && r.height >= 0.0
    requires 0 <= k < 4 && 0.0 <= s <= 1.0 && 0.0 <= t <= 1.0
    requires At(a1, a2, s).x == At(Edges(r)[k].0, Edges(r)[k].1, t).x
    ensures !(XMax(r) < MinR(a1.x, a2.x)) && !(r.x > MaxR(a1.x, a2.x))
  {
    EdgePointInRect(r, k, t);
    AtBetweenEnds(a1, a2, s);
    var p, q := At(a1, a2, s).x, At(Edges(r)[k].0, Edges(r)[k].1, t).x;
    assert MinR(a1.x, a2.x) <= p <= MaxR(a1.x, a2.x) && p == q;
  }

  lemma CrossingPointY(a1: Point, a2: Point, r: Rect, k: int, s: real, t: real)
    requires r.width >= 0.0 && r.height >= 0.0
    requires 0 <= k < 4 && 0.0 <= s <= 1.0 && 0.0 <= t <= 1.0
    requires At(a1, a2, s).y == At(Edges(r)[k].0, Edges(r)[k].1, t).y
    ensures !(YMax(r) < MinR(a1.y, a2.y)) && !(r.y > MaxR(a1.y, a2.y))
  {
    EdgePointInRect(r, k, t);
    AtBetweenEnds(a1, a2, s);
    var p, q := At(a1, a2, s).y, At(Edges(r)[k].0, Edges(r)[k].1, t).y;
    assert MinR(a1.y, a2.y) <= p <= MaxR(a1.y, a2.y) && p == q;
  }
}
