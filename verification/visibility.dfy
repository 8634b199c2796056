/**
 The visibility test `isConnect` between two cells: the segment between the
 cell centres, and three of the four corner probes offset by 0.4 around the
 centres, must cross no blocking rectangle. Rectangles outside the bounding
 box of the two centres are skipped before any probe is tested.
 */
module Visibility {
  import opened GridMap
  import opened Geometry

  /** The offset from a cell's corner to its centre. */
  const CenterOffset: real := 0.5

  /** The offset of the corner probes from the centre. */
  const ProbeOffset: real := 0.4

  function Center(p: Pos): Point {
    Point(p.x as real + CenterOffset, p.y as real + CenterOffset)
  }

  /** Probe corner n around centre c: 0 = (+,+), 1 = (+,-), 2 = (-,-), 3 = (-,+). */
  function Corner(c: Point, n: int): Point
    requires 0 <= n < 4
  {
    if n == 0 then Point(c.x + ProbeOffset, c.y + ProbeOffset)
    else if n == 1 then Point(c.x + ProbeOffset, c.y - ProbeOffset)
    else if n == 2 then Point(c.x - ProbeOffset, c.y - ProbeOffset)
    else Point(c.x - ProbeOffset, c.y + ProbeOffset)
  }

  /** The pre-filter: r lies entirely to one side of the bounding box of the two centres. */
  predicate OutsideBox(r: Rect, c0: Point, c1: Point) {
    XMax(r) < MinR(c0.x, c1.x) || r.x > MaxR(c0.x, c1.x) ||
    YMax(r) < MinR(c0.y, c1.y) || r.y > MaxR(c0.y, c1.y)
  }

  /** One of the corner probes 1, 2 or 3 crosses r (probe 0 is never tested). */
  predicate CornerProbeCrosses(r: Rect, c0: Point, c1: Point) {
    exists n :: 1 <= n < 4 && IntersectLineRect(Corner(c0, n), Corner(c1, n), r)
  }

  /** Rectangle r blocks the sight line from p0 to p1. */
  predicate Blocks(r: Rect, p0: Pos, p1: Pos) {
    var c0, c1 := Center(p0), Center(p1);
    !OutsideBox(r, c0, c1) && (IntersectLineRect(c0, c1, r) || CornerProbeCrosses(r, c0, c1))
  }

  /**
   `isConnect`: the rectangles are tried in order and the first one that
   blocks ends the search; the cells see each other when none blocks.
   */
  function IsConnect(rects: seq<Rect>, p0: Pos, p1: Pos): (b: bool)
    ensures b <==> forall m :: 0 <= m < |rects| ==> !Blocks(rects[m], p0, p1)
  {
    if |rects| == 0 then true
    else if Blocks(rects[0], p0, p1) then false
    else
      var rest := IsConnect(rects[1..], p0, p1);
      assert forall m :: 1 <= m < |rects| ==> rects[m] == rects[1..][m - 1];
      rest
  }

  /** Visibility does not depend on which cell looks at which. */
  lemma IsConnectSymmetric(rects: seq<Rect>, p0: Pos, p1: Pos)
    ensures IsConnect(rects, p0, p1) == IsConnect(rects, p1, p0)
  {
    forall m | 0 <= m < |rects|
      ensures Blocks(rects[m], p0, p1) == Blocks(rects[m], p1, p0)
    {
      BlocksSymmetric(rects[m], p0, p1);
    }
  }

  lemma BlocksSymmetric(r: Rect, p0: Pos, p1: Pos)
    ensures Blocks(r, p0, p1) == Blocks(r, p1, p0)
  {
    var c0, c1 := Center(p0), Center(p1);
    LineRectReverse(c0, c1, r);
    forall n | 1 <= n < 4
      ensures IntersectLineRect(Corner(c1, n), Corner(c0, n), r) == IntersectLineRect(Corner(c0, n), Corner(c1, n), r)
    {
      LineRectReverse(Corner(c0, n), Corner(c1, n), r);
    }
  }

  /** A single point crosses nothing: its direction vector is zero, so every denominator is. */
  lemma PointCrossesNoRect(a: Point, r: Rect)
    ensures !IntersectLineRect(a, a, r)
  {
    forall k | 0 <= k < 4
      ensures !CrossesEdge(a, a, r, k)
    {
      var e := Edges(r)[k];
      assert Denominator(a, a, e.0, e.1) == 0.0;
    }
  }

  /** Every cell sees itself, whatever the rectangles. */
  lemma IsConnectSelf(rects: seq<Rect>, p: Pos)
    ensures IsConnect(rects, p, p)
  {
    forall m | 0 <= m < |rects|
      ensures !Blocks(rects[m], p, p)
    {
      var c := Center(p);
      PointCrossesNoRect(c, rects[m]);
      forall n | 1 <= n < 4
        ensures !IntersectLineRect(Corner(c, n), Corner(c, n), rects[m])
      {
        PointCrossesNoRect(Corner(c, n), rects[m]);
      }
    }
  }

  /**
   The pre-filter never hides a crossing of the centre line: when the centre
   line crosses a rectangle of non-negative size, the cells do not see each other.
   */
  lemma CentreCrossingBlocks(rects: seq<Rect>, p0: Pos, p1: Pos, m: int)
    requires 0 <= m < |rects| && rects[m].width >= 0.0 && rects[m].height >= 0.0
    requires IntersectLineRect(Center(p0), Center(p1), rects[m])
    ensures !IsConnect(rects, p0, p1)
  {
    CrossingOverlapsBox(Center(p0), Center(p1), rects[m]);
    assert Blocks(rects[m], p0, p1);
  }
}
