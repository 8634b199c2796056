/**
 Blocking segments: the terrain of the map merged into maximal straight runs
 of at least two cells. A horizontal pass over every row comes first and
 claims its cells (the `tmpUsed` mark); a vertical pass over every column then
 merges only the terrain cells left unclaimed. A segment becomes the
 inclusive rectangle of its cells for the visibility test.
 */
module Segments {
  import opened GridMap
  import opened Geometry

  datatype Orientation = Horizontal | Vertical

  /** A segment from `start` to `end` (inclusive), both cells of the map. */
  datatype Segment = Segment(start: Pos, end: Pos, orient: Orientation)

  /** A run of a line: positions lo..hi inclusive. */
  datatype Run = Run(lo: nat, hi: nat)

  /** The cell p lies on the segment. */
  predicate OnSegment(s: Segment, p: Pos) {
    match s.orient
    case Horizontal => p.y == s.start.y && s.start.x <= p.x <= s.end.x
    case Vertical => p.x == s.start.x && s.start.y <= p.y <= s.end.y
  }

  //------------------------------------------------------------------ runs of one line

  /** The last position of the run of true values that contains position i, scanning forward. */
  function RunEnd(line: seq<bool>, i: nat): (k: nat)
    requires i < |line| && line[i]
    ensures i <= k < |line|
    ensures forall j :: i <= j <= k ==> line[j]
    ensures k + 1 == |line| || !line[k + 1]
    decreases |line| - i
  {
    if i + 1 < |line| && line[i + 1] then RunEnd(line, i + 1) else i
  }

  /** r is a maximal run of at least two true values of the line. */
  ghost predicate MaximalRun(line: seq<bool>, r: Run) {
    && r.lo < r.hi < |line|
    && (forall j :: r.lo <= j <= r.hi ==> line[j])
    && (r.lo == 0 || !line[r.lo - 1])
    && (r.hi + 1 == |line| || !line[r.hi + 1])
  }

  /** Position p is a true value with a true value next to it. */
  predicate InLongRun(line: seq<bool>, p: int)
    requires 0 <= p < |line|
  {
    line[p] && ((p > 0 && line[p - 1]) || (p + 1 < |line| && line[p + 1]))
  }

  predicate Covers(rs: seq<Run>, p: int) {
    exists k :: 0 <= k < |rs| && rs[k].lo <= p <= rs[k].hi
  }

  /** A scan may (re)start at i: position i does not continue a run begun before it. */
  ghost predicate ScanStart(line: seq<bool>, i: nat) {
    i <= |line| && (i == 0 || i == |line| || !line[i - 1] || !line[i])
  }

  /**
   The scan of one row (or column) from position i: at a true value the
   inner loop walks to the end of its run, the run is kept when it is at
   least two long, and the scan resumes after it. The runs found are exactly
   the maximal runs of length two or more, in order and separated by a gap.
   */
  function Runs(line: seq<bool>, i: nat): (rs: seq<Run>)
    requires ScanStart(line, i)
    ensures forall k :: 0 <= k < |rs| ==> i <= rs[k].lo && MaximalRun(line, rs[k])
    ensures forall k :: 0 <= k < |rs| - 1 ==> rs[k].hi + 1 < rs[k + 1].lo
    ensures forall p :: i <= p < |line| ==> (Covers(rs, p) <==> InLongRun(line, p))
    decreases |line| - i
  {
    if i == |line| then []
    else if !line[i] then
      var rest := Runs(line, i + 1);
      NotCoveredBelow(rest, i);
      rest
    else
      var k := RunEnd(line, i);
      if k > i then
        var rest := Runs(line, k + 1);
        var rs := [Run(i, k)] + rest;
        forall p | i <= p < |line|
          ensures Covers(rs, p) <==> InLongRun(line, p)
        {
          CoversCons(Run(i, k), rest, p);
          if p <= k {
            assert line[p];
            if p == i { assert line[p + 1]; } else { assert line[p - 1]; }
          }
        }
        rs
      else
        var rest := Runs(line, i + 1);
        NotCoveredBelow(rest, i);
        rest
  }

  lemma CoversCons(r: Run, rest: seq<Run>, p: int)
    ensures Covers([r] + rest, p) <==> (r.lo <= p <= r.hi || Covers(rest, p))
  {
    var rs := [r] + rest;
    if Covers(rs, p) {
      var j :| 0 <= j < |rs| && rs[j].lo <= p <= rs[j].hi;
      if j > 0 { assert rs[j] == rest[j - 1]; }
    }
    if Covers(rest, p) {
      var j :| 0 <= j < |rest| && rest[j].lo <= p <= rest[j].hi;
      assert rs[j + 1] == rest[j];
    }
    if r.lo <= p <= r.hi {
      assert rs[0] == r;
    }
  }

  lemma NotCoveredBelow(rs: seq<Run>, i: int)
    requires forall k :: 0 <= k < |rs| ==> i < rs[k].lo
    ensures !Covers(rs, i)
  {
  }

  //------------------------------------------------------------------ the two passes

  /** Row y as a line: which cells are terrain. */
  function RowLine(g: Grid, y: int): (line: seq<bool>)
    requires Valid(g) && 0 <= y < g.height
    ensures |line| == g.width
  {
    seq(g.width, x requires 0 <= x < g.width => FlagAt(g, Pos(x, y)) == Terrain)
  }

  function RowRuns(g: Grid, y: int): seq<Run>
    requires Valid(g) && 0 <= y < g.height
  {
    Runs(RowLine(g, y), 0)
  }

  /** The `tmpUsed` mark after the horizontal pass: the cell lies in a kept horizontal run. */
  predicate HUsed(g: Grid, p: Pos)
    requires Valid(g) && InBounds(g, p)
  {
    Covers(RowRuns(g, p.y), p.x)
  }

  /** A cell the vertical pass may merge: terrain not claimed horizontally. */
  predicate Avail(g: Grid, p: Pos)
    requires Valid(g) && InBounds(g, p)
  {
    FlagAt(g, p) == Terrain && !HUsed(g, p)
  }

  /** Column x as a line: which cells are available to the vertical pass. */
  function ColLine(g: Grid, x: int): (line: seq<bool>)
    requires Valid(g) && 0 <= x < g.width
    ensures |line| == g.height
    ensures forall y :: 0 <= y < g.height && line[y] ==> FlagAt(g, Pos(x, y)) == Terrain
  {
    seq(g.height, y requires 0 <= y < g.height => Avail(g, Pos(x, y)))
  }

  function ColRuns(g: Grid, x: int): seq<Run>
    requires Valid(g) && 0 <= x < g.width
  {
    Runs(ColLine(g, x), 0)
  }

  /** The horizontal segments of row y, left to right. */
  function RowSegments(g: Grid, y: int): (segs: seq<Segment>)
    requires Valid(g) && 0 <= y < g.height
    ensures |segs| == |RowRuns(g, y)|
  {
    var rs := RowRuns(g, y);
    seq(|rs|, k requires 0 <= k < |rs| => Segment(Pos(rs[k].lo, y), Pos(rs[k].hi, y), Horizontal))
  }

  /** The vertical segments of column x, bottom to top. */
  function ColSegments(g: Grid, x: int): (segs: seq<Segment>)
    requires Valid(g) && 0 <= x < g.width
    ensures |segs| == |ColRuns(g, x)|
  {
    var rs := ColRuns(g, x);
    seq(|rs|, k requires 0 <= k < |rs| => Segment(Pos(x, rs[k].lo), Pos(x, rs[k].hi), Vertical))
  }

  /** The horizontal pass from row y upwards. */
  function HorizontalFrom(g: Grid, y: nat): (segs: seq<Segment>)
    requires Valid(g)
    ensures forall s :: s in segs ==> y <= s.start.y < g.height && s in RowSegments(g, s.start.y)
    ensures forall y', s :: y <= y' < g.height && s in RowSegments(g, y') ==> s in segs
    decreases g.height - y
  {
    if y >= g.height then []
    else
      RowSegmentsInRow(g, y);
      RowSegments(g, y) + HorizontalFrom(g, y + 1)
  }

  lemma RowSegmentsInRow(g: Grid, y: int)
    requires Valid(g) && 0 <= y < g.height
    ensures forall s :: s in RowSegments(g, y) ==> s.start.y == y
  {
  }

  /** The vertical pass from column x rightwards. */
  function VerticalFrom(g: Grid, x: nat): (segs: seq<Segment>)
    requires Valid(g)
    ensures forall s :: s in segs ==> x <= s.start.x < g.width && s in ColSegments(g, s.start.x)
    ensures forall x', s :: x <= x' < g.width && s in ColSegments(g, x') ==> s in segs
    decreases g.width - x
  {
    if x >= g.width then []
    else
      ColSegmentsInColumn(g, x);
      ColSegments(g, x) + VerticalFrom(g, x + 1)
  }

  lemma ColSegmentsInColumn(g: Grid, x: int)
    requires Valid(g) && 0 <= x < g.width
    ensures forall s :: s in ColSegments(g, x) ==> s.start.x == x
  {
  }

  /** A segment of two or more terrain cells in one row or column, with only terrain between its ends. */
  ghost predicate WellFormed(g: Grid, s: Segment)
    requires Valid(g)
  {
    && InBounds(g, s.start) && InBounds(g, s.end) && s.start != s.end
    && FlagAt(g, s.start) == Terrain && FlagAt(g, s.end) == Terrain
    && match s.orient
       case Horizontal =>
         s.start.y == s.end.y && s.start.x < s.end.x &&
         forall x :: s.start.x <= x <= s.end.x ==> FlagAt(g, Pos(x, s.start.y)) == Terrain
       case Vertical =>
         s.start.x == s.end.x && s.start.y < s.end.y &&
         forall y :: s.start.y <= y <= s.end.y ==> FlagAt(g, Pos(s.start.x, y)) == Terrain
  }

  lemma RowSegmentWellFormed(g: Grid, y: int, k: int)
    requires Valid(g) && 0 <= y < g.height && 0 <= k < |RowRuns(g, y)|
    ensures WellFormed(g, RowSegments(g, y)[k])
  {
    var line := RowLine(g, y);
    var r := RowRuns(g, y)[k];
    assert MaximalRun(line, r);
    forall x | r.lo <= x <= r.hi
      ensures FlagAt(g, Pos(x, y)) == Terrain
    {
      assert line[x];
    }
  }

  lemma ColSegmentWellFormed(g: Grid, x: int, k: int)
    requires Valid(g) && 0 <= x < g.width && 0 <= k < |ColRuns(g, x)|
    ensures WellFormed(g, ColSegments(g, x)[k])
    ensures forall y :: ColRuns(g, x)[k].lo <= y <= ColRuns(g, x)[k].hi ==> Avail(g, Pos(x, y))
  {
    var line := ColLine(g, x);
    var r := ColRuns(g, x)[k];
    assert MaximalRun(line, r);
    forall y | r.lo <= y <= r.hi
      ensures Avail(g, Pos(x, y))
    {
      assert line[y];
    }
  }

  /** Two maximal runs of a line that share a position are the same run. */
  lemma MaximalRunsShareEqual(line: seq<bool>, r1: Run, r2: Run, p: int)
    requires MaximalRun(line, r1) && MaximalRun(line, r2)
    requires r1.lo <= p <= r1.hi && r2.lo <= p <= r2.hi
    ensures r1 == r2
  {
  }

  /** Every maximal run of at least two true values is one of the runs the scan finds. */
  lemma MaximalRunFound(line: seq<bool>, r: Run) returns (k: nat)
    requires MaximalRun(line, r)
    ensures k < |Runs(line, 0)| && Runs(line, 0)[k] == r
  {
    var rs := Runs(line, 0);
    assert InLongRun(line, r.lo) by { assert line[r.lo + 1]; }
    k :| 0 <= k < |rs| && rs[k].lo <= r.lo <= rs[k].hi;
    MaximalRunsShareEqual(line, rs[k], r, r.lo);
  }

  /**
   The horizontal segments of row y are exactly its maximal terrain runs of
   two or more cells, left to right with a gap between neighbours.
   */
  lemma RowSegmentsSpec(g: Grid, y: int)
    requires Valid(g) && 0 <= y < g.height
    ensures var segs, line := RowSegments(g, y), RowLine(g, y);
      && (forall k :: 0 <= k < |segs| ==>
            && segs[k].orient == Horizontal && segs[k].start.y == y && segs[k].end.y == y
            && 0 <= segs[k].start.x && 0 <= segs[k].end.x
            && MaximalRun(line, Run(segs[k].start.x, segs[k].end.x)))
      && (forall k :: 0 <= k < |segs| - 1 ==> segs[k].end.x + 1 < segs[k + 1].start.x)
      && (forall r :: MaximalRun(line, r) ==> Segment(Pos(r.lo, y), Pos(r.hi, y), Horizontal) in segs)
  {
    var segs, line := RowSegments(g, y), RowLine(g, y);
    forall r | MaximalRun(line, r)
      ensures Segment(Pos(r.lo, y), Pos(r.hi, y), Horizontal) in segs
    {
      var k := MaximalRunFound(line, r);
      assert segs[k] == Segment(Pos(r.lo, y), Pos(r.hi, y), Horizontal);
    }
  }

  /**
   The vertical segments of column x are exactly its maximal runs of two or
   more terrain cells left unclaimed by the horizontal pass, bottom to top
   with a gap between neighbours.
   */
  lemma ColSegmentsSpec(g: Grid, x: int)
    requires Valid(g) && 0 <= x < g.width
    ensures var segs, line := ColSegments(g, x), ColLine(g, x);
      && (forall k :: 0 <= k < |segs| ==>
            && segs[k].orient == Vertical && segs[k].start.x == x && segs[k].end.x == x
            && 0 <= segs[k].start.y && 0 <= segs[k].end.y
            && MaximalRun(line, Run(segs[k].start.y, segs[k].end.y)))
      && (forall k :: 0 <= k < |segs| - 1 ==> segs[k].end.y + 1 < segs[k + 1].start.y)
      && (forall r :: MaximalRun(line, r) ==> Segment(Pos(x, r.lo), Pos(x, r.hi), Vertical) in segs)
  {
    var segs, line := ColSegments(g, x), ColLine(g, x);
    forall r | MaximalRun(line, r)
      ensures Segment(Pos(x, r.lo), Pos(x, r.hi), Vertical) in segs
    {
      var k := MaximalRunFound(line, r);
      assert segs[k] == Segment(Pos(x, r.lo), Pos(x, r.hi), Vertical);
    }
  }

  /** The horizontal pass claims exactly the cells that lie on a horizontal segment. */
  lemma HUsedIffOnHorizontal(g: Grid, p: Pos)
    requires Valid(g) && InBounds(g, p)
    ensures HUsed(g, p) <==> exists s :: s in HorizontalFrom(g, 0) && OnSegment(s, p)
  {
    if HUsed(g, p) {
      var s := HorizontalThrough(g, p);
    }
    forall s | s in HorizontalFrom(g, 0) && OnSegment(s, p)
      ensures HUsed(g, p)
    {
      OnHorizontalIsHUsed(g, s, p);
    }
  }

  lemma HorizontalThrough(g: Grid, p: Pos) returns (s: Segment)
    requires Valid(g) && InBounds(g, p) && HUsed(g, p)
    ensures s in HorizontalFrom(g, 0) && OnSegment(s, p)
  {
    s := RowSegmentThrough(g, p);
  }

  lemma RowSegmentThrough(g: Grid, p: Pos) returns (s: Segment)
    requires Valid(g) && InBounds(g, p) && HUsed(g, p)
    ensures s in RowSegments(g, p.y) && OnSegment(s, p)
  {
    var rs := RowRuns(g, p.y);
    var segs := RowSegments(g, p.y);
    var k :| 0 <= k < |rs| && rs[k].lo <= p.x <= rs[k].hi;
    s := segs[k];
  }

  lemma OnHorizontalIsHUsed(g: Grid, s: Segment, p: Pos)
    requires Valid(g) && InBounds(g, p) && s in HorizontalFrom(g, 0) && OnSegment(s, p)
    ensures HUsed(g, p)
  {
    var rs := RowRuns(g, p.y);
    var k :| 0 <= k < |RowSegments(g, s.start.y)| && RowSegments(g, s.start.y)[k] == s;
    assert rs[k].lo <= p.x <= rs[k].hi;
  }

  /** The vertical pass merges exactly the cells its column runs cover. */
  lemma CoveredByVertical(g: Grid, p: Pos)
    requires Valid(g) && InBounds(g, p)
    ensures (exists s :: s in VerticalFrom(g, 0) && OnSegment(s, p)) <==> Covers(ColRuns(g, p.x), p.y)
  {
    if Covers(ColRuns(g, p.x), p.y) {
      var s := VerticalThrough(g, p);
    }
    forall s | s in VerticalFrom(g, 0) && OnSegment(s, p)
      ensures Covers(ColRuns(g, p.x), p.y)
    {
      OnVerticalIsCovered(g, s, p);
    }
  }

  lemma VerticalThrough(g: Grid, p: Pos) returns (s: Segment)
    requires Valid(g) && InBounds(g, p) && Covers(ColRuns(g, p.x), p.y)
    ensures s in VerticalFrom(g, 0) && OnSegment(s, p)
  {
    s := ColSegmentThrough(g, p);
  }

  lemma ColSegmentThrough(g: Grid, p: Pos) returns (s: Segment)
    requires Valid(g) && InBounds(g, p) && Covers(ColRuns(g, p.x), p.y)
    ensures s in ColSegments(g, p.x) && OnSegment(s, p)
  {
    var rs := ColRuns(g, p.x);
    var segs := ColSegments(g, p.x);
    var k :| 0 <= k < |rs| && rs[k].lo <= p.y <= rs[k].hi;
    s := segs[k];
  }

  lemma OnVerticalIsCovered(g: Grid, s: Segment, p: Pos)
    requires Valid(g) && InBounds(g, p) && s in VerticalFrom(g, 0) && OnSegment(s, p)
    ensures Covers(ColRuns(g, p.x), p.y)
  {
    var rs := ColRuns(g, p.x);
    var k :| 0 <= k < |ColSegments(g, s.start.x)| && ColSegments(g, s.start.x)[k] == s;
    assert rs[k].lo <= p.y <= rs[k].hi;
  }

  /** Cells on vertical segments are available, i.e. not claimed by the horizontal pass. */
  lemma OnVerticalIsAvail(g: Grid, s: Segment, p: Pos)
    requires Valid(g) && s in VerticalFrom(g, 0) && InBounds(g, p)
    ensures OnSegment(s, p) ==> Avail(g, p)
  {
    if OnSegment(s, p) {
      var x := s.start.x;
      var k :| 0 <= k < |ColSegments(g, x)| && ColSegments(g, x)[k] == s;
      ColSegmentWellFormed(g, x, k);
    }
  }

  /**
   `generateSegments`: the horizontal segments row by row, then the vertical
   segments column by column. Every segment is two or more terrain cells in
   one row or column; no cell lies on both a horizontal and a vertical
   segment; a terrain cell with no orthogonal terrain neighbour lies on none.
   */
  function GenerateSegments(g: Grid): (segs: seq<Segment>)
    requires Valid(g)
    ensures forall s :: s in segs ==> WellFormed(g, s)
    ensures forall s1, s2, p ::
              (s1 in segs && s2 in segs && s1.orient == Horizontal && s2.orient == Vertical && OnSegment(s1, p))
              ==> !OnSegment(s2, p)
    ensures forall p :: InBounds(g, p) && !HasTerrainNeighbor4(g, p) ==>
              forall s :: s in segs ==> !OnSegment(s, p)
  {
    var h := HorizontalFrom(g, 0);
    var v := VerticalFrom(g, 0);
    forall s | s in h + v
      ensures WellFormed(g, s)
    {
      if s in h {
        var k :| 0 <= k < |RowSegments(g, s.start.y)| && RowSegments(g, s.start.y)[k] == s;
        RowSegmentWellFormed(g, s.start.y, k);
      } else {
        var k :| 0 <= k < |ColSegments(g, s.start.x)| && ColSegments(g, s.start.x)[k] == s;
        ColSegmentWellFormed(g, s.start.x, k);
      }
    }
    forall s1, s2, p | s1 in h + v && s2 in h + v && s1.orient == Horizontal &&
        s2.orient == Vertical && OnSegment(s1, p)
      ensures !OnSegment(s2, p)
    {
      assert s1 in h && s2 in v;
      assert InBounds(g, p) by {
        var k :| 0 <= k < |RowSegments(g, s1.start.y)| && RowSegments(g, s1.start.y)[k] == s1;
        RowSegmentWellFormed(g, s1.start.y, k);
      }
      HUsedIffOnHorizontal(g, p);
      OnVerticalIsAvail(g, s2, p);
    }
    forall p | InBounds(g, p) && !HasTerrainNeighbor4(g, p)
      ensures forall s :: s in h + v ==> !OnSegment(s, p)
    {
      CoveredIffInLongRun(g, p);
    }
    h + v
  }

  /** Some orthogonal neighbour of p inside the map is terrain. */
  ghost predicate HasTerrainNeighbor4(g: Grid, p: Pos)
    requires Valid(g)
  {
    exists q :: InBounds(g, q) && Orthogonal(p, q) && FlagAt(g, q) == Terrain
  }

  /**
   A cell lies on some segment exactly when it is terrain with a terrain
   neighbour in its row, or it is unclaimed terrain with an unclaimed terrain
   neighbour in its column.
   */
  lemma CoveredIffInLongRun(g: Grid, p: Pos)
    requires Valid(g) && InBounds(g, p)
    ensures (exists s :: s in HorizontalFrom(g, 0) + VerticalFrom(g, 0) && OnSegment(s, p))
        <==> InLongRun(RowLine(g, p.y), p.x) || InLongRun(ColLine(g, p.x), p.y)
    ensures InLongRun(RowLine(g, p.y), p.x) || InLongRun(ColLine(g, p.x), p.y) ==> HasTerrainNeighbor4(g, p)
  {
    var h := HorizontalFrom(g, 0);
    var v := VerticalFrom(g, 0);
    HUsedIffOnHorizontal(g, p);
    CoveredByVertical(g, p);
    assert (exists s :: s in h + v && OnSegment(s, p)) <==>
      (exists s :: s in h && OnSegment(s, p)) || (exists s :: s in v && OnSegment(s, p));
    LongRunHasNeighbor(g, p);
  }

  lemma LongRunHasNeighbor(g: Grid, p: Pos)
    requires Valid(g) && InBounds(g, p)
    ensures InLongRun(RowLine(g, p.y), p.x) || InLongRun(ColLine(g, p.x), p.y) ==> HasTerrainNeighbor4(g, p)
  {
    if InLongRun(RowLine(g, p.y), p.x) {
      RowRunNeighbor(g, p);
    } else if InLongRun(ColLine(g, p.x), p.y) {
      ColRunNeighbor(g, p);
    }
  }

  lemma RowRunNeighbor(g: Grid, p: Pos)
    requires Valid(g) && InBounds(g, p) && InLongRun(RowLine(g, p.y), p.x)
    ensures HasTerrainNeighbor4(g, p)
  {
    var row := RowLine(g, p.y);
    if p.x > 0 && row[p.x - 1] {
      assert Orthogonal(p, Pos(p.x - 1, p.y)) && FlagAt(g, Pos(p.x - 1, p.y)) == Terrain;
    } else {
      assert Orthogonal(p, Pos(p.x + 1, p.y)) && FlagAt(g, Pos(p.x + 1, p.y)) == Terrain;
    }
  }

  lemma ColRunNeighbor(g: Grid, p: Pos)
    requires Valid(g) && InBounds(g, p) && InLongRun(ColLine(g, p.x), p.y)
    ensures HasTerrainNeighbor4(g, p)
  {
    var col := ColLine(g, p.x);
    var q: Pos;
    if p.y > 0 && col[p.y - 1] {
      q := Pos(p.x, p.y - 1);
    } else {
      assert p.y + 1 < |col| && col[p.y + 1];
      q := Pos(p.x, p.y + 1);
    }
    assert Orthogonal(p, q) && FlagAt(g, q) == Terrain;
  }

  //------------------------------------------------------------------ rectangles

  /** `segments2rect` for one segment: x, y of the start, width and height counted in cells, inclusive. */
  function SegmentRect(s: Segment): Rect {
    Rect(s.start.x as real, s.start.y as real,
         (s.end.x - s.start.x + 1) as real, (s.end.y - s.start.y + 1) as real)
  }

  function SegmentsToRects(segs: seq<Segment>): (rects: seq<Rect>)
    ensures |rects| == |segs|
    ensures forall k, c :: 0 <= k < |segs| ==>
      (SquareInside(c, rects[k]) <==>
       segs[k].start.x <= c.x <= segs[k].end.x && segs[k].start.y <= c.y <= segs[k].end.y)
  {
    seq(|segs|, k requires 0 <= k < |segs| => SegmentRect(segs[k]))
  }

  /** The unit square of cell c lies inside r. */
  predicate SquareInside(c: Pos, r: Rect) {
    r.x <= c.x as real && (c.x + 1) as real <= XMax(r) &&
    r.y <= c.y as real && (c.y + 1) as real <= YMax(r)
  }

  /**
   The rectangle of a well-formed segment is exactly the union of the unit
   squares of the segment's cells, and has positive width and height.
   */
  lemma SegmentRectCoversItsCells(g: Grid, s: Segment)
    requires Valid(g) && WellFormed(g, s)
    ensures SegmentRect(s).width >= 1.0 && SegmentRect(s).height >= 1.0
    ensures forall c :: SquareInside(c, SegmentRect(s)) <==> OnSegment(s, c)
  {
  }
}
