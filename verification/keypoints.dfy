/**
 Keypoint extraction: a walkable cell becomes a keypoint when, scanning its
 in-bounds neighbours in `Axis8` order, an orthogonal walkable neighbour
 comes right after a run of exactly one terrain neighbour. The running count
 is seeded only from the last in-bounds neighbour, not from the whole run
 that wraps around the end of the list.
 */
module Keypoints {
  import opened GridMap

  predicate IsTerrain(g: Grid, q: Pos)
    requires Valid(g) && InBounds(g, q)
  {
    FlagAt(g, q) == Terrain
  }

  /**
   The loop over the neighbour list from position j, carrying the count of
   consecutive terrain neighbours just seen and whether an isolated corner
   was found already.
   */
  function Scan(g: Grid, c: Pos, ns: seq<Pos>, j: nat, count: nat, found: bool): bool
    requires Valid(g) && j <= |ns|
    requires forall q :: q in ns ==> InBounds(g, q)
    decreases |ns| - j
  {
    if j == |ns| then found
    else if IsTerrain(g, ns[j]) then Scan(g, c, ns, j + 1, count + 1, found)
    else Scan(g, c, ns, j + 1, 0, found || (count == 1 && Orthogonal(c, ns[j])))
  }

  /** The count seeded from the last in-bounds neighbour. */
  function Seed(g: Grid, ns: seq<Pos>): nat
    requires Valid(g) && |ns| > 0
    requires forall q :: q in ns ==> InBounds(g, q)
  {
    if IsTerrain(g, ns[|ns| - 1]) then 1 else 0
  }

  /** The count the loop holds when it reaches position j. */
  function CountAt(g: Grid, ns: seq<Pos>, j: nat): nat
    requires Valid(g) && 0 < |ns| && j <= |ns|
    requires forall q :: q in ns ==> InBounds(g, q)
  {
    if j == 0 then Seed(g, ns)
    else if IsTerrain(g, ns[j - 1]) then CountAt(g, ns, j - 1) + 1
    else 0
  }

  /** The walkable cell c is a keypoint (`generateKeypoints`' test for one cell). */
  predicate IsKeypoint(g: Grid, c: Pos)
    requires Valid(g) && InBounds(g, c)
    requires |Neighbors(g, c)| > 0
  {
    var ns := Neighbors(g, c);
    Walkable(g, c) && Scan(g, c, ns, 0, Seed(g, ns), false)
  }

  /** The neighbour at position j sits right after exactly one terrain neighbour, as the loop counts. */
  predicate AfterSingleTerrain(g: Grid, ns: seq<Pos>, j: int)
    requires Valid(g) && 0 <= j < |ns|
    requires forall q :: q in ns ==> InBounds(g, q)
  {
    if j == 0 then IsTerrain(g, ns[|ns| - 1])
    else if j == 1 then IsTerrain(g, ns[0]) && !IsTerrain(g, ns[|ns| - 1])
    else IsTerrain(g, ns[j - 1]) && !IsTerrain(g, ns[j - 2])
  }

  lemma CountAtIsOne(g: Grid, ns: seq<Pos>, j: nat)
    requires Valid(g) && 0 <= j < |ns|
    requires forall q :: q in ns ==> InBounds(g, q)
    ensures CountAt(g, ns, j) == 1 <==> AfterSingleTerrain(g, ns, j)
  {
    if j >= 2 && IsTerrain(g, ns[j - 1]) {
      assert CountAt(g, ns, j - 1) == 0 <==> !IsTerrain(g, ns[j - 2]);
    }
  }

  lemma {:induction false} ScanFinds(g: Grid, c: Pos, ns: seq<Pos>, j: nat, found: bool)
    requires Valid(g) && 0 < |ns| && j <= |ns|
    requires forall q :: q in ns ==> InBounds(g, q)
    ensures Scan(g, c, ns, j, CountAt(g, ns, j), found) <==>
      found || exists k :: j <= k < |ns| && !IsTerrain(g, ns[k]) && Orthogonal(c, ns[k]) && CountAt(g, ns, k) == 1
    decreases |ns| - j
  {
    if j < |ns| {
      if IsTerrain(g, ns[j]) {
        ScanFinds(g, c, ns, j + 1, found);
      } else {
        var f := found || (CountAt(g, ns, j) == 1 && Orthogonal(c, ns[j]));
        ScanFinds(g, c, ns, j + 1, f);
      }
    }
  }

  /** Once an isolated corner is found, the rest of the scan keeps it. */
  lemma {:induction false} ScanKeepsFound(g: Grid, c: Pos, ns: seq<Pos>, j: nat, count: nat)
    requires Valid(g) && j <= |ns|
    requires forall q :: q in ns ==> InBounds(g, q)
    ensures Scan(g, c, ns, j, count, true)
    decreases |ns| - j
  {
    if j < |ns| {
      ScanKeepsFound(g, c, ns, j + 1, if IsTerrain(g, ns[j]) then count + 1 else 0);
    }
  }

  /**
   A walkable cell is a keypoint exactly when some orthogonal walkable
   neighbour follows a single terrain neighbour; for the first neighbour of
   the list the "run" is judged from the last neighbour alone.
   */
  lemma KeypointCharacterization(g: Grid, c: Pos)
    requires Valid(g) && InBounds(g, c) && |Neighbors(g, c)| > 0
    ensures var ns := Neighbors(g, c);
      IsKeypoint(g, c) <==>
        Walkable(g, c) &&
        exists k :: 0 <= k < |ns| && !IsTerrain(g, ns[k]) && Orthogonal(c, ns[k]) && AfterSingleTerrain(g, ns, k)
  {
    var ns := Neighbors(g, c);
    ScanFinds(g, c, ns, 0, false);
    forall k | 0 <= k < |ns|
      ensures CountAt(g, ns, k) == 1 <==> AfterSingleTerrain(g, ns, k)
    {
      CountAtIsOne(g, ns, k);
    }
  }

  /** Every cell of a map with at least two cells has an in-bounds neighbour. */
  lemma HasNeighbor(g: Grid, c: Pos)
    requires Valid(g) && InBounds(g, c) && CellCount(g) >= 2
    ensures |Neighbors(g, c)| > 0
  {
    var q := if c.x + 1 < g.width then Pos(c.x + 1, c.y)
             else if c.x > 0 then Pos(c.x - 1, c.y)
             else if c.y + 1 < g.height then Pos(c.x, c.y + 1)
             else Pos(c.x, c.y - 1);
    if g.width == 1 {
      assert g.height >= 2;
    }
    assert InBounds(g, q) && Adjacent8(c, q);
    assert q in Neighbors(g, c);
  }

  /**
   The maps the extraction can scan: `generateKeypoints` reads the last neighbour of
   every walkable cell, which fails on a map whose only cell is walkable.
   */
  ghost predicate Scannable(g: Grid) {
    Valid(g) && (CellCount(g) == 1 ==> g.flags[0] == Terrain)
  }

  /** The keypoint test for the cell with index i (false for terrain). */
  predicate KeypointAt(g: Grid, i: nat)
    requires Scannable(g) && i < CellCount(g)
  {
    var c := Position(g, i);
    if FlagAt(g, c) == Terrain then false
    else
      HasNeighbor(g, c);
      IsKeypoint(g, c)
  }

  /** The positions i, i+1, ... at which `marks` holds, ascending. */
  function MarkedFrom(marks: seq<bool>, i: nat): (r: seq<nat>)
    requires i <= |marks|
    ensures forall k :: 0 <= k < |r| ==> i <= r[k] < |marks| && marks[r[k]]
    ensures forall j :: i <= j < |marks| && marks[j] ==> j in r
    ensures forall a, b :: 0 <= a < b < |r| ==> r[a] < r[b]
    decreases |marks| - i
  {
    if i == |marks| then []
    else
      var rest := MarkedFrom(marks, i + 1);
      if marks[i] then [i] + rest else rest
  }

  /** The keypoint test of every cell, by index. */
  function KeypointMarks(g: Grid): (m: seq<bool>)
    requires Scannable(g)
    ensures |m| == CellCount(g)
    ensures forall i :: 0 <= i < |m| ==> m[i] == KeypointAt(g, i)
  {
    seq(CellCount(g), i requires 0 <= i < CellCount(g) => KeypointAt(g, i))
  }

  /** The cells at the marked indices, in index order. */
  function MarkedCells(g: Grid, marks: seq<bool>): (pts: seq<Pos>)
    requires Valid(g) && |marks| == CellCount(g)
    ensures forall p :: p in pts <==> InBounds(g, p) && marks[Index(g, p)]
    ensures forall a, b :: 0 <= a < b < |pts| ==> Index(g, pts[a]) < Index(g, pts[b])
  {
    var r := MarkedFrom(marks, 0);
    var pts := seq(|r|, k requires 0 <= k < |r| => Position(g, r[k]));
    assert forall k :: 0 <= k < |pts| ==> Index(g, pts[k]) == r[k] && InBounds(g, pts[k]);
    forall p | InBounds(g, p) && marks[Index(g, p)]
      ensures p in pts
    {
      PositionIndexRoundTrip(g, p);
      var k :| 0 <= k < |r| && r[k] == Index(g, p);
      assert pts[k] == p;
    }
    pts
  }

  /**
   `generateKeypoints`: every keypoint of the map once, in index order, and
   nothing else.
   */
  function GenerateKeypoints(g: Grid): (pts: seq<Pos>)
    requires Scannable(g)
    ensures forall p :: p in pts <==> InBounds(g, p) && KeypointAt(g, Index(g, p))
    ensures forall a, b :: 0 <= a < b < |pts| ==> Index(g, pts[a]) < Index(g, pts[b])
  {
    MarkedCells(g, KeypointMarks(g))
  }

  /** A 3x2 map whose two left cells are terrain. */
  function QuirkMap(): (g: Grid)
    ensures Valid(g)
  {
    Grid(3, 2, [Terrain, Path, Path, Terrain, Path, Path])
  }

  lemma QuirkNeighbors(g: Grid, c: Pos)
    requires g == QuirkMap() && c == Pos(1, 1)
    ensures Neighbors(g, c) == [Pos(2, 1), Pos(2, 0), Pos(1, 0), Pos(0, 0), Pos(0, 1)]
  {
    assert NeighborsFrom(g, c, 8) == [];
    assert NeighborsFrom(g, c, 7) == [Pos(0, 1)];
    assert NeighborsFrom(g, c, 6) == [Pos(0, 0), Pos(0, 1)];
    assert NeighborsFrom(g, c, 5) == [Pos(1, 0), Pos(0, 0), Pos(0, 1)];
    assert NeighborsFrom(g, c, 4) == [Pos(2, 0), Pos(1, 0), Pos(0, 0), Pos(0, 1)];
    assert NeighborsFrom(g, c, 3) == [Pos(2, 1), Pos(2, 0), Pos(1, 0), Pos(0, 0), Pos(0, 1)];
  }

  /**
   The seeding quirk: cell (1,1) of `QuirkMap` lies on the map's top row and
   has neighbours E, SE, S, SW, W in that order. W and SW are terrain, so the
   terrain run in front of E is two cells long around the end of the list,
   yet the count is seeded from W alone and (1,1) is reported as a keypoint.
   */
  lemma SeedQuirkExample(g: Grid, c: Pos)
    requires g == QuirkMap() && c == Pos(1, 1)
    ensures var ns := Neighbors(g, c);
      && |ns| == 5
      && IsTerrain(g, ns[3]) && IsTerrain(g, ns[4])
      && !IsTerrain(g, ns[0]) && Orthogonal(c, ns[0])
    ensures IsKeypoint(g, c)
  {
    QuirkNeighbors(g, c);
    QuirkIsKeypoint(g, c);
  }

  lemma QuirkIsKeypoint(g: Grid, c: Pos)
    requires g == QuirkMap() && c == Pos(1, 1)
    ensures IsKeypoint(g, c)
  {
    QuirkNeighbors(g, c);
    QuirkCells(g);
    FirstAfterLastTerrain(g, c);
  }

  /** The flags of the cells around (1,1) of `QuirkMap` that the quirk needs. */
  lemma QuirkCells(g: Grid)
    requires g == QuirkMap()
    ensures Walkable(g, Pos(1, 1)) && IsTerrain(g, Pos(0, 1)) && !IsTerrain(g, Pos(2, 1))
  {
    assert Index(g, Pos(1, 1)) == 4 && Index(g, Pos(0, 1)) == 3 && Index(g, Pos(2, 1)) == 5;
  }

  /**
   A walkable cell whose first neighbour is orthogonal and walkable while its
   last neighbour is terrain is a keypoint.
   */
  lemma FirstAfterLastTerrain(g: Grid, c: Pos)
    requires Valid(g) && InBounds(g, c) && |Neighbors(g, c)| > 0 && Walkable(g, c)
    requires var ns := Neighbors(g, c);
      IsTerrain(g, ns[|ns| - 1]) && !IsTerrain(g, ns[0]) && Orthogonal(c, ns[0])
    ensures IsKeypoint(g, c)
  {
    var ns := Neighbors(g, c);
    ScanKeepsFound(g, c, ns, 1, 0);
  }
}
