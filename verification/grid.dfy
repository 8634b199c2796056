/**
 The grid store of the path finder: a rectangular map of cells kept as one
 row-major sequence of terrain flags, the conversions between a cell's
 (x, y) position and its index, the tie-breaking grid distance, the
 8-neighbour enumeration in the fixed `Axis8` order and the narrow-corner
 test used by the dense graph.
 */
module GridMap {

  /** The terrain flag of a cell: `Path` (0) is walkable, `Terrain` (1) blocks. */
  datatype Flag = Path | Terrain

  /** An integer cell position. */
  datatype Pos = Pos(x: int, y: int)

  /** A width-by-height map; the flag of cell (x, y) sits at index y*width + x. */
  datatype Grid = Grid(width: nat, height: nat, flags: seq<Flag>)

  ghost predicate Valid(g: Grid) {
    g.width > 0 && g.height > 0 && |g.flags| == g.width * g.height
  }

  predicate InBounds(g: Grid, p: Pos) {
    0 <= p.x < g.width && 0 <= p.y < g.height
  }

  /** The number of cells of the map. */
  function CellCount(g: Grid): nat {
    g.width * g.height
  }

  lemma IndexBound(w: nat, h: nat, x: int, y: int)
    requires 0 <= x < w && 0 <= y < h
    ensures 0 <= y * w + x < w * h
  {
    assert y * w <= (h - 1) * w by {
      assert (h - 1) * w - y * w == (h - 1 - y) * w;
    }
    assert (h - 1) * w + w == h * w;
  }

  /** Position to index; in-bounds positions land on a cell of the map. */
  function Index(g: Grid, p: Pos): (i: int)
    ensures InBounds(g, p) ==> 0 <= i < CellCount(g)
  {
    if InBounds(g, p) then IndexBound(g.width, g.height, p.x, p.y); p.y * g.width + p.x
    else p.y * g.width + p.x
  }

  /** A multiple of w strictly between -w and w is zero. */
  lemma SmallMultipleIsZero(a: int, w: nat)
    requires -(w as int) < a * w < w
    ensures a == 0
  {
  }

  lemma DivModOfIndex(w: nat, x: int, y: int)
    requires 0 <= x < w && 0 <= y
    ensures (y * w + x) % w == x && (y * w + x) / w == y
  {
    var i := y * w + x;
    var q, r := i / w, i % w;
    assert i == q * w + r && 0 <= r < w;
    // Both (q, r) and (y, x) split i, so the quotients differ by a small multiple of w.
    assert (q - y) * w == x - r;
    SmallMultipleIsZero(q - y, w);
  }

  /** Index to position: floor division and remainder by the width. */
  function Position(g: Grid, i: nat): (p: Pos)
    requires g.width > 0
    ensures 0 <= p.x < g.width && 0 <= p.y
    ensures Index(g, p) == i
    ensures i < CellCount(g) ==> InBounds(g, p)
  {
    var p := Pos(i % g.width, i / g.width);
    SplitIndex(g.width, i);
    if i < CellCount(g) then QuotientBound(g.width, g.height, i); p else p
  }

  /** Quotient and remainder by the width put an index back together. */
  lemma SplitIndex(w: nat, i: nat)
    requires w > 0
    ensures 0 <= i % w < w && 0 <= i / w && (i / w) * w + i % w == i
  {
  }

  lemma QuotientBound(w: nat, h: nat, i: nat)
    requires w > 0 && i < w * h
    ensures i / w < h
  {
    var q := i / w;
    assert q * w <= i;
    assert q * w < h * w;
    MulMonotone(q, h, w);
  }

  lemma MulMonotone(a: int, b: int, w: nat)
    requires a * w < b * w
    ensures a < b
  {
  }

  lemma PositionIndexRoundTrip(g: Grid, p: Pos)
    requires g.width > 0 && InBounds(g, p)
    ensures Index(g, p) >= 0 && Position(g, Index(g, p)) == p
  {
    DivModOfIndex(g.width, p.x, p.y);
  }

  lemma IndexPositionRoundTrip(g: Grid, i: nat)
    requires Valid(g) && i < CellCount(g)
    ensures InBounds(g, Position(g, i)) && Index(g, Position(g, i)) == i
  {
  }

  /** Distinct in-bounds positions have distinct indices. */
  lemma IndexInjective(g: Grid, p: Pos, q: Pos)
    requires g.width > 0 && InBounds(g, p) && InBounds(g, q)
    requires Index(g, p) == Index(g, q)
    ensures p == q
  {
    PositionIndexRoundTrip(g, p);
    PositionIndexRoundTrip(g, q);
  }

  function FlagAt(g: Grid, p: Pos): Flag
    requires Valid(g) && InBounds(g, p)
  {
    g.flags[Index(g, p)]
  }

  predicate Walkable(g: Grid, p: Pos)
    requires Valid(g) && InBounds(g, p)
  {
    FlagAt(g, p) == Path
  }

  function Abs(v: int): nat {
    if v < 0 then -v else v
  }

  function Min(a: int, b: int): int {
    if a <= b then a else b
  }

  /** The tie-break weight of the diagonal component of a move. */
  const Epsilon: real := 0.0001

  /**
   The grid distance `dx + dy - 0.0001*min(dx, dy)`: Manhattan distance with a
   small rebate on every diagonal step, so a diagonal beats two straight steps.
   It is bounded below by the larger of the two axis differences.
   */
  function GridDis(p: Pos, q: Pos): (d: real)
    ensures d >= Abs(p.x - q.x) as real && d >= Abs(p.y - q.y) as real
    ensures d <= (Abs(p.x - q.x) + Abs(p.y - q.y)) as real
  {
    var dx := Abs(p.x - q.x);
    var dy := Abs(p.y - q.y);
    (dx + dy) as real - Min(dx, dy) as real * Epsilon
  }

  lemma GridDisSymmetric(p: Pos, q: Pos)
    ensures GridDis(p, q) == GridDis(q, p)
  {
    assert Abs(p.x - q.x) == Abs(q.x - p.x);
    assert Abs(p.y - q.y) == Abs(q.y - p.y);
  }

  lemma GridDisZeroIffSame(p: Pos, q: Pos)
    ensures GridDis(p, q) >= 0.0
    ensures GridDis(p, q) == 0.0 <==> p == q
    ensures p != q ==> GridDis(p, q) >= 1.0
  {
  }

  /** An orthogonal step costs exactly 1. */
  lemma GridDisOrthogonalStep(p: Pos, q: Pos)
    requires Abs(p.x - q.x) + Abs(p.y - q.y) == 1
    ensures GridDis(p, q) == 1.0
  {
  }

  /** A diagonal step costs 2 - 0.0001, strictly less than two orthogonal steps. */
  lemma GridDisDiagonalStep(p: Pos, q: Pos)
    requires Abs(p.x - q.x) == 1 && Abs(p.y - q.y) == 1
    ensures GridDis(p, q) == 2.0 - Epsilon
    ensures GridDis(p, q) < 2.0
  {
  }

  /** The eight neighbour offsets of `Axis8`, in the order `getAxisNeighbors` enumerates them. */
  const Axis8: seq<Pos> := [Pos(-1, 1), Pos(0, 1), Pos(1, 1), Pos(1, 0),
                            Pos(1, -1), Pos(0, -1), Pos(-1, -1), Pos(-1, 0)]

  function Offset(p: Pos, d: Pos): Pos {
    Pos(p.x + d.x, p.y + d.y)
  }

  /** q is one of the eight cells around p. */
  predicate Adjacent8(p: Pos, q: Pos) {
    p != q && Abs(p.x - q.x) <= 1 && Abs(p.y - q.y) <= 1
  }

  /** q shares an edge with p. */
  predicate Orthogonal(p: Pos, q: Pos) {
    Abs(p.x - q.x) + Abs(p.y - q.y) == 1
  }

  /** The offset that leads from p to q. */
  function Delta(p: Pos, q: Pos): Pos {
    Pos(q.x - p.x, q.y - p.y)
  }

  lemma Axis8Complete(p: Pos, q: Pos)
    ensures Adjacent8(p, q) <==> Delta(p, q) in Axis8
  {
  }

  /** The in-bounds neighbours of p for the offsets Axis8[k..], in that order. */
  function NeighborsFrom(g: Grid, p: Pos, k: nat): (r: seq<Pos>)
    requires k <= 8
    ensures |r| <= 8 - k
    decreases 8 - k
  {
    if k == 8 then []
    else
      var rest := NeighborsFrom(g, p, k + 1);
      var q := Offset(p, Axis8[k]);
      if InBounds(g, q) then [q] + rest else rest
  }

  lemma {:induction false} NeighborsFromMember(g: Grid, p: Pos, k: nat, q: Pos)
    requires k <= 8
    ensures q in NeighborsFrom(g, p, k) <==> InBounds(g, q) && Delta(p, q) in Axis8[k..]
    decreases 8 - k
  {
    if k < 8 {
      NeighborsFromMember(g, p, k + 1, q);
      var d := Delta(p, q);
      assert d in Axis8[k..] <==> d == Axis8[k] || d in Axis8[k + 1..] by {
        assert Axis8[k..] == [Axis8[k]] + Axis8[k + 1..];
      }
      assert q == Offset(p, Axis8[k]) <==> d == Axis8[k];
    }
  }

  lemma {:induction false} NeighborsFromDistinct(g: Grid, p: Pos, k: nat)
    requires k <= 8
    ensures forall a, b :: 0 <= a < b < |NeighborsFrom(g, p, k)| ==>
      NeighborsFrom(g, p, k)[a] != NeighborsFrom(g, p, k)[b]
    decreases 8 - k
  {
    if k < 8 {
      NeighborsFromDistinct(g, p, k + 1);
      var q := Offset(p, Axis8[k]);
      NeighborsFromMember(g, p, k + 1, q);
      assert Delta(p, q) == Axis8[k];
      assert Axis8[k] !in Axis8[k + 1..];
    }
  }

  /**
   `getAxisNeighbors(p, Axis8)`: the in-bounds 8-neighbours of p, without
   repetition, in `Axis8` order.
   */
  function Neighbors(g: Grid, p: Pos): (r: seq<Pos>)
    ensures |r| <= 8
    ensures forall q :: q in r <==> InBounds(g, q) && Adjacent8(p, q)
    ensures forall a, b :: 0 <= a < b < |r| ==> r[a] != r[b]
  {
    var r := NeighborsFrom(g, p, 0);
    NeighborsFromDistinct(g, p, 0);
    forall q
      ensures q in r <==> InBounds(g, q) && Adjacent8(p, q)
    {
      NeighborsFromMember(g, p, 0, q);
      Axis8Complete(p, q);
    }
    r
  }

  /** The position of offset d in `Axis8`; 8 when d is not an `Axis8` offset. */
  function Axis8Rank(d: Pos): nat {
    if d == Pos(-1, 1) then 0 else if d == Pos(0, 1) then 1
    else if d == Pos(1, 1) then 2 else if d == Pos(1, 0) then 3
    else if d == Pos(1, -1) then 4 else if d == Pos(0, -1) then 5
    else if d == Pos(-1, -1) then 6 else if d == Pos(-1, 0) then 7
    else 8
  }

  lemma Axis8RankOf(k: nat)
    requires k < 8
    ensures Axis8Rank(Axis8[k]) == k
  {
  }

  /**
   The cells of r lie around p at `Axis8` offsets that come strictly later in
   `Axis8` along r.
   */
  predicate InAxis8Order(p: Pos, r: seq<Pos>) {
    && (forall a :: 0 <= a < |r| ==>
          Axis8Rank(Delta(p, r[a])) < 8 && Axis8[Axis8Rank(Delta(p, r[a]))] == Delta(p, r[a]))
    && (forall a, b :: 0 <= a < b < |r| ==> Axis8Rank(Delta(p, r[a])) < Axis8Rank(Delta(p, r[b])))
  }

  lemma {:induction false} NeighborsFromOrder(g: Grid, p: Pos, k: nat)
    requires k <= 8
    ensures InAxis8Order(p, NeighborsFrom(g, p, k))
    ensures forall a :: 0 <= a < |NeighborsFrom(g, p, k)| ==> k <= Axis8Rank(Delta(p, NeighborsFrom(g, p, k)[a]))
    decreases 8 - k
  {
    if k < 8 {
      NeighborsFromOrder(g, p, k + 1);
      var q := Offset(p, Axis8[k]);
      assert Delta(p, q) == Axis8[k];
      Axis8RankOf(k);
    }
  }

  /** `getAxisNeighbors` lists the neighbours in `Axis8` order. */
  lemma NeighborsInAxis8Order(g: Grid, p: Pos)
    ensures InAxis8Order(p, Neighbors(g, p))
  {
    NeighborsFromOrder(g, p, 0);
    assert Neighbors(g, p) == NeighborsFrom(g, p, 0);
  }

  lemma NeighborsSymmetric(g: Grid, p: Pos, q: Pos)
    requires InBounds(g, p) && InBounds(g, q)
    ensures q in Neighbors(g, p) <==> p in Neighbors(g, q)
  {
  }

  /**
   `isNarrowCorner`: a diagonal move from a to b is narrow when one of the two
   cells it squeezes between is terrain.
   */
  predicate IsNarrowCorner(g: Grid, a: Pos, b: Pos)
    requires Valid(g) && InBounds(g, a) && InBounds(g, b)
  {
    var dx := b.x - a.x;
    var dy := b.y - a.y;
    dx != 0 && dy != 0 &&
    (FlagAt(g, Pos(b.x, a.y)) == Terrain || FlagAt(g, Pos(a.x, b.y)) == Terrain)
  }

  lemma NarrowCornerSymmetric(g: Grid, a: Pos, b: Pos)
    requires Valid(g) && InBounds(g, a) && InBounds(g, b)
    ensures IsNarrowCorner(g, a, b) <==> IsNarrowCorner(g, b, a)
  {
  }
}
