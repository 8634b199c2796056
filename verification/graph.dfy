/**
 The connectivity graphs the cost propagation runs on, keyed by cell index:
 the dense 8-neighbour graph of the plain mode, and the sparse keypoint
 visibility graph of the optimised mode together with each ordinary cell's
 visible keypoints (`nearPoints` with their cached distances). The target
 cell joins the sparse graph as a transient node before each propagation
 and leaves it again at the next one.
 */
module Graphs {
  import opened GridMap
  import opened Geometry
  import opened Visibility

  /** The weighted neighbours of one node, keyed by cell index. */
  type Edges = map<int, real>

  /** A graph keyed by cell index; a missing key has no neighbours. */
  type Graph = map<int, Edges>

  datatype Option<T> = None | Some(value: T)

  predicate HasEdge(G: Graph, a: int, b: int) {
    a in G && b in G[a]
  }

  /** Every edge is present in both directions with the same weight. */
  ghost predicate Symmetric(G: Graph) {
    forall a, b :: HasEdge(G, a, b) ==> HasEdge(G, b, a) && G[b][a] == G[a][b]
  }

  ghost predicate NonNegative(G: Graph) {
    forall a, b :: HasEdge(G, a, b) ==> G[a][b] >= 0.0
  }

  /** Links between distinct cells weigh something; a cell's link to itself may weigh nothing. */
  ghost predicate PositiveLinks(G: Graph) {
    forall a, b :: HasEdge(G, a, b) && a != b ==> G[a][b] > 0.0
  }

  /** Keys and neighbour keys are cell indices of a map with n cells. */
  ghost predicate WellKeyed(G: Graph, n: int) {
    forall a :: a in G ==> 0 <= a < n && forall b :: b in G[a] ==> 0 <= b < n
  }

  //------------------------------------------------------------------ dense graph

  /** The dense graph's test for an edge from p to q. */
  predicate DenseEdge(g: Grid, p: Pos, q: Pos)
    requires Valid(g) && InBounds(g, p) && InBounds(g, q)
  {
    Adjacent8(p, q) && Walkable(g, q) && !IsNarrowCorner(g, p, q)
  }

  /**
   The neighbour loop of `createGraphByGrids` for cell p over the list ns:
   terrain neighbours and narrow diagonals are skipped, the others get their
   grid distance.
   */
  function Nest(g: Grid, p: Pos, ns: seq<Pos>): (e: Edges)
    requires Valid(g) && InBounds(g, p)
    requires forall q :: q in ns ==> InBounds(g, q)
    ensures forall j :: j in e ==> 0 <= j < CellCount(g) && Position(g, j) in ns
    ensures forall q :: q in ns ==> (Index(g, q) in e <==> Walkable(g, q) && !IsNarrowCorner(g, p, q))
    ensures forall q :: q in ns && Index(g, q) in e ==> e[Index(g, q)] == GridDis(p, q)
    decreases |ns|
  {
    if |ns| == 0 then map[]
    else
      var init := ns[..|ns| - 1];
      var q := ns[|ns| - 1];
      assert forall r :: r in ns <==> r in init || r == q;
      var m := Nest(g, p, init);
      PositionIndexRoundTrip(g, q);
      forall r | r in init
        ensures Index(g, r) == Index(g, q) ==> r == q
      {
        if Index(g, r) == Index(g, q) {
          IndexInjective(g, r, q);
        }
      }
      if Walkable(g, q) && !IsNarrowCorner(g, p, q) then m[Index(g, q) := GridDis(p, q)] else m
  }

  /** `createGraphByGrids`: every walkable cell is a key holding its dense edges. */
  function DenseGraph(g: Grid): (G: Graph)
    requires Valid(g)
  {
    map i | 0 <= i < CellCount(g) && Walkable(g, Position(g, i)) ::
      Nest(g, Position(g, i), Neighbors(g, Position(g, i)))
  }

  /**
   The dense graph has exactly the walkable cells as keys, and an edge from a
   to b exactly when b is a walkable 8-neighbour of a not reached by squeezing
   between terrain; its weight is the grid distance.
   */
  lemma DenseGraphEdges(g: Grid, a: Pos, b: Pos)
    requires Valid(g) && InBounds(g, a) && InBounds(g, b)
    ensures Index(g, a) in DenseGraph(g) <==> Walkable(g, a)
    ensures HasEdge(DenseGraph(g), Index(g, a), Index(g, b)) <==> Walkable(g, a) && DenseEdge(g, a, b)
    ensures HasEdge(DenseGraph(g), Index(g, a), Index(g, b)) ==>
      DenseGraph(g)[Index(g, a)][Index(g, b)] == GridDis(a, b)
  {
    PositionIndexRoundTrip(g, a);
    PositionIndexRoundTrip(g, b);
    if Walkable(g, a) {
      var ns := Neighbors(g, a);
      assert b in ns <==> Adjacent8(a, b);
    }
  }

  /** Every dense edge weighs the grid distance between its cells. */
  lemma DenseGraphWeighsDistance(g: Grid)
    requires Valid(g)
    ensures WeighsDistance(g, DenseGraph(g))
  {
    forall p, q | InBounds(g, p) && InBounds(g, q) && HasEdge(DenseGraph(g), Index(g, p), Index(g, q))
      ensures DenseGraph(g)[Index(g, p)][Index(g, q)] == GridDis(p, q)
    {
      DenseGraphEdges(g, p, q);
    }
  }

  /** Keys and neighbour keys of the dense graph are cells of the map. */
  lemma DenseGraphWellKeyed(g: Grid)
    requires Valid(g)
    ensures WellKeyed(DenseGraph(g), CellCount(g))
  {
  }

  lemma DenseGraphSymmetric(g: Grid)
    requires Valid(g)
    ensures Symmetric(DenseGraph(g))
    ensures NonNegative(DenseGraph(g))
  {
    var G := DenseGraph(g);
    forall x, y | HasEdge(G, x, y)
      ensures HasEdge(G, y, x) && G[y][x] == G[x][y] && G[x][y] >= 0.0
    {
      var a, b := Position(g, x), Position(g, y);
      DenseGraphEdges(g, a, b);
      DenseGraphEdges(g, b, a);
      NarrowCornerSymmetric(g, a, b);
      GridDisSymmetric(a, b);
      GridDisZeroIffSame(a, b);
    }
  }

  //------------------------------------------------------------------ sparse graph

  /** `graph[a][b] = w` then `graph[b][a] = w`, creating either key when missing. */
  function Link(G: Graph, a: int, b: int, w: real): Graph {
    var G1 := G[a := (if a in G then G[a] else map[])[b := w]];
    G1[b := (if b in G1 then G1[b] else map[])[a := w]]
  }

  /** Linking a and b adds exactly the keys a and b. */
  lemma LinkKeys(G: Graph, a: int, b: int, w: real)
    ensures Link(G, a, b, w).Keys == G.Keys + {a, b}
  {
  }

  /** Linking a and b adds both edges with weight w and changes no other entry. */
  lemma LinkEdges(G: Graph, a: int, b: int, w: real)
    ensures var r := Link(G, a, b, w);
      && HasEdge(r, a, b) && r[a][b] == w && HasEdge(r, b, a) && r[b][a] == w
      && forall x, y :: !(x == a && y == b) && !(x == b && y == a) ==>
        (HasEdge(r, x, y) <==> HasEdge(G, x, y)) && (HasEdge(G, x, y) ==> r[x][y] == G[x][y])
  {
  }

  /** The indices of the points of pts that p0 sees. */
  function VisibleIndices(g: Grid, rects: seq<Rect>, p0: Pos, pts: seq<Pos>): set<int> {
    set q | q in pts && IsConnect(rects, p0, q) :: Index(g, q)
  }

  /** `updateGraphPoint`: the points of pts are tried in order, and p0 is linked to each one it sees. */
  function LinkVisible(g: Grid, G: Graph, rects: seq<Rect>, p0: Pos, pts: seq<Pos>): Graph
    decreases |pts|
  {
    if |pts| == 0 then G
    else
      var m := LinkVisible(g, G, rects, p0, pts[..|pts| - 1]);
      var q := pts[|pts| - 1];
      if IsConnect(rects, p0, q) then Link(m, Index(g, p0), Index(g, q), GridDis(p0, q)) else m
  }

  lemma VisibleIndicesInRange(g: Grid, rects: seq<Rect>, p0: Pos, pts: seq<Pos>)
    requires Valid(g)
    requires forall q :: q in pts ==> InBounds(g, q)
    ensures forall y :: y in VisibleIndices(g, rects, p0, pts) ==> 0 <= y < CellCount(g)
  {
  }

  /** The weight of edge (x, y) once p0, at index a0, is linked to the indices V. */
  function Overlaid(g: Grid, G: Graph, p0: Pos, V: set<int>, x: int, y: int): real
    requires g.width > 0 && forall v :: v in V ==> v >= 0
  {
    if x == Index(g, p0) && y in V then GridDis(p0, Position(g, y))
    else if y == Index(g, p0) && x in V then GridDis(p0, Position(g, x))
    else if HasEdge(G, x, y) then G[x][y]
    else 0.0
  }

  /**
   What `updateGraphPoint` does: p0 is linked, both ways, to every point of
   pts it sees, with the grid distance as weight; every other entry of the
   graph is left as it was.
   */
  lemma LinkVisibleSpec(g: Grid, G: Graph, rects: seq<Rect>, p0: Pos, pts: seq<Pos>)
    requires Valid(g) && InBounds(g, p0)
    requires forall q :: q in pts ==> InBounds(g, q)
    ensures var r, a0, V := LinkVisible(g, G, rects, p0, pts), Index(g, p0), VisibleIndices(g, rects, p0, pts);
      && (forall x :: x in r <==> x in G || x in V || (x == a0 && V != {}))
      && (forall x, y :: HasEdge(r, x, y) <==> HasEdge(G, x, y) || (x == a0 && y in V) || (y == a0 && x in V))
      && (forall v :: v in V ==> v >= 0)
      && (forall x, y :: HasEdge(r, x, y) ==> r[x][y] == Overlaid(g, G, p0, V, x, y))
  {
    VisibleIndicesInRange(g, rects, p0, pts);
    LinkVisibleKeys(g, G, rects, p0, pts);
    LinkVisibleEdges(g, G, rects, p0, pts);
    LinkVisibleWeights(g, G, rects, p0, pts);
  }

  lemma {:induction false} LinkVisibleKeys(g: Grid, G: Graph, rects: seq<Rect>, p0: Pos, pts: seq<Pos>)
    ensures var r, a0, V := LinkVisible(g, G, rects, p0, pts), Index(g, p0), VisibleIndices(g, rects, p0, pts);
      forall x :: x in r <==> x in G || x in V || (x == a0 && V != {})
    decreases |pts|
  {
    if |pts| > 0 {
      var init := pts[..|pts| - 1];
      var q := pts[|pts| - 1];
      LinkVisibleKeys(g, G, rects, p0, init);
      LinkVisibleStep(g, rects, p0, init, q);
      LinkKeys(LinkVisible(g, G, rects, p0, init), Index(g, p0), Index(g, q), GridDis(p0, q));
      assert pts == init + [q];
    }
  }

  lemma {:induction false} LinkVisibleEdges(g: Grid, G: Graph, rects: seq<Rect>, p0: Pos, pts: seq<Pos>)
    ensures var r, a0, V := LinkVisible(g, G, rects, p0, pts), Index(g, p0), VisibleIndices(g, rects, p0, pts);
      forall x, y :: HasEdge(r, x, y) <==> HasEdge(G, x, y) || (x == a0 && y in V) || (y == a0 && x in V)
    decreases |pts|
  {
    if |pts| > 0 {
      var init := pts[..|pts| - 1];
      var q := pts[|pts| - 1];
      LinkVisibleEdges(g, G, rects, p0, init);
      LinkVisibleStep(g, rects, p0, init, q);
      LinkEdges(LinkVisible(g, G, rects, p0, init), Index(g, p0), Index(g, q), GridDis(p0, q));
      assert pts == init + [q];
    }
  }

  lemma {:induction false} LinkVisibleWeights(g: Grid, G: Graph, rects: seq<Rect>, p0: Pos, pts: seq<Pos>)
    requires Valid(g) && InBounds(g, p0)
    requires forall q :: q in pts ==> InBounds(g, q)
    ensures forall v :: v in VisibleIndices(g, rects, p0, pts) ==> v >= 0
    ensures var r, V := LinkVisible(g, G, rects, p0, pts), VisibleIndices(g, rects, p0, pts);
      forall x, y :: HasEdge(r, x, y) ==> r[x][y] == Overlaid(g, G, p0, V, x, y)
    decreases |pts|
  {
    VisibleIndicesInRange(g, rects, p0, pts);
    if |pts| > 0 {
      var init := pts[..|pts| - 1];
      var q := pts[|pts| - 1];
      var a0, b := Index(g, p0), Index(g, q);
      LinkVisibleWeights(g, G, rects, p0, init);
      LinkVisibleStep(g, rects, p0, init, q);
      assert pts == init + [q];
      var m := LinkVisible(g, G, rects, p0, init);
      var r := LinkVisible(g, G, rects, p0, pts);
      var V0, V := VisibleIndices(g, rects, p0, init), VisibleIndices(g, rects, p0, pts);
      if IsConnect(rects, p0, q) {
        assert r == Link(m, a0, b, GridDis(p0, q));
        assert V == V0 + {b};
        forall x, y | HasEdge(r, x, y)
          ensures r[x][y] == Overlaid(g, G, p0, V, x, y)
        {
          LinkStepWeight(g, G, p0, q, m, V0, x, y);
        }
      } else {
        assert r == m && V == V0;
      }
    }
  }

  lemma LinkStepWeight(g: Grid, G: Graph, p0: Pos, q: Pos, m: Graph, V0: set<int>, x: int, y: int)
    requires Valid(g) && InBounds(g, p0) && InBounds(g, q) && forall v :: v in V0 ==> v >= 0
    requires HasEdge(m, x, y) ==> m[x][y] == Overlaid(g, G, p0, V0, x, y)
    requires HasEdge(Link(m, Index(g, p0), Index(g, q), GridDis(p0, q)), x, y)
    ensures Link(m, Index(g, p0), Index(g, q), GridDis(p0, q))[x][y] == Overlaid(g, G, p0, V0 + {Index(g, q)}, x, y)
  {
    var a0, b := Index(g, p0), Index(g, q);
    LinkEdges(m, a0, b, GridDis(p0, q));
    PositionIndexRoundTrip(g, q);
    GridDisSymmetric(p0, q);
    if !(x == a0 && y == b) && !(x == b && y == a0) {
      OverlaidGrow(g, G, p0, V0, b, x, y);
    }
  }

  lemma OverlaidGrow(g: Grid, G: Graph, p0: Pos, V0: set<int>, b: int, x: int, y: int)
    requires g.width > 0 && b >= 0 && forall v :: v in V0 ==> v >= 0
    requires !(x == Index(g, p0) && y == b) && !(x == b && y == Index(g, p0))
    ensures Overlaid(g, G, p0, V0 + {b}, x, y) == Overlaid(g, G, p0, V0, x, y)
  {
  }

  lemma LinkVisibleStep(g: Grid, rects: seq<Rect>, p0: Pos, init: seq<Pos>, q: Pos)
    ensures VisibleIndices(g, rects, p0, init + [q]) ==
      VisibleIndices(g, rects, p0, init) + (if IsConnect(rects, p0, q) then {Index(g, q)} else {})
  {
    var pts := init + [q];
    assert forall r :: r in pts <==> r in init || r == q;
  }

  /** For an in-bounds q, its index is among p0's visible indices exactly when q is a point p0 sees. */
  lemma VisibleIndexIff(g: Grid, rects: seq<Rect>, p0: Pos, pts: seq<Pos>, q: Pos)
    requires Valid(g) && InBounds(g, q)
    requires forall x :: x in pts ==> InBounds(g, x)
    ensures Index(g, q) in VisibleIndices(g, rects, p0, pts) <==> q in pts && IsConnect(rects, p0, q)
  {
    if Index(g, q) in VisibleIndices(g, rects, p0, pts) {
      var x :| x in pts && IsConnect(rects, p0, x) && Index(g, x) == Index(g, q);
      IndexInjective(g, x, q);
    }
  }

  /** The keypoint loop of `createGraphByPoints`: each point of ps in turn is linked to what it sees in pts. */
  function LinkAll(g: Grid, rects: seq<Rect>, ps: seq<Pos>, pts: seq<Pos>): Graph
    decreases |ps|
  {
    if |ps| == 0 then map[]
    else LinkVisible(g, LinkAll(g, rects, ps[..|ps| - 1], pts), rects, ps[|ps| - 1], pts)
  }

  /** The indices of the points of pts. */
  function PointIndices(g: Grid, pts: seq<Pos>): set<int> {
    set q | q in pts :: Index(g, q)
  }

  /** Linking points of pts to each other mentions only indices of points of pts. */
  lemma {:induction false} LinkAllIndices(g: Grid, rects: seq<Rect>, ps: seq<Pos>, pts: seq<Pos>)
    requires forall q :: q in ps ==> q in pts
    ensures forall x :: x in LinkAll(g, rects, ps, pts) ==> x in PointIndices(g, pts)
    ensures forall x, y :: HasEdge(LinkAll(g, rects, ps, pts), x, y) ==> y in PointIndices(g, pts)
    decreases |ps|
  {
    if |ps| > 0 {
      var init := ps[..|ps| - 1];
      var p0 := ps[|ps| - 1];
      assert forall q :: q in init ==> q in ps;
      LinkAllIndices(g, rects, init, pts);
      var m := LinkAll(g, rects, init, pts);
      LinkVisibleKeys(g, m, rects, p0, pts);
      LinkVisibleEdges(g, m, rects, p0, pts);
      assert Index(g, p0) in PointIndices(g, pts);
      assert VisibleIndices(g, rects, p0, pts) <= PointIndices(g, pts);
    }
  }

  lemma PointIndicesInRange(g: Grid, pts: seq<Pos>)
    requires Valid(g)
    requires forall q :: q in pts ==> InBounds(g, q)
    ensures forall x :: x in PointIndices(g, pts) ==> 0 <= x < CellCount(g)
  {
  }

  /** An in-bounds cell's index is a point index exactly when the cell is a point. */
  lemma PointIndexIff(g: Grid, pts: seq<Pos>, p: Pos)
    requires Valid(g) && InBounds(g, p)
    requires forall q :: q in pts ==> InBounds(g, q)
    ensures Index(g, p) in PointIndices(g, pts) <==> p in pts
  {
    if Index(g, p) in PointIndices(g, pts) {
      var q :| q in pts && Index(g, q) == Index(g, p);
      IndexInjective(g, p, q);
    }
  }

  /** Cells p and q are linked in G exactly when both are points of pts that see each other and one is in ps. */
  ghost predicate LinksAsSeen(g: Grid, G: Graph, rects: seq<Rect>, ps: seq<Pos>, pts: seq<Pos>)
    requires Valid(g)
  {
    forall p, q :: InBounds(g, p) && InBounds(g, q) ==>
      (HasEdge(G, Index(g, p), Index(g, q)) <==> p in pts && q in pts && IsConnect(rects, p, q) && (p in ps || q in ps))
  }

  /** Every edge between two cells weighs their grid distance. */
  ghost predicate WeighsDistance(g: Grid, G: Graph)
    requires Valid(g)
  {
    forall p, q :: InBounds(g, p) && InBounds(g, q) && HasEdge(G, Index(g, p), Index(g, q)) ==>
      G[Index(g, p)][Index(g, q)] == GridDis(p, q)
  }

  /** A graph of cells weighted by grid distance has positive links between distinct cells. */
  lemma DistanceWeightsPositive(g: Grid, G: Graph)
    requires Valid(g) && WellKeyed(G, CellCount(g)) && WeighsDistance(g, G)
    ensures PositiveLinks(G) && NonNegative(G)
  {
    forall a, b | HasEdge(G, a, b)
      ensures G[a][b] >= 0.0 && (a != b ==> G[a][b] > 0.0)
    {
      var p, q := Position(g, a), Position(g, b);
      IndexPositionRoundTrip(g, a);
      IndexPositionRoundTrip(g, b);
      GridDisZeroIffSame(p, q);
    }
  }

  /**
   After linking the points ps of pts, two cells are linked exactly when
   both are points that see each other and one of them is in ps.
   */
  lemma {:induction false} LinkAllEdges(g: Grid, rects: seq<Rect>, ps: seq<Pos>, pts: seq<Pos>)
    requires Valid(g)
    requires forall q :: q in pts ==> InBounds(g, q)
    requires forall q :: q in ps ==> q in pts
    ensures LinksAsSeen(g, LinkAll(g, rects, ps, pts), rects, ps, pts)
    decreases |ps|
  {
    if |ps| > 0 {
      var init, p0 := ps[..|ps| - 1], ps[|ps| - 1];
      assert forall q :: q in init ==> q in ps;
      assert ps == init + [p0];
      LinkAllEdges(g, rects, init, pts);
      var m := LinkAll(g, rects, init, pts);
      LinkVisibleEdges(g, m, rects, p0, pts);
      LinkVisibleSeen(g, m, LinkVisible(g, m, rects, p0, pts), rects, init, p0, pts);
    } else {
      assert forall p :: p !in ps;
    }
  }

  /**
   Linking p0 to the points it sees (r is m so linked) adds exactly the edges
   of the pairs p0 takes part in.
   */
  lemma LinkVisibleSeen(g: Grid, m: Graph, r: Graph, rects: seq<Rect>, init: seq<Pos>, p0: Pos, pts: seq<Pos>)
    requires Valid(g) && p0 in pts
    requires forall q :: q in pts ==> InBounds(g, q)
    requires LinksAsSeen(g, m, rects, init, pts)
    requires var a0, V := Index(g, p0), VisibleIndices(g, rects, p0, pts);
      forall x, y :: HasEdge(r, x, y) <==> HasEdge(m, x, y) || (x == a0 && y in V) || (y == a0 && x in V)
    ensures LinksAsSeen(g, r, rects, init + [p0], pts)
  {
    forall p, q | InBounds(g, p) && InBounds(g, q)
      ensures HasEdge(r, Index(g, p), Index(g, q)) <==>
        p in pts && q in pts && IsConnect(rects, p, q) && (p in init + [p0] || q in init + [p0])
    {
      LinkVisibleSeenPair(g, m, r, rects, init, p0, pts, p, q);
    }
  }

  lemma LinkVisibleSeenPair(g: Grid, m: Graph, r: Graph, rects: seq<Rect>, init: seq<Pos>, p0: Pos, pts: seq<Pos>,
                            p: Pos, q: Pos)
    requires Valid(g) && InBounds(g, p) && InBounds(g, q) && p0 in pts
    requires forall x :: x in pts ==> InBounds(g, x)
    requires HasEdge(m, Index(g, p), Index(g, q)) <==>
      p in pts && q in pts && IsConnect(rects, p, q) && (p in init || q in init)
    requires var a0, V := Index(g, p0), VisibleIndices(g, rects, p0, pts);
      HasEdge(r, Index(g, p), Index(g, q)) <==>
        HasEdge(m, Index(g, p), Index(g, q)) || (Index(g, p) == a0 && Index(g, q) in V) || (Index(g, q) == a0 && Index(g, p) in V)
    ensures HasEdge(r, Index(g, p), Index(g, q)) <==>
      p in pts && q in pts && IsConnect(rects, p, q) && (p in init + [p0] || q in init + [p0])
  {
    assert p in init + [p0] <==> p in init || p == p0;
    assert q in init + [p0] <==> q in init || q == p0;
    VisibleIndexIff(g, rects, p0, pts, p);
    VisibleIndexIff(g, rects, p0, pts, q);
    IsConnectSymmetric(rects, p, q);
    SameIndexSamePos(g, p, p0);
    SameIndexSamePos(g, q, p0);
  }


  lemma SameIndexSamePos(g: Grid, p: Pos, q: Pos)
    requires Valid(g) && InBounds(g, p) && InBounds(g, q)
    ensures Index(g, p) == Index(g, q) <==> p == q
  {
    if Index(g, p) == Index(g, q) {
      IndexInjective(g, p, q);
    }
  }

  /** Linking visible points keeps every edge's weight the grid distance. */
  lemma {:induction false} LinkAllWeights(g: Grid, rects: seq<Rect>, ps: seq<Pos>, pts: seq<Pos>)
    requires Valid(g)
    requires forall q :: q in pts ==> InBounds(g, q)
    requires forall q :: q in ps ==> q in pts
    ensures WeighsDistance(g, LinkAll(g, rects, ps, pts))
    decreases |ps|
  {
    if |ps| > 0 {
      var init := ps[..|ps| - 1];
      var p0 := ps[|ps| - 1];
      assert forall q :: q in init ==> q in ps;
      LinkAllWeights(g, rects, init, pts);
      var m := LinkAll(g, rects, init, pts);
      forall p, q | InBounds(g, p) && InBounds(g, q) && HasEdge(LinkVisible(g, m, rects, p0, pts), Index(g, p), Index(g, q))
        ensures LinkVisible(g, m, rects, p0, pts)[Index(g, p)][Index(g, q)] == GridDis(p, q)
      {
        LinkAllStepWeight(g, rects, m, p0, pts, p, q);
      }
    }
  }

  lemma LinkAllStepWeight(g: Grid, rects: seq<Rect>, m: Graph, p0: Pos, pts: seq<Pos>, p: Pos, q: Pos)
    requires Valid(g) && InBounds(g, p) && InBounds(g, q) && InBounds(g, p0)
    requires forall x :: x in pts ==> InBounds(g, x)
    requires HasEdge(m, Index(g, p), Index(g, q)) ==> m[Index(g, p)][Index(g, q)] == GridDis(p, q)
    requires HasEdge(LinkVisible(g, m, rects, p0, pts), Index(g, p), Index(g, q))
    ensures LinkVisible(g, m, rects, p0, pts)[Index(g, p)][Index(g, q)] == GridDis(p, q)
  {
    LinkVisibleWeights(g, m, rects, p0, pts);
    VisibleIndexIff(g, rects, p0, pts, p);
    VisibleIndexIff(g, rects, p0, pts, q);
    PositionIndexRoundTrip(g, p);
    PositionIndexRoundTrip(g, q);
    GridDisSymmetric(p, q);
    SameIndexSamePos(g, p, p0);
    SameIndexSamePos(g, q, p0);
  }

  /**
   `createGraphByPoints`, its first loop: the keypoints that see each other
   are linked with their grid distance as weight.
   */
  function SparseGraph(g: Grid, rects: seq<Rect>, pts: seq<Pos>): Graph {
    LinkAll(g, rects, pts, pts)
  }

  /** Two keypoints are linked in the sparse graph exactly when they see each other. */
  lemma SparseGraphEdges(g: Grid, rects: seq<Rect>, pts: seq<Pos>, p: Pos, q: Pos)
    requires Valid(g) && InBounds(g, p) && InBounds(g, q)
    requires forall x :: x in pts ==> InBounds(g, x)
    ensures HasEdge(SparseGraph(g, rects, pts), Index(g, p), Index(g, q)) <==> p in pts && q in pts && IsConnect(rects, p, q)
  {
    LinkAllEdges(g, rects, pts, pts);
  }

  /**
   The sparse graph's keys are exactly the keypoints: each sees itself, so
   has a zero-weight self loop.
   */
  lemma SparseGraphKeys(g: Grid, rects: seq<Rect>, pts: seq<Pos>, p: Pos)
    requires Valid(g) && InBounds(g, p)
    requires forall x :: x in pts ==> InBounds(g, x)
    ensures Index(g, p) in SparseGraph(g, rects, pts) <==> p in pts
  {
    LinkAllIndices(g, rects, pts, pts);
    PointIndexIff(g, pts, p);
    if p in pts {
      IsConnectSelf(rects, p);
      SparseGraphEdges(g, rects, pts, p, p);
    }
  }

  /**
   The sparse graph: its keys are exactly the keypoints, two keypoints are
   linked exactly when they see each other, and an edge weighs the grid
   distance of its ends.
   */
  lemma SparseGraphShape(g: Grid, rects: seq<Rect>, pts: seq<Pos>)
    requires Valid(g)
    requires forall q :: q in pts ==> InBounds(g, q)
    ensures forall p, q :: InBounds(g, p) && InBounds(g, q) ==>
      (HasEdge(SparseGraph(g, rects, pts), Index(g, p), Index(g, q)) <==> p in pts && q in pts && IsConnect(rects, p, q))
    ensures WeighsDistance(g, SparseGraph(g, rects, pts))
    ensures forall p :: InBounds(g, p) ==> (Index(g, p) in SparseGraph(g, rects, pts) <==> p in pts)
    ensures WellKeyed(SparseGraph(g, rects, pts), CellCount(g))
  {
    forall p, q | InBounds(g, p) && InBounds(g, q)
      ensures HasEdge(SparseGraph(g, rects, pts), Index(g, p), Index(g, q)) <==> p in pts && q in pts && IsConnect(rects, p, q)
    {
      SparseGraphEdges(g, rects, pts, p, q);
    }
    forall p | InBounds(g, p)
      ensures Index(g, p) in SparseGraph(g, rects, pts) <==> p in pts
    {
      SparseGraphKeys(g, rects, pts, p);
    }
    LinkAllWeights(g, rects, pts, pts);
    SparseGraphWellKeyed(g, rects, pts);
  }

  lemma SparseGraphWellKeyed(g: Grid, rects: seq<Rect>, pts: seq<Pos>)
    requires Valid(g)
    requires forall q :: q in pts ==> InBounds(g, q)
    ensures WellKeyed(SparseGraph(g, rects, pts), CellCount(g))
  {
    var G := SparseGraph(g, rects, pts);
    LinkAllIndices(g, rects, pts, pts);
    PointIndicesInRange(g, pts);
    forall a | a in G
      ensures 0 <= a < CellCount(g) && forall b :: b in G[a] ==> 0 <= b < CellCount(g)
    {
      forall b | b in G[a]
        ensures 0 <= b < CellCount(g)
      {
        assert HasEdge(G, a, b);
      }
    }
  }

  lemma SparseGraphSymmetric(g: Grid, rects: seq<Rect>, pts: seq<Pos>)
    requires Valid(g)
    requires forall q :: q in pts ==> InBounds(g, q)
    ensures Symmetric(SparseGraph(g, rects, pts))
    ensures NonNegative(SparseGraph(g, rects, pts))
  {
    var G := SparseGraph(g, rects, pts);
    SparseGraphShape(g, rects, pts);
    forall x, y | HasEdge(G, x, y)
      ensures HasEdge(G, y, x) && G[y][x] == G[x][y] && G[x][y] >= 0.0
    {
      var p, q := Position(g, x), Position(g, y);
      IndexPositionRoundTrip(g, x);
      IndexPositionRoundTrip(g, y);
      IsConnectSymmetric(rects, p, q);
      GridDisSymmetric(p, q);
    }
  }

  //------------------------------------------------------------------ near points

  /** A visible keypoint of an ordinary cell, with its cached grid distance. */
  datatype Near = Near(point: Pos, dis: real)

  /**
   The inner loop of `createGraphByPoints`' second part: the points of pts
   that cell c sees, in order, each with its grid distance from c.
   */
  function NearList(rects: seq<Rect>, c: Pos, pts: seq<Pos>): (r: seq<Near>)
    ensures |r| <= |pts|
    ensures forall k :: 0 <= k < |r| ==>
      r[k].point in pts && IsConnect(rects, c, r[k].point) && r[k].dis == GridDis(c, r[k].point)
    ensures forall q :: q in pts && IsConnect(rects, c, q) ==> Near(q, GridDis(c, q)) in r
    decreases |pts|
  {
    if |pts| == 0 then []
    else
      var init := pts[..|pts| - 1];
      var q := pts[|pts| - 1];
      assert forall x :: x in pts <==> x in init || x == q;
      var m := NearList(rects, c, init);
      if IsConnect(rects, c, q) then m + [Near(q, GridDis(c, q))] else m
  }

  /** Of two entries of r, the earlier one's point occurs in pts before the later one's. */
  ghost predicate InPointsOrder(r: seq<Near>, pts: seq<Pos>) {
    forall a, b :: 0 <= a < b < |r| ==> PairInPointsOrder(r, pts, a, b)
  }

  ghost predicate PairInPointsOrder(r: seq<Near>, pts: seq<Pos>, a: int, b: int)
    requires 0 <= a < b < |r|
  {
    exists i, j :: 0 <= i < j < |pts| && pts[i] == r[a].point && pts[j] == r[b].point
  }

  /** The near list keeps the order of pts. */
  lemma {:induction false} NearListInOrder(rects: seq<Rect>, c: Pos, pts: seq<Pos>)
    ensures InPointsOrder(NearList(rects, c, pts), pts)
    decreases |pts|
  {
    if |pts| > 0 {
      var init := pts[..|pts| - 1];
      var q := pts[|pts| - 1];
      var m := NearList(rects, c, init);
      NearListInOrder(rects, c, init);
      NearListLast(rects, c, pts);
      OrderExtended(m, init, q, GridDis(c, q));
      assert init + [q] == pts;
    }
  }

  /** The near list of pts is that of all but the last point, with the last point appended when c sees it. */
  lemma NearListLast(rects: seq<Rect>, c: Pos, pts: seq<Pos>)
    requires |pts| > 0
    ensures var m, q := NearList(rects, c, pts[..|pts| - 1]), pts[|pts| - 1];
      NearList(rects, c, pts) == m || NearList(rects, c, pts) == m + [Near(q, GridDis(c, q))]
  {
  }

  /** Extending pts at the end keeps an ordered list ordered, also when the new point is appended to it. */
  lemma OrderExtended(m: seq<Near>, init: seq<Pos>, q: Pos, d: real)
    requires InPointsOrder(m, init)
    requires forall k :: 0 <= k < |m| ==> m[k].point in init
    ensures InPointsOrder(m, init + [q]) && InPointsOrder(m + [Near(q, d)], init + [q])
  {
    var pts := init + [q];
    var r := m + [Near(q, d)];
    forall a, b | 0 <= a < b < |r|
      ensures PairInPointsOrder(r, pts, a, b)
    {
      if b < |m| {
        assert r[a] == m[a] && r[b] == m[b];
        assert PairInPointsOrder(m, init, a, b);
        var i, j :| 0 <= i < j < |init| && init[i] == m[a].point && init[j] == m[b].point;
        assert pts[i] == init[i] && pts[j] == init[j];
      } else {
        assert r[a] == m[a] && r[b].point == q;
        var i :| 0 <= i < |init| && init[i] == m[a].point;
        assert pts[i] == init[i] && pts[|pts| - 1] == q;
      }
    }
    assert InPointsOrder(r, pts);
    forall a, b | 0 <= a < b < |m|
      ensures PairInPointsOrder(m, pts, a, b)
    {
      assert PairInPointsOrder(m, init, a, b);
      var i, j :| 0 <= i < j < |init| && init[i] == m[a].point && init[j] == m[b].point;
      assert pts[i] == init[i] && pts[j] == init[j];
    }
    assert InPointsOrder(m, pts);
  }

  /**
   The second part of `createGraphByPoints`: every walkable cell that is not
   a key of the graph records the keypoints it sees.
   */
  function NearMap(g: Grid, G: Graph, rects: seq<Rect>, pts: seq<Pos>): (nm: map<int, seq<Near>>)
    requires Valid(g)
    ensures forall i :: i in nm <==> 0 <= i < CellCount(g) && Walkable(g, Position(g, i)) && i !in G
  {
    map i | 0 <= i < CellCount(g) && Walkable(g, Position(g, i)) && i !in G ::
      NearList(rects, Position(g, i), pts)
  }

  //------------------------------------------------------------------ the transient target

  /**
   `addGraphElement`: no position, or a keypoint (whose links exist already),
   leaves the graph alone; any other position is linked to the keypoints it sees.
   */
  function AddGraphElement(g: Grid, G: Graph, keys: set<int>, pts: seq<Pos>, rects: seq<Rect>,
                           p: Option<Pos>): (r: Graph)
    requires Valid(g)
    requires p.Some? ==> InBounds(g, p.value)
    requires forall q :: q in pts ==> InBounds(g, q)
    ensures p.None? || Index(g, p.value) in keys ==> r == G
  {
    if p.None? || Index(g, p.value) in keys then G
    else LinkVisible(g, G, rects, p.value, pts)
  }

  /**
   What adding a non-keypoint p does: p is linked, both ways, to exactly the
   points it sees, with their grid distance, and nothing else changes.
   */
  lemma AddGraphElementSpec(g: Grid, G: Graph, keys: set<int>, pts: seq<Pos>, rects: seq<Rect>, p: Pos, q: Pos)
    requires Valid(g) && InBounds(g, p) && InBounds(g, q) && Index(g, p) !in keys
    requires forall x :: x in pts ==> InBounds(g, x)
    requires p != q
    ensures var r, a, b := AddGraphElement(g, G, keys, pts, rects, Some(p)), Index(g, p), Index(g, q);
      && (HasEdge(r, a, b) <==> HasEdge(G, a, b) || (q in pts && IsConnect(rects, p, q)))
      && (HasEdge(r, b, a) <==> HasEdge(G, b, a) || (q in pts && IsConnect(rects, p, q)))
      && (q in pts && IsConnect(rects, p, q) ==> r[a][b] == GridDis(p, q) && r[b][a] == GridDis(p, q))
    ensures var r, a := AddGraphElement(g, G, keys, pts, rects, Some(p)), Index(g, p);
      forall x, y :: x != a && y != a ==> (HasEdge(r, x, y) <==> HasEdge(G, x, y))
    ensures var r, a := AddGraphElement(g, G, keys, pts, rects, Some(p)), Index(g, p);
      forall x, y :: x != a && y != a && HasEdge(r, x, y) ==> r[x][y] == G[x][y]
  {
    var a, b := Index(g, p), Index(g, q);
    var V := VisibleIndices(g, rects, p, pts);
    LinkVisibleSpec(g, G, rects, p, pts);
    VisibleIndexIff(g, rects, p, pts, q);
    SameIndexSamePos(g, p, q);
    PositionIndexRoundTrip(g, q);
    GridDisSymmetric(p, q);
  }

  /**
   `delGraphElement`: no position, or a keypoint, leaves the graph alone;
   otherwise the position's key and every entry naming it are removed and
   nothing else changes.
   */
  function DelGraphElement(g: Grid, G: Graph, keys: set<int>, p: Option<Pos>): (r: Graph)
    ensures p.None? || Index(g, p.value) in keys ==> r == G
    ensures p.Some? && Index(g, p.value) !in keys ==>
      var d := Index(g, p.value);
      && d !in r
      && (forall a :: a in r ==> d !in r[a])
      && (forall a :: a != d ==> (a in r <==> a in G))
      && (forall a, b :: a != d && b != d ==> (HasEdge(r, a, b) <==> HasEdge(G, a, b)))
      && (forall a, b :: HasEdge(r, a, b) ==> r[a][b] == G[a][b])
  {
    if p.None? || Index(g, p.value) in keys then G
    else
      var d := Index(g, p.value);
      map a | a in G && a != d :: G[a] - {d}
  }

  /** The graph holds no key and no entry for index d. */
  ghost predicate Untouched(G: Graph, d: int) {
    d !in G && forall a :: a in G ==> d !in G[a]
  }

  /** Away from the added non-keypoint p, adding it changes no entry; the keys it adds are the points it sees. */
  lemma AddFrame(g: Grid, G: Graph, keys: set<int>, pts: seq<Pos>, rects: seq<Rect>, p: Pos, x: int, y: int)
    requires Valid(g) && InBounds(g, p) && Index(g, p) !in keys
    requires forall q :: q in pts ==> InBounds(g, q)
    requires x != Index(g, p) && y != Index(g, p)
    ensures var r := AddGraphElement(g, G, keys, pts, rects, Some(p));
      && (x in r <==> x in G || x in VisibleIndices(g, rects, p, pts))
      && (HasEdge(r, x, y) <==> HasEdge(G, x, y))
      && (HasEdge(G, x, y) ==> r[x][y] == G[x][y])
  {
    LinkVisibleSpec(g, G, rects, p, pts);
  }

  /**
   Removing the target undoes adding it: starting from a graph that does not
   mention the (non-keypoint) target and already has every keypoint it sees
   as a key, add then delete gives the graph back.
   */
  lemma DelUndoesAdd(g: Grid, G: Graph, keys: set<int>, pts: seq<Pos>, rects: seq<Rect>, p: Pos)
    requires Valid(g) && InBounds(g, p)
    requires forall q :: q in pts ==> InBounds(g, q)
    requires Index(g, p) !in keys && Untouched(G, Index(g, p))
    requires VisibleIndices(g, rects, p, pts) <= G.Keys
    ensures DelGraphElement(g, AddGraphElement(g, G, keys, pts, rects, Some(p)), keys, Some(p)) == G
  {
    var d := Index(g, p);
    var A := AddGraphElement(g, G, keys, pts, rects, Some(p));
    var R := DelGraphElement(g, A, keys, Some(p));
    forall a
      ensures a in R <==> a in G
    {
      if a != d {
        AddFrame(g, G, keys, pts, rects, p, a, a);
      }
    }
    assert R.Keys == G.Keys;
    forall a | a in G
      ensures R[a] == G[a]
    {
      forall b
        ensures b in R[a] <==> b in G[a]
      {
        if b != d {
          AddFrame(g, G, keys, pts, rects, p, a, b);
          assert HasEdge(R, a, b) <==> HasEdge(A, a, b);
        }
      }
      forall b | b in G[a]
        ensures R[a][b] == G[a][b]
      {
        AddFrame(g, G, keys, pts, rects, p, a, b);
      }
      assert R[a].Keys == G[a].Keys;
    }
  }

  lemma OverlaidSymmetric(g: Grid, G: Graph, p0: Pos, V: set<int>, x: int, y: int)
    requires Valid(g) && forall v :: v in V ==> v >= 0
    requires HasEdge(G, x, y) <==> HasEdge(G, y, x)
    requires HasEdge(G, x, y) ==> G[y][x] == G[x][y]
    ensures Overlaid(g, G, p0, V, x, y) == Overlaid(g, G, p0, V, y, x)
  {
  }

  lemma OverlaidNonNegative(g: Grid, G: Graph, p0: Pos, V: set<int>, x: int, y: int)
    requires Valid(g) && forall v :: v in V ==> v >= 0
    requires HasEdge(G, x, y) ==> G[x][y] >= 0.0
    ensures Overlaid(g, G, p0, V, x, y) >= 0.0
  {
  }

  /** Adding the target keeps the graph symmetric, non-negative and well keyed. */
  lemma AddKeepsShape(g: Grid, G: Graph, keys: set<int>, pts: seq<Pos>, rects: seq<Rect>, p: Option<Pos>)
    requires Valid(g)
    requires p.Some? ==> InBounds(g, p.value)
    requires forall q :: q in pts ==> InBounds(g, q)
    requires Symmetric(G) && NonNegative(G) && WellKeyed(G, CellCount(g))
    ensures var r := AddGraphElement(g, G, keys, pts, rects, p);
      Symmetric(r) && NonNegative(r) && WellKeyed(r, CellCount(g))
  {
    if p.Some? && Index(g, p.value) !in keys {
      AddKeepsSymmetric(g, G, rects, p.value, pts);
      AddKeepsWellKeyed(g, G, rects, p.value, pts);
    }
  }

  lemma AddKeepsSymmetric(g: Grid, G: Graph, rects: seq<Rect>, p0: Pos, pts: seq<Pos>)
    requires Valid(g) && InBounds(g, p0)
    requires forall q :: q in pts ==> InBounds(g, q)
    requires Symmetric(G) && NonNegative(G)
    ensures Symmetric(LinkVisible(g, G, rects, p0, pts)) && NonNegative(LinkVisible(g, G, rects, p0, pts))
  {
    var r := LinkVisible(g, G, rects, p0, pts);
    var V := VisibleIndices(g, rects, p0, pts);
    LinkVisibleSpec(g, G, rects, p0, pts);
    forall x, y | HasEdge(r, x, y)
      ensures HasEdge(r, y, x) && r[y][x] == r[x][y] && r[x][y] >= 0.0
    {
      assert HasEdge(G, x, y) <==> HasEdge(G, y, x);
      OverlaidSymmetric(g, G, p0, V, x, y);
      OverlaidNonNegative(g, G, p0, V, x, y);
    }
  }

  lemma AddKeepsWellKeyed(g: Grid, G: Graph, rects: seq<Rect>, p0: Pos, pts: seq<Pos>)
    requires Valid(g) && InBounds(g, p0)
    requires forall q :: q in pts ==> InBounds(g, q)
    requires WellKeyed(G, CellCount(g))
    ensures WellKeyed(LinkVisible(g, G, rects, p0, pts), CellCount(g))
  {
    var r := LinkVisible(g, G, rects, p0, pts);
    forall x | x in r
      ensures 0 <= x < CellCount(g) && forall y :: y in r[x] ==> 0 <= y < CellCount(g)
    {
      LinkVisibleIndexRange(g, G, rects, p0, pts, x, x);
      forall y | y in r[x]
        ensures 0 <= y < CellCount(g)
      {
        LinkVisibleIndexRange(g, G, rects, p0, pts, x, y);
      }
    }
  }

  lemma LinkVisibleIndexRange(g: Grid, G: Graph, rects: seq<Rect>, p0: Pos, pts: seq<Pos>, x: int, y: int)
    requires Valid(g) && InBounds(g, p0)
    requires forall q :: q in pts ==> InBounds(g, q)
    requires WellKeyed(G, CellCount(g))
    ensures x in LinkVisible(g, G, rects, p0, pts) ==> 0 <= x < CellCount(g)
    ensures HasEdge(LinkVisible(g, G, rects, p0, pts), x, y) ==> 0 <= y < CellCount(g)
  {
    var a0, V := Index(g, p0), VisibleIndices(g, rects, p0, pts);
    assert 0 <= a0 < CellCount(g);
    LinkVisibleKeys(g, G, rects, p0, pts);
    LinkVisibleEdges(g, G, rects, p0, pts);
    VisibleIndicesInRange(g, rects, p0, pts);
    if HasEdge(G, x, y) {
      assert y in G[x];
    }
  }

  /** Deleting the target keeps the graph symmetric, non-negative and well keyed. */
  lemma DelKeepsShape(g: Grid, G: Graph, keys: set<int>, p: Option<Pos>, n: int)
    requires Symmetric(G) && NonNegative(G) && WellKeyed(G, n)
    ensures var r := DelGraphElement(g, G, keys, p);
      Symmetric(r) && NonNegative(r) && WellKeyed(r, n)
  {
  }

  //------------------------------------------------------------------ weights and walkable ends

  /** Adding a target keeps every weight the grid distance between the linked cells. */
  lemma AddKeepsWeighsDistance(g: Grid, G: Graph, keys: set<int>, pts: seq<Pos>, rects: seq<Rect>, p: Option<Pos>)
    requires Valid(g)
    requires p.Some? ==> InBounds(g, p.value)
    requires forall q :: q in pts ==> InBounds(g, q)
    requires WeighsDistance(g, G)
    ensures WeighsDistance(g, AddGraphElement(g, G, keys, pts, rects, p))
  {
    if p.Some? && Index(g, p.value) !in keys {
      var p0 := p.value;
      var r := LinkVisible(g, G, rects, p0, pts);
      var V := VisibleIndices(g, rects, p0, pts);
      LinkVisibleSpec(g, G, rects, p0, pts);
      forall a, b | InBounds(g, a) && InBounds(g, b) && HasEdge(r, Index(g, a), Index(g, b))
        ensures r[Index(g, a)][Index(g, b)] == GridDis(a, b)
      {
        OverlaidWeighsDistance(g, G, p0, V, a, b);
      }
    }
  }

  lemma OverlaidWeighsDistance(g: Grid, G: Graph, p0: Pos, V: set<int>, a: Pos, b: Pos)
    requires Valid(g) && InBounds(g, p0) && InBounds(g, a) && InBounds(g, b)
    requires forall v :: v in V ==> v >= 0
    requires WeighsDistance(g, G)
    requires var x, y, a0 := Index(g, a), Index(g, b), Index(g, p0);
      HasEdge(G, x, y) || (x == a0 && y in V) || (y == a0 && x in V)
    ensures Overlaid(g, G, p0, V, Index(g, a), Index(g, b)) == GridDis(a, b)
  {
    PositionIndexRoundTrip(g, a);
    PositionIndexRoundTrip(g, b);
    if Index(g, a) == Index(g, p0) {
      IndexInjective(g, a, p0);
    }
    if Index(g, b) == Index(g, p0) {
      IndexInjective(g, b, p0);
    }
    GridDisSymmetric(a, b);
  }

  /** Every link ends on a walkable cell of the map. */
  ghost predicate LandsWalkable(g: Grid, G: Graph)
    requires Valid(g)
  {
    forall x, y :: HasEdge(G, x, y) ==> 0 <= y < CellCount(g) && Walkable(g, Position(g, y))
  }

  lemma DenseGraphLandsWalkable(g: Grid)
    requires Valid(g)
    ensures LandsWalkable(g, DenseGraph(g))
  {
    var G := DenseGraph(g);
    forall x, y | HasEdge(G, x, y)
      ensures 0 <= y < CellCount(g) && Walkable(g, Position(g, y))
    {
      DenseGraphWellKeyed(g);
      var a, b := Position(g, x), Position(g, y);
      DenseGraphEdges(g, a, b);
    }
  }

  lemma SparseGraphLandsWalkable(g: Grid, rects: seq<Rect>, pts: seq<Pos>)
    requires Valid(g)
    requires forall q :: q in pts ==> InBounds(g, q) && Walkable(g, q)
    ensures LandsWalkable(g, SparseGraph(g, rects, pts))
  {
    var G := SparseGraph(g, rects, pts);
    LinkAllIndices(g, rects, pts, pts);
    forall x, y | HasEdge(G, x, y)
      ensures 0 <= y < CellCount(g) && Walkable(g, Position(g, y))
    {
      var q :| q in pts && Index(g, q) == y;
      PositionIndexRoundTrip(g, q);
    }
  }

  /** Adding a walkable target keeps every link ending on a walkable cell. */
  lemma AddKeepsLandsWalkable(g: Grid, G: Graph, keys: set<int>, pts: seq<Pos>, rects: seq<Rect>, p: Pos)
    requires Valid(g) && InBounds(g, p) && Walkable(g, p)
    requires forall q :: q in pts ==> InBounds(g, q) && Walkable(g, q)
    requires LandsWalkable(g, G)
    ensures LandsWalkable(g, AddGraphElement(g, G, keys, pts, rects, Some(p)))
  {
    if Index(g, p) !in keys {
      var r := LinkVisible(g, G, rects, p, pts);
      var V := VisibleIndices(g, rects, p, pts);
      LinkVisibleSpec(g, G, rects, p, pts);
      PositionIndexRoundTrip(g, p);
      forall x, y | HasEdge(r, x, y)
        ensures 0 <= y < CellCount(g) && Walkable(g, Position(g, y))
      {
        if y in V && !HasEdge(G, x, y) && y != Index(g, p) {
          var q :| q in pts && IsConnect(rects, p, q) && Index(g, q) == y;
          PositionIndexRoundTrip(g, q);
        }
      }
    }
  }

  //------------------------------------------------------------------ re-targeting the keypoint graph

  /** A cell that is not a point has no key and no entry in the keypoint graph. */
  lemma SparseGraphUntouched(g: Grid, rects: seq<Rect>, pts: seq<Pos>, p: Pos)
    requires Valid(g) && InBounds(g, p) && p !in pts
    requires forall q :: q in pts ==> InBounds(g, q)
    ensures Untouched(SparseGraph(g, rects, pts), Index(g, p))
  {
    var G, d := SparseGraph(g, rects, pts), Index(g, p);
    SparseGraphKeys(g, rects, pts, p);
    LinkAllIndices(g, rects, pts, pts);
    PointIndexIff(g, pts, p);
    forall a | a in G
      ensures d !in G[a]
    {
      assert d in G[a] ==> HasEdge(G, a, d);
    }
  }

  /** Every point a cell sees is a key of the keypoint graph. */
  lemma SparseGraphHoldsVisible(g: Grid, rects: seq<Rect>, pts: seq<Pos>, p: Pos)
    requires Valid(g)
    requires forall q :: q in pts ==> InBounds(g, q)
    ensures VisibleIndices(g, rects, p, pts) <= SparseGraph(g, rects, pts).Keys
  {
    forall v | v in VisibleIndices(g, rects, p, pts)
      ensures v in SparseGraph(g, rects, pts)
    {
      var q :| q in pts && IsConnect(rects, p, q) && Index(g, q) == v;
      SparseGraphKeys(g, rects, pts, q);
    }
  }

  /**
   Taking a target out of the keypoint graph it was added to gives back the
   keypoint graph, whether the target was a keypoint, another cell, or none.
   */
  lemma SparseDelUndoesAdd(g: Grid, rects: seq<Rect>, pts: seq<Pos>, p: Option<Pos>)
    requires Valid(g) && (p.Some? ==> InBounds(g, p.value))
    requires forall q :: q in pts ==> InBounds(g, q)
    ensures var B, keys := SparseGraph(g, rects, pts), PointIndices(g, pts);
      DelGraphElement(g, AddGraphElement(g, B, keys, pts, rects, p), keys, p) == B
  {
    var B, keys := SparseGraph(g, rects, pts), PointIndices(g, pts);
    if p.Some? && Index(g, p.value) !in keys {
      PointIndexIff(g, pts, p.value);
      SparseGraphUntouched(g, rects, pts, p.value);
      SparseGraphHoldsVisible(g, rects, pts, p.value);
      DelUndoesAdd(g, B, keys, pts, rects, p.value);
    }
  }

  /**
   The keypoint graph with the target t added holds no key and no entry for
   any other cell that is not a point, so an earlier target leaves no trace.
   */
  lemma AddLeavesOthersUntouched(g: Grid, rects: seq<Rect>, pts: seq<Pos>, t: Pos, p: Pos)
    requires Valid(g) && InBounds(g, t) && InBounds(g, p) && p !in pts && p != t
    requires forall q :: q in pts ==> InBounds(g, q)
    ensures var B := SparseGraph(g, rects, pts);
      Untouched(AddGraphElement(g, B, PointIndices(g, pts), pts, rects, Some(t)), Index(g, p))
  {
    var B, keys, d := SparseGraph(g, rects, pts), PointIndices(g, pts), Index(g, p);
    SparseGraphUntouched(g, rects, pts, p);
    if Index(g, t) !in keys {
      var r := LinkVisible(g, B, rects, t, pts);
      LinkVisibleSpec(g, B, rects, t, pts);
      VisibleIndexIff(g, rects, t, pts, p);
      SameIndexSamePos(g, p, t);
      forall a | a in r
        ensures d !in r[a]
      {
        assert d in r[a] ==> HasEdge(r, a, d);
      }
    }
  }
}
