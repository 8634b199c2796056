/**
 The pathfinder object (class `Dijkstra`): the graph it builds once, in the
 plain mode from every walkable cell and in the optimised mode from the
 keypoints, and `update`, which re-targets it. An update takes the last
 target out of the optimised graph, puts the new one in, propagates costs
 from it, fixes up the cells outside the graph (optimised mode only) and
 builds the vector map.
 */
module PathFinder {
  import opened GridMap
  import opened Geometry
  import opened Segments
  import opened Visibility
  import opened Keypoints
  import opened Graphs
  import opened HeatMap
  import opened FlowField

  /** The fields of a pathfinder between updates. */
  datatype Finder = Finder(g: Grid, optimise: bool, graph: Graph, points: seq<Pos>,
                           segments: seq<Segment>, near: map<int, seq<Near>>, target: Option<Pos>)

  /** What an update leaves in the cells: the cost, the direct-sight flag `isConnectTarget`, and the next step `prev`. */
  datatype Field = Field(cost: seq<real>, connect: seq<bool>, prev: seq<Option<int>>)

  function Rects(f: Finder): seq<Rect> {
    SegmentsToRects(f.segments)
  }

  /** The cells flagged `isKeyPoint`. */
  function Keys(f: Finder): set<int> {
    PointIndices(f.g, f.points)
  }

  /** The graph as built, before any target joins it. */
  function BaseGraph(f: Finder): Graph
    requires Valid(f.g)
  {
    if f.optimise then SparseGraph(f.g, Rects(f), f.points) else DenseGraph(f.g)
  }

  /**
   The state every pathfinder is in: the plain mode holds the dense graph
   and nothing else; the optimised mode holds the keypoints, the segments,
   the near lists of the built graph, and the built graph with the last
   target (if any) added.
   */
  ghost predicate Ready(f: Finder) {
    Valid(f.g) &&
    (f.target.Some? ==> InBounds(f.g, f.target.value) && Walkable(f.g, f.target.value)) &&
    if f.optimise then
      Scannable(f.g) && f.points == GenerateKeypoints(f.g) && f.segments == GenerateSegments(f.g) &&
      f.near == NearMap(f.g, BaseGraph(f), Rects(f), f.points) &&
      f.graph == AddGraphElement(f.g, BaseGraph(f), Keys(f), f.points, Rects(f), f.target)
    else
      f.points == [] && f.segments == [] && f.near == map[] && f.graph == DenseGraph(f.g)
  }

  /** Keypoints are walkable cells of the map. */
  lemma KeypointsWalkable(g: Grid)
    requires Scannable(g)
    ensures forall q :: q in GenerateKeypoints(g) ==> InBounds(g, q) && Walkable(g, q)
  {
    forall q | q in GenerateKeypoints(g)
      ensures InBounds(g, q) && Walkable(g, q)
    {
      PositionIndexRoundTrip(g, q);
    }
  }

  /**
   The constructor with `generateGraph`: a ready pathfinder with no target,
   whose graph is symmetric, weighted by grid distance and keyed by cells.
   */
  function Create(g: Grid, optimise: bool): (f: Finder)
    requires Valid(g) && (optimise ==> Scannable(g))
    ensures Ready(f) && f.g == g && f.optimise == optimise && f.target.None?
    ensures f.graph == BaseGraph(f)
    ensures Symmetric(f.graph) && WeighsDistance(g, f.graph) && WellKeyed(f.graph, CellCount(g))
  {
    var f :=
      if optimise then
        KeypointsWalkable(g);
        var pts := GenerateKeypoints(g);
        var segs := GenerateSegments(g);
        var G := SparseGraph(g, SegmentsToRects(segs), pts);
        Finder(g, true, G, pts, segs, NearMap(g, G, SegmentsToRects(segs), pts), None)
      else Finder(g, false, DenseGraph(g), [], [], map[], None);
    ReadyShape(f);
    f
  }

  /** The properties of a graph that the propagation and the vector map rely on. */
  ghost predicate GraphOk(g: Grid, G: Graph)
    requires Valid(g)
  {
    WellKeyed(G, CellCount(g)) && Symmetric(G) && NonNegative(G) && PositiveLinks(G) && LandsWalkable(g, G)
  }

  /** The graph of a ready pathfinder is weighted by grid distance and has every property GraphOk names. */
  lemma ReadyShape(f: Finder)
    requires Ready(f)
    ensures GraphOk(f.g, f.graph) && WeighsDistance(f.g, f.graph)
  {
    var g := f.g;
    if f.optimise {
      KeypointsWalkable(g);
      var B := BaseGraph(f);
      SparseGraphShape(g, Rects(f), f.points);
      SparseGraphSymmetric(g, Rects(f), f.points);
      SparseGraphLandsWalkable(g, Rects(f), f.points);
      AddKeepsShape(g, B, Keys(f), f.points, Rects(f), f.target);
      AddKeepsWeighsDistance(g, B, Keys(f), f.points, Rects(f), f.target);
      if f.target.Some? {
        AddKeepsLandsWalkable(g, B, Keys(f), f.points, Rects(f), f.target.value);
      }
    } else {
      DenseGraphWellKeyed(g);
      DenseGraphSymmetric(g);
      DenseGraphWeighsDistance(g);
      DenseGraphLandsWalkable(g);
    }
    DistanceWeightsPositive(g, f.graph);
  }

  /** The near lists of a ready pathfinder name cells of the map. */
  lemma NearsInBounds(f: Finder)
    requires Ready(f)
    ensures NearMapOk(f.g, f.near)
  {
    if f.optimise {
      KeypointsWalkable(f.g);
    }
  }

  //------------------------------------------------------------------ update

  /**
   `update`: re-target the pathfinder to the walkable cell t. The graph
   afterwards is the built graph with t added, whatever the last target was,
   and the field is what Refresh promises for that graph.
   */
  method Update(f: Finder, t: Pos) returns (f': Finder, field: Field)
    requires Ready(f) && InBounds(f.g, t) && Walkable(f.g, t)
    ensures Ready(f') && f' == f.(graph := f'.graph, target := Some(t))
    ensures f'.graph == AddGraphElement(f.g, BaseGraph(f), Keys(f), f.points, Rects(f), Some(t))
    ensures FieldShaped(CellCount(f.g), Index(f.g, t), field)
    ensures CostsAreDistances(f'.graph, CellCount(f.g), Index(f.g, t), field)
    ensures StepsGoDown(f'.graph, CellCount(f.g), Index(f.g, t), field)
    ensures StepsArrive(f'.graph, CellCount(f.g), Index(f.g, t), field)
    ensures !f.optimise ==> UnreachedUncosted(f'.graph, CellCount(f.g), Index(f.g, t), field)
    ensures f.optimise ==> NearMapOk(f.g, f.near) && SeeingCellsDirect(f.g, f'.graph, Rects(f), t, field)
    ensures f.optimise ==> NearMapOk(f.g, f.near) && OtherCellsNearest(f.g, f'.graph, Rects(f), f.near, t, field)
  {
    var G := f.graph;
    if f.optimise {
      G := DelGraphElement(f.g, G, Keys(f), f.target);
      G := AddGraphElement(f.g, G, Keys(f), f.points, Rects(f), Some(t));
    }
    Retargeted(f, t, G);
    f' := f.(graph := G, target := Some(t));
    field := Refresh(f.g, G, f.optimise, Rects(f), f.near, t);
  }

  /**
   The graph update of `update`: taking the last target out and putting t in
   gives the built graph with t added (in the plain mode adding is a no-op),
   the re-targeted pathfinder is ready, and in the optimised mode every near
   point that sees t is reached from it.
   */
  lemma Retargeted(f: Finder, t: Pos, G: Graph)
    requires Ready(f) && InBounds(f.g, t) && Walkable(f.g, t)
    requires G == if f.optimise then
        AddGraphElement(f.g, DelGraphElement(f.g, f.graph, Keys(f), f.target), Keys(f), f.points, Rects(f), Some(t))
      else f.graph
    ensures G == AddGraphElement(f.g, BaseGraph(f), Keys(f), f.points, Rects(f), Some(t))
    ensures Ready(f.(graph := G, target := Some(t)))
    ensures GraphOk(f.g, G) && NearMapOk(f.g, f.near)
    ensures f.optimise ==> NearPointsLinked(f.g, G, Rects(f), f.near, t)
  {
    var g := f.g;
    NearsInBounds(f);
    if f.optimise {
      KeypointsWalkable(g);
      SparseDelUndoesAdd(g, Rects(f), f.points, f.target);
      OptimisedNearLinked(g, Rects(f), f.points, t);
    }
    ReadyShape(f.(graph := G, target := Some(t)));
  }

  /**
   Re-targeting a ready pathfinder to the target it already has computes
   the graph it already holds, so the propagation runs on the same graph.
   */
  lemma RetargetSameGraph(f: Finder, t: Pos)
    requires Ready(f) && f.target == Some(t)
    ensures f.optimise ==>
      AddGraphElement(f.g, DelGraphElement(f.g, f.graph, Keys(f), f.target), Keys(f), f.points, Rects(f), Some(t)) == f.graph
  {
    if f.optimise {
      KeypointsWalkable(f.g);
      SparseDelUndoesAdd(f.g, Rects(f), f.points, f.target);
    }
  }

  /**
   In the optimised mode, a cell that was a target before and is neither a
   keypoint nor the current target has no key and no entry in the graph.
   */
  lemma EarlierTargetForgotten(f: Finder, t0: Pos)
    requires Ready(f) && f.optimise && f.target.Some?
    requires InBounds(f.g, t0) && t0 !in f.points && t0 != f.target.value
    ensures Untouched(f.graph, Index(f.g, t0))
  {
    KeypointsWalkable(f.g);
    AddLeavesOthersUntouched(f.g, Rects(f), f.points, f.target.value, t0);
  }

  /**
   Every near point is a keypoint, so it has no near list of its own, and a
   near point that sees the target is reached from it: the target is linked
   to every keypoint it sees. A cell with a near list is not in the graph
   unless it is the target.
   */
  ghost predicate NearPointsLinked(g: Grid, G: Graph, rects: seq<Rect>, near: map<int, seq<Near>>, t: Pos)
    requires Valid(g) && NearMapOk(g, near)
  {
    (forall i :: i in near && i != Index(g, t) ==> i !in G) &&
    forall i, k :: i in near && 0 <= k < |near[i]| ==>
      Index(g, near[i][k].point) !in near &&
      (IsConnect(rects, near[i][k].point, t) ==> Reachable(G, Index(g, t), Index(g, near[i][k].point)))
  }

  /** The near map of the keypoint graph, with t added to it, has its near points linked. */
  lemma OptimisedNearLinked(g: Grid, rects: seq<Rect>, pts: seq<Pos>, t: Pos)
    requires Valid(g) && InBounds(g, t)
    requires forall q :: q in pts ==> InBounds(g, q)
    ensures var B := SparseGraph(g, rects, pts);
      NearMapOk(g, NearMap(g, B, rects, pts)) &&
      NearPointsLinked(g, AddGraphElement(g, B, PointIndices(g, pts), pts, rects, Some(t)), rects, NearMap(g, B, rects, pts), t)
  {
    var B := SparseGraph(g, rects, pts);
    var near: map<int, seq<Near>> := NearMap(g, B, rects, pts);
    var G := AddGraphElement(g, B, PointIndices(g, pts), pts, rects, Some(t));
    forall i | i in near && i != Index(g, t)
      ensures i !in G
    {
      AddedKeys(g, rects, pts, t, i);
    }
    forall i: int, k: int | i in near && 0 <= k < |near[i]|
      ensures Index(g, near[i][k].point) !in near
      ensures IsConnect(rects, near[i][k].point, t) ==> Reachable(G, Index(g, t), Index(g, near[i][k].point))
    {
      var p := near[i][k].point;
      SparseGraphKeys(g, rects, pts, p);
      if IsConnect(rects, p, t) {
        SeenPointReached(g, rects, pts, t, p);
      }
    }
  }

  /** Adding t to the keypoint graph adds no key other than t's own. */
  lemma AddedKeys(g: Grid, rects: seq<Rect>, pts: seq<Pos>, t: Pos, x: int)
    requires Valid(g) && InBounds(g, t)
    requires forall q :: q in pts ==> InBounds(g, q)
    requires x !in SparseGraph(g, rects, pts) && x != Index(g, t)
    ensures x !in AddGraphElement(g, SparseGraph(g, rects, pts), PointIndices(g, pts), pts, rects, Some(t))
  {
    var B, keys := SparseGraph(g, rects, pts), PointIndices(g, pts);
    if Index(g, t) !in keys {
      LinkVisibleKeys(g, B, rects, t, pts);
      if x in VisibleIndices(g, rects, t, pts) {
        var q :| q in pts && IsConnect(rects, t, q) && Index(g, q) == x;
        SparseGraphKeys(g, rects, pts, q);
      }
    }
  }

  /** A keypoint that sees the target is linked to it in the keypoint graph with the target added. */
  lemma SeenPointReached(g: Grid, rects: seq<Rect>, pts: seq<Pos>, t: Pos, p: Pos)
    requires Valid(g) && InBounds(g, t)
    requires forall q :: q in pts ==> InBounds(g, q)
    requires p in pts && IsConnect(rects, p, t)
    ensures var G := AddGraphElement(g, SparseGraph(g, rects, pts), PointIndices(g, pts), pts, rects, Some(t));
      Reachable(G, Index(g, t), Index(g, p))
  {
    var B, keys := SparseGraph(g, rects, pts), PointIndices(g, pts);
    var G := AddGraphElement(g, B, keys, pts, rects, Some(t));
    var ti, x := Index(g, t), Index(g, p);
    IsConnectSymmetric(rects, p, t);
    if t == p {
      assert IsWalkFrom(G, [ti], ti, x);
    } else {
      if ti in keys {
        PointIndexIff(g, pts, t);
        SparseGraphEdges(g, rects, pts, t, p);
      } else {
        AddGraphElementSpec(g, B, keys, pts, rects, t, p);
      }
      assert IsWalkFrom(G, [ti, x], ti, x);
    }
  }

  //------------------------------------------------------------------ what an update leaves in the cells

  /** The field covers the map, the target costs 0 and steps nowhere, and every step names a cell. */
  ghost predicate FieldShaped(n: int, ti: int, field: Field) {
    && |field.cost| == |field.connect| == |field.prev| == n
    && 0 <= ti < n && field.cost[ti] == 0.0 && field.prev[ti].None?
    && StepsInRange(field.prev)
  }

  /** Every cell the propagation reaches costs its shortest distance from the target. */
  ghost predicate CostsAreDistances(G: Graph, n: int, ti: int, field: Field) {
    |field.cost| == n &&
    forall i :: 0 <= i < n && Reachable(G, ti, i) ==> IsDistance(G, ti, i, field.cost[i])
  }

  /** Every reached cell other than the target steps along a link to a strictly cheaper cell. */
  ghost predicate StepsGoDown(G: Graph, n: int, ti: int, field: Field) {
    |field.cost| == |field.prev| == n &&
    forall i :: 0 <= i < n && i != ti && Reachable(G, ti, i) ==>
      field.prev[i].Some? && 0 <= field.prev[i].value < n &&
      HasEdge(G, i, field.prev[i].value) && field.cost[field.prev[i].value] < field.cost[i]
  }

  /** Following the steps from any reached cell arrives at the target within as many steps as there are cells. */
  ghost predicate StepsArrive(G: Graph, n: nat, ti: int, field: Field) {
    |field.prev| == n && StepsInRange(field.prev) &&
    forall i :: 0 <= i < n && Reachable(G, ti, i) ==> Follow(field.prev, i, n) == ti
  }

  /** In the plain mode, a cell the propagation does not reach keeps the cost -1. */
  ghost predicate UnreachedUncosted(G: Graph, n: int, ti: int, field: Field) {
    |field.cost| == n &&
    forall i :: 0 <= i < n && !Reachable(G, ti, i) ==> field.cost[i] == -1.0
  }

  /** An unreached walkable cell that sees the target costs its grid distance and steps straight to it. */
  ghost predicate SeeingCellsDirect(g: Grid, G: Graph, rects: seq<Rect>, t: Pos, field: Field)
    requires Valid(g)
  {
    |field.cost| == |field.prev| == CellCount(g) &&
    forall i ::
      (0 <= i < CellCount(g) && !Reachable(G, Index(g, t), i) && Walkable(g, Position(g, i))
       && IsConnect(rects, Position(g, i), t)) ==>
      field.cost[i] == GridDis(Position(g, i), t) && field.prev[i] == Some(Index(g, t))
  }

  /**
   Any other unreached walkable cell costs as much as going through its
   cheapest near point and, when it has near points and a cost other than
   0, steps to the first cheapest of them.
   */
  ghost predicate OtherCellsNearest(g: Grid, G: Graph, rects: seq<Rect>, near: map<int, seq<Near>>, t: Pos, field: Field)
    requires Valid(g) && NearMapOk(g, near)
  {
    |field.cost| == |field.prev| == CellCount(g) &&
    forall i ::
      (0 <= i < CellCount(g) && !Reachable(G, Index(g, t), i) && Walkable(g, Position(g, i))
       && !IsConnect(rects, Position(g, i), t)) ==>
      && field.cost[i] == NearestPoint(g, field.cost, NearOf(near, i)).cost
      && (NearOf(near, i) != [] && field.cost[i] != 0.0 ==>
            field.prev[i] == Some(Index(g, NearestPoint(g, field.cost, NearOf(near, i)).point.value)))
  }

  /**
   The part of `update` after the graph: propagate costs from t, fix up the
   cells outside the graph (optimised mode only) and build the vector map.
   */
  method Refresh(g: Grid, G: Graph, optimise: bool, rects: seq<Rect>, near: map<int, seq<Near>>, t: Pos)
    returns (field: Field)
    requires Valid(g) && InBounds(g, t) && NearMapOk(g, near) && GraphOk(g, G)
    requires optimise ==> NearPointsLinked(g, G, rects, near, t)
    ensures FieldShaped(CellCount(g), Index(g, t), field)
    ensures CostsAreDistances(G, CellCount(g), Index(g, t), field)
    ensures StepsGoDown(G, CellCount(g), Index(g, t), field)
    ensures StepsArrive(G, CellCount(g), Index(g, t), field)
    ensures !optimise ==> UnreachedUncosted(G, CellCount(g), Index(g, t), field)
    ensures optimise ==> SeeingCellsDirect(g, G, rects, t, field)
    ensures optimise ==> OtherCellsNearest(g, G, rects, near, t, field)
  {
    var n, ti := CellCount(g), Index(g, t);
    var cost0, order := GenerateHeatMap(G, n, ti);
    var connect0 := seq(n, _ => false);
    var cost, connect := cost0, connect0;
    if optimise {
      cost, connect := FixupHeatMap(g, rects, near, t, cost0, connect0);
      FixupKeepsReached(g, G, rects, near, t, cost0, connect0, cost, connect);
    }
    var prev := CreateVectorMap(g, G, near, t, cost, connect);
    field := Field(cost, connect, prev);
    ReachedCells(g, G, near, t, cost0, order, field);
    if optimise {
      LinkedSettled(g, G, rects, near, t, cost0);
      UnreachedCells(g, G, rects, near, t, cost0, connect0, field);
    } else {
      forall i | 0 <= i < n && !Reachable(G, ti, i)
        ensures cost[i] == -1.0
      {
        HeatCostSign(G, n, ti, cost0, i);
      }
    }
  }

  /** The fixup leaves the reached cells alone: their cost stays and they are not marked as seeing the target. */
  lemma FixupKeepsReached(g: Grid, G: Graph, rects: seq<Rect>, near: map<int, seq<Near>>, t: Pos,
                          cost0: seq<real>, connect0: seq<bool>, cost: seq<real>, connect: seq<bool>)
    requires Valid(g) && InBounds(g, t) && NearMapOk(g, near) && NonNegative(G)
    requires HeatSpec(G, CellCount(g), Index(g, t), cost0)
    requires |cost0| == |connect0| == |cost| == |connect| == CellCount(g)
    requires forall j :: 0 <= j < CellCount(g) ==> !connect0[j]
    requires forall j :: 0 <= j < CellCount(g) ==> FixedUp(g, rects, near, t, cost0, connect0, cost, connect, j)
    ensures forall j :: 0 <= j < CellCount(g) && Reachable(G, Index(g, t), j) ==> cost[j] == cost0[j] && !connect[j]
  {
    forall j | 0 <= j < CellCount(g) && Reachable(G, Index(g, t), j)
      ensures cost[j] == cost0[j] && !connect[j]
    {
      HeatCostSign(G, CellCount(g), Index(g, t), cost0, j);
      assert FixedUp(g, rects, near, t, cost0, connect0, cost, connect, j);
    }
  }

  /**
   The reached cells: they keep the propagated costs, which are shortest
   distances, and their steps go down to the target.
   */
  lemma ReachedCells(g: Grid, G: Graph, near: map<int, seq<Near>>, t: Pos,
                     cost0: seq<real>, order: seq<int>, field: Field)
    requires Valid(g) && InBounds(g, t) && NearMapOk(g, near) && GraphOk(g, G)
    requires var n, ti := CellCount(g), Index(g, t);
      && HeatSpec(G, n, ti, cost0)
      && (forall x :: x in order <==> 0 <= x < n && Reachable(G, ti, x))
      && (forall a :: 0 <= a < |order| ==> 0 <= order[a] < n)
      && (forall a, b :: 0 <= a < b < |order| ==> order[a] != order[b])
      && (forall a, b :: 0 <= a < b < |order| ==> cost0[order[a]] <= cost0[order[b]])
    requires |field.cost| == |field.connect| == |field.prev| == CellCount(g)
    requires forall j :: 0 <= j < CellCount(g) && Reachable(G, Index(g, t), j) ==>
      field.cost[j] == cost0[j] && !field.connect[j]
    requires forall j :: 0 <= j < CellCount(g) ==>
      VectorCellOk(g, G, near, t, field.cost, field.connect, j, field.prev[j])
    ensures FieldShaped(CellCount(g), Index(g, t), field)
    ensures CostsAreDistances(G, CellCount(g), Index(g, t), field)
    ensures StepsGoDown(G, CellCount(g), Index(g, t), field)
    ensures StepsArrive(G, CellCount(g), Index(g, t), field)
  {
    var n, ti, cost, prev := CellCount(g), Index(g, t), field.cost, field.prev;
    StepsDescend(g, G, near, t, cost0, field);
    forall j | 0 <= j < n && prev[j].Some?
      ensures 0 <= prev[j].value < n
    {
      assert VectorCellOk(g, G, near, t, cost, field.connect, j, prev[j]);
    }
    forall j | 0 <= j < n && j != ti && Reachable(G, ti, j)
      ensures cost[prev[j].value] < cost[j]
    {
      HeatTriangle(G, n, ti, cost0, j, prev[j].value);
    }
    DistinctWithin(order, n);
    forall i | 0 <= i < n && Reachable(G, ti, i)
      ensures Follow(prev, i, n) == ti
    {
      assert i in order;
      var r :| 0 <= r < |order| && order[r] == i;
      FollowReachesTarget(G, n, ti, cost0, order, prev, r, n);
    }
  }

  /**
   With the vector map's promises, every reached cell other than the target
   steps along a link to a strictly cheaper cell, and the target steps nowhere.
   */
  lemma StepsDescend(g: Grid, G: Graph, near: map<int, seq<Near>>, t: Pos, cost0: seq<real>, field: Field)
    requires Valid(g) && InBounds(g, t) && NearMapOk(g, near) && GraphOk(g, G)
    requires HeatSpec(G, CellCount(g), Index(g, t), cost0)
    requires |field.cost| == |field.connect| == |field.prev| == CellCount(g)
    requires forall j :: 0 <= j < CellCount(g) && Reachable(G, Index(g, t), j) ==>
      field.cost[j] == cost0[j] && !field.connect[j]
    requires forall j :: 0 <= j < CellCount(g) ==>
      VectorCellOk(g, G, near, t, field.cost, field.connect, j, field.prev[j])
    ensures DescendsToTarget(G, Index(g, t), cost0, field.prev)
    ensures field.cost[Index(g, t)] == 0.0
  {
    var n, ti, cost, prev := CellCount(g), Index(g, t), field.cost, field.prev;
    assert IsWalkFrom(G, [ti], ti, ti);
    HeatTargetZero(G, n, ti, cost0);
    assert VectorCellOk(g, G, near, t, cost, field.connect, ti, prev[ti]);
    forall j | 0 <= j < n && j != ti && Reachable(G, ti, j)
      ensures prev[j].Some? && 0 <= prev[j].value < n && HasEdge(G, j, prev[j].value) &&
        cost0[prev[j].value] < cost0[j]
    {
      var u := HeatStrictPredecessor(G, n, ti, cost0, j);
      assert HasEdge(G, j, u) && G[j][u] == G[u][j];
      assert HasDescent(G, cost, j);
      HeatPositive(G, n, ti, cost0, j);
      assert VectorCellOk(g, G, near, t, cost, field.connect, j, prev[j]);
      var v := prev[j].value;
      HeatTriangle(G, n, ti, cost0, j, v);
    }
  }

  /**
   In the optimised mode every near point is settled before the fixup: it
   has no near list of its own, and it is reached whenever it sees the target.
   */
  lemma LinkedSettled(g: Grid, G: Graph, rects: seq<Rect>, near: map<int, seq<Near>>, t: Pos, cost0: seq<real>)
    requires Valid(g) && InBounds(g, t) && NearMapOk(g, near) && NonNegative(G)
    requires NearPointsLinked(g, G, rects, near, t)
    requires HeatSpec(G, CellCount(g), Index(g, t), cost0)
    ensures NearSettled(g, rects, near, t, cost0)
  {
    forall i, k | i in near && 0 <= k < |near[i]|
      ensures Settled(g, rects, near, t, cost0, Index(g, near[i][k].point))
    {
      var p := near[i][k].point;
      PositionIndexRoundTrip(g, p);
      HeatCostSign(G, CellCount(g), Index(g, t), cost0, Index(g, p));
    }
  }

  /** The unreached walkable cells after the fixup and the vector map, in the optimised mode. */
  lemma UnreachedCells(g: Grid, G: Graph, rects: seq<Rect>, near: map<int, seq<Near>>, t: Pos,
                       cost0: seq<real>, connect0: seq<bool>, field: Field)
    requires Valid(g) && InBounds(g, t) && NearMapOk(g, near) && NonNegative(G)
    requires HeatSpec(G, CellCount(g), Index(g, t), cost0)
    requires |cost0| == |connect0| == |field.cost| == |field.connect| == |field.prev| == CellCount(g)
    requires forall j :: 0 <= j < CellCount(g) ==>
      FixedUp(g, rects, near, t, cost0, connect0, field.cost, field.connect, j)
    requires NearSettled(g, rects, near, t, cost0) && NearPointsLinked(g, G, rects, near, t)
    requires forall j :: 0 <= j < CellCount(g) ==> !connect0[j]
    requires forall j :: 0 <= j < CellCount(g) ==>
      VectorCellOk(g, G, near, t, field.cost, field.connect, j, field.prev[j])
    ensures SeeingCellsDirect(g, G, rects, t, field)
    ensures OtherCellsNearest(g, G, rects, near, t, field)
  {
    var n, ti := CellCount(g), Index(g, t);
    assert IsWalkFrom(G, [ti], ti, ti);
    forall i | 0 <= i < n && !Reachable(G, ti, i) && Walkable(g, Position(g, i))
      ensures IsConnect(rects, Position(g, i), t) ==>
        field.cost[i] == GridDis(Position(g, i), t) && field.prev[i] == Some(ti)
      ensures !IsConnect(rects, Position(g, i), t) ==>
        field.cost[i] == NearestPoint(g, field.cost, NearOf(near, i)).cost
      ensures !IsConnect(rects, Position(g, i), t) && NearOf(near, i) != [] && field.cost[i] != 0.0 ==>
        field.prev[i] == Some(Index(g, NearestPoint(g, field.cost, NearOf(near, i)).point.value))
    {
      HeatCostSign(G, n, ti, cost0, i);
      UnreachedCell(g, G, rects, near, t, cost0, connect0, field, i);
    }
  }

  /**
   After the fixup, an unreached walkable cell that sees the target costs
   its grid distance and steps to the target; one that does not costs as
   much as going through its cheapest near point, read from the final costs,
   and steps to that point when it has near points and its cost is not 0.
   */
  lemma UnreachedCell(g: Grid, G: Graph, rects: seq<Rect>, near: map<int, seq<Near>>, t: Pos,
                      cost0: seq<real>, connect0: seq<bool>, field: Field, i: nat)
    requires Valid(g) && InBounds(g, t) && NearMapOk(g, near)
    requires |cost0| == |connect0| == |field.cost| == |field.connect| == |field.prev| == CellCount(g)
    requires i < CellCount(g)
    requires forall j :: 0 <= j < CellCount(g) ==>
      FixedUp(g, rects, near, t, cost0, connect0, field.cost, field.connect, j)
    requires NearSettled(g, rects, near, t, cost0) && NearPointsLinked(g, G, rects, near, t)
    requires cost0[i] == -1.0 && !connect0[i] && i != Index(g, t) && Walkable(g, Position(g, i))
    requires VectorCellOk(g, G, near, t, field.cost, field.connect, i, field.prev[i])
    ensures IsConnect(rects, Position(g, i), t) ==>
      field.cost[i] == GridDis(Position(g, i), t) && field.prev[i] == Some(Index(g, t))
    ensures !IsConnect(rects, Position(g, i), t) ==>
      field.cost[i] == NearestPoint(g, field.cost, NearOf(near, i)).cost
    ensures !IsConnect(rects, Position(g, i), t) && NearOf(near, i) != [] && field.cost[i] != 0.0 ==>
      field.prev[i] == Some(Index(g, NearestPoint(g, field.cost, NearOf(near, i)).point.value))
  {
    var p, cost := Position(g, i), field.cost;
    assert FixedUp(g, rects, near, t, cost0, connect0, cost, field.connect, i);
    if IsConnect(rects, p, t) {
      assert p != t;
      GridDisZeroIffSame(p, t);
    } else {
      var ns := NearOf(near, i);
      forall k | 0 <= k < |ns|
        ensures cost[Index(g, ns[k].point)] == cost0[Index(g, ns[k].point)]
      {
        var x := Index(g, ns[k].point);
        assert Settled(g, rects, near, t, cost0, x);
        assert FixedUp(g, rects, near, t, cost0, connect0, cost, field.connect, x);
      }
      NearestAgrees(g, cost, cost0, ns);
      if ns != [] {
        var np := NearestPoint(g, cost, ns);
        var k :| FirstLeast(g, cost, ns, k) && np == Nearest(Some(ns[k].point), Through(g, cost, ns[k]));
        assert Index(g, ns[k].point) !in near;
      }
    }
  }

  /** A sequence of distinct cells of a map with n cells has at most n entries. */
  lemma {:induction false} DistinctWithin(s: seq<int>, n: nat)
    requires forall i :: 0 <= i < |s| ==> 0 <= s[i] < n
    requires forall i, j :: 0 <= i < j < |s| ==> s[i] != s[j]
    ensures |s| <= n
    decreases n
  {
    if |s| > 0 {
      assert 0 <= s[0] < n;
      if k :| 0 <= k < |s| && s[k] == n - 1 {
        var s' := s[..k] + s[k + 1..];
        assert forall i :: 0 <= i < |s'| ==> s'[i] == if i < k then s[i] else s[i + 1];
        DistinctWithin(s', n - 1);
      } else {
        DistinctWithin(s, n - 1);
      }
    }
  }
}
