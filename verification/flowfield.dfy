/**
 The two passes that follow the cost propagation. `fixupHeatMap` gives every
 walkable cell the propagation left at -1 a cost: the grid distance when it
 sees the target, otherwise the cost through its cheapest visible keypoint.
 `createVectorMap` then gives every cell the cell it steps to next (`prev`):
 the target when it sees it, else its cheapest linked neighbour, else its
 cheapest visible keypoint. Both use `getNearestPoint`.
 */
module FlowField {
  import opened GridMap
  import opened Geometry
  import opened Visibility
  import opened Graphs
  import opened HeatMap

  //------------------------------------------------------------------ getNearestPoint

  /** The answer of `getNearestPoint`: the chosen keypoint, if any, and the cost through it (-1 when there is none). */
  datatype Nearest = Nearest(point: Option<Pos>, cost: real)

  ghost predicate NearInBounds(g: Grid, ns: seq<Near>) {
    forall k :: 0 <= k < |ns| ==> InBounds(g, ns[k].point)
  }

  /** Every recorded near point is a cell of the map. */
  ghost predicate NearMapOk(g: Grid, near: map<int, seq<Near>>) {
    forall i :: i in near ==> NearInBounds(g, near[i])
  }

  /** The near points of cell i; a cell without a list has none (`nearPoints || []`). */
  function NearOf(near: map<int, seq<Near>>, i: int): seq<Near> {
    if i in near then near[i] else []
  }

  /** The cost of reaching the target through near point k: k's current cost plus the cached distance to it. */
  function Through(g: Grid, cost: seq<real>, k: Near): real
    requires Valid(g) && |cost| == CellCount(g) && InBounds(g, k.point)
  {
    cost[Index(g, k.point)] + k.dis
  }

  /** Entry k of ns is cheaper than every entry before it and no dearer than any entry before j. */
  ghost predicate LeastBefore(g: Grid, cost: seq<real>, ns: seq<Near>, j: int, k: int)
    requires Valid(g) && |cost| == CellCount(g) && NearInBounds(g, ns)
  {
    0 <= k < j <= |ns| &&
    (forall i :: 0 <= i < k ==> Through(g, cost, ns[i]) > Through(g, cost, ns[k])) &&
    (forall i :: 0 <= i < j ==> Through(g, cost, ns[k]) <= Through(g, cost, ns[i]))
  }

  /** Entry k is the first of the cheapest entries of ns. */
  ghost predicate FirstLeast(g: Grid, cost: seq<real>, ns: seq<Near>, k: int)
    requires Valid(g) && |cost| == CellCount(g) && NearInBounds(g, ns)
  {
    LeastBefore(g, cost, ns, |ns|, k)
  }

  /** The loop of `getNearestPoint` from entry j on, with the best entry so far; a later entry wins only when strictly cheaper. */
  function NearestFrom(g: Grid, cost: seq<real>, ns: seq<Near>, j: nat, best: Nearest): Nearest
    requires Valid(g) && |cost| == CellCount(g) && NearInBounds(g, ns) && j <= |ns|
    decreases |ns| - j
  {
    if j == |ns| then best
    else
      var total := Through(g, cost, ns[j]);
      var best' := if best.point.None? || total < best.cost then Nearest(Some(ns[j].point), total) else best;
      NearestFrom(g, cost, ns, j + 1, best')
  }

  /**
   `getNearestPoint`: with no near points the answer is no point and cost -1;
   otherwise it is the first of the cheapest near points and the cost through it.
   */
  function NearestPoint(g: Grid, cost: seq<real>, ns: seq<Near>): (r: Nearest)
    requires Valid(g) && |cost| == CellCount(g) && NearInBounds(g, ns)
    ensures ns == [] ==> r == Nearest(None, -1.0)
    ensures ns != [] ==>
      exists k :: FirstLeast(g, cost, ns, k) && r == Nearest(Some(ns[k].point), Through(g, cost, ns[k]))
  {
    NearestFirstLeast(g, cost, ns);
    NearestFrom(g, cost, ns, 0, Nearest(None, -1.0))
  }

  lemma NearestFirstLeast(g: Grid, cost: seq<real>, ns: seq<Near>)
    requires Valid(g) && |cost| == CellCount(g) && NearInBounds(g, ns)
    ensures var r := NearestFrom(g, cost, ns, 0, Nearest(None, -1.0));
      && (ns == [] ==> r == Nearest(None, -1.0))
      && (ns != [] ==>
            exists k :: FirstLeast(g, cost, ns, k) && r == Nearest(Some(ns[k].point), Through(g, cost, ns[k])))
  {
    if ns != [] {
      var k := NearestFromLeast(g, cost, ns, 1, 0);
    }
  }

  /** Once entry k leads after the first j entries, the loop ends on the first cheapest entry. */
  lemma {:induction false} NearestFromLeast(g: Grid, cost: seq<real>, ns: seq<Near>, j: nat, k: int) returns (k': int)
    requires Valid(g) && |cost| == CellCount(g) && NearInBounds(g, ns)
    requires LeastBefore(g, cost, ns, j, k)
    ensures FirstLeast(g, cost, ns, k')
    ensures NearestFrom(g, cost, ns, j, Nearest(Some(ns[k].point), Through(g, cost, ns[k]))) ==
      Nearest(Some(ns[k'].point), Through(g, cost, ns[k']))
    decreases |ns| - j
  {
    if j == |ns| {
      k' := k;
    } else if Through(g, cost, ns[j]) < Through(g, cost, ns[k]) {
      k' := NearestFromLeast(g, cost, ns, j + 1, j);
    } else {
      k' := NearestFromLeast(g, cost, ns, j + 1, k);
    }
  }

  /** Only the costs of the near points themselves matter to `getNearestPoint`. */
  lemma NearestAgrees(g: Grid, c1: seq<real>, c2: seq<real>, ns: seq<Near>)
    requires Valid(g) && |c1| == |c2| == CellCount(g) && NearInBounds(g, ns)
    requires forall k :: 0 <= k < |ns| ==> c1[Index(g, ns[k].point)] == c2[Index(g, ns[k].point)]
    ensures NearestPoint(g, c1, ns) == NearestPoint(g, c2, ns)
  {
    NearestFromAgrees(g, c1, c2, ns, 0, Nearest(None, -1.0));
  }

  lemma {:induction false} NearestFromAgrees(g: Grid, c1: seq<real>, c2: seq<real>, ns: seq<Near>, j: nat, best: Nearest)
    requires Valid(g) && |c1| == |c2| == CellCount(g) && NearInBounds(g, ns) && j <= |ns|
    requires forall k :: 0 <= k < |ns| ==> c1[Index(g, ns[k].point)] == c2[Index(g, ns[k].point)]
    ensures NearestFrom(g, c1, ns, j, best) == NearestFrom(g, c2, ns, j, best)
    decreases |ns| - j
  {
    if j < |ns| {
      var total := Through(g, c1, ns[j]);
      assert total == Through(g, c2, ns[j]);
      var best' := if best.point.None? || total < best.cost then Nearest(Some(ns[j].point), total) else best;
      NearestFromAgrees(g, c1, c2, ns, j + 1, best');
    }
  }

  //------------------------------------------------------------------ fixupHeatMap

  /** One step of `fixupHeatMap` for cell i, reading the costs as the earlier steps left them. */
  function FixupCell(g: Grid, rects: seq<Rect>, near: map<int, seq<Near>>, t: Pos,
                     cost: seq<real>, connect: seq<bool>, i: nat): (real, bool)
    requires Valid(g) && InBounds(g, t) && NearMapOk(g, near)
    requires |cost| == |connect| == CellCount(g) && i < CellCount(g)
  {
    var p := Position(g, i);
    if !Walkable(g, p) || cost[i] >= 0.0 then (cost[i], connect[i])
    else if IsConnect(rects, p, t) then (GridDis(p, t), true)
    else (NearestPoint(g, cost, NearOf(near, i)).cost, connect[i])
  }

  /**
   Cell k keeps its cost through the fixup: it is terrain, already has a
   cost, or is an unreached cell that sees neither the target nor any
   keypoint, whose fallback cost is -1 again.
   */
  ghost predicate Settled(g: Grid, rects: seq<Rect>, near: map<int, seq<Near>>, t: Pos, cost: seq<real>, k: nat)
    requires Valid(g) && |cost| == CellCount(g) && k < CellCount(g)
  {
    var p := Position(g, k);
    !Walkable(g, p) || cost[k] >= 0.0 || (cost[k] == -1.0 && NearOf(near, k) == [] && !IsConnect(rects, p, t))
  }

  /** Every near point of every cell is settled, so the order the fixup visits the cells in does not matter. */
  ghost predicate NearSettled(g: Grid, rects: seq<Rect>, near: map<int, seq<Near>>, t: Pos, cost: seq<real>)
    requires Valid(g) && |cost| == CellCount(g) && NearMapOk(g, near)
  {
    forall i, k :: i in near && 0 <= k < |near[i]| ==> Settled(g, rects, near, t, cost, Index(g, near[i][k].point))
  }

  /**
   What the fixup promises cell j, in terms of the costs it started from:
   terrain and costed cells are left alone; an unreached cell that sees the
   target gets its grid distance and is marked as seeing it; any other
   unreached cell gets the cost through its cheapest near point, read from
   the starting costs when the near points are settled.
   */
  ghost predicate FixedUp(g: Grid, rects: seq<Rect>, near: map<int, seq<Near>>, t: Pos,
                          cost0: seq<real>, connect0: seq<bool>, cost: seq<real>, connect: seq<bool>, j: nat)
    requires Valid(g) && NearMapOk(g, near)
    requires |cost0| == |connect0| == |cost| == |connect| == CellCount(g) && j < CellCount(g)
  {
    var p := Position(g, j);
    if !Walkable(g, p) || cost0[j] >= 0.0 then cost[j] == cost0[j] && connect[j] == connect0[j]
    else if IsConnect(rects, p, t) then cost[j] == GridDis(p, t) && connect[j]
    else
      connect[j] == connect0[j] &&
      (NearSettled(g, rects, near, t, cost0) ==> cost[j] == NearestPoint(g, cost0, NearOf(near, j)).cost)
  }

  /** `fixupHeatMap` over the costs and target flags the propagation produced. */
  method FixupHeatMap(g: Grid, rects: seq<Rect>, near: map<int, seq<Near>>, t: Pos,
                      cost0: seq<real>, connect0: seq<bool>) returns (cost: seq<real>, connect: seq<bool>)
    requires Valid(g) && InBounds(g, t) && NearMapOk(g, near)
    requires |cost0| == |connect0| == CellCount(g)
    ensures |cost| == |connect| == CellCount(g)
    ensures forall j :: 0 <= j < CellCount(g) ==> FixedUp(g, rects, near, t, cost0, connect0, cost, connect, j)
  {
    var n := CellCount(g);
    cost, connect := cost0, connect0;
    var i := 0;
    while i < n
      invariant 0 <= i <= n && |cost| == |connect| == n
      invariant forall j :: i <= j < n ==> cost[j] == cost0[j] && connect[j] == connect0[j]
      invariant forall j :: 0 <= j < i ==> FixedUp(g, rects, near, t, cost0, connect0, cost, connect, j)
      invariant NearSettled(g, rects, near, t, cost0) ==>
        forall k :: 0 <= k < n && Settled(g, rects, near, t, cost0, k) ==> cost[k] == cost0[k]
    {
      var r := FixupCell(g, rects, near, t, cost, connect, i);
      FixupStep(g, rects, near, t, cost0, connect0, cost, connect, i);
      var cost', connect' := cost[i := r.0], connect[i := r.1];
      forall j | 0 <= j < i
        ensures FixedUp(g, rects, near, t, cost0, connect0, cost', connect', j)
      {
        FixedUpFrame(g, rects, near, t, cost0, connect0, cost, connect, cost', connect', j);
      }
      cost, connect := cost', connect';
      i := i + 1;
    }
  }

  /** The promise for cell j reads only cell j's entries. */
  lemma FixedUpFrame(g: Grid, rects: seq<Rect>, near: map<int, seq<Near>>, t: Pos,
                     cost0: seq<real>, connect0: seq<bool>, cost: seq<real>, connect: seq<bool>,
                     cost': seq<real>, connect': seq<bool>, j: nat)
    requires Valid(g) && NearMapOk(g, near)
    requires |cost0| == |connect0| == |cost| == |connect| == |cost'| == |connect'| == CellCount(g) && j < CellCount(g)
    requires cost'[j] == cost[j] && connect'[j] == connect[j]
    requires FixedUp(g, rects, near, t, cost0, connect0, cost, connect, j)
    ensures FixedUp(g, rects, near, t, cost0, connect0, cost', connect', j)
  {
  }

  /** One step of the fixup settles cell i as promised and moves no settled cell. */
  lemma FixupStep(g: Grid, rects: seq<Rect>, near: map<int, seq<Near>>, t: Pos,
                  cost0: seq<real>, connect0: seq<bool>, cost: seq<real>, connect: seq<bool>, i: nat)
    requires Valid(g) && InBounds(g, t) && NearMapOk(g, near)
    requires |cost0| == |connect0| == |cost| == |connect| == CellCount(g) && i < CellCount(g)
    requires cost[i] == cost0[i] && connect[i] == connect0[i]
    requires NearSettled(g, rects, near, t, cost0) ==>
      forall k :: 0 <= k < CellCount(g) && Settled(g, rects, near, t, cost0, k) ==> cost[k] == cost0[k]
    ensures var r := FixupCell(g, rects, near, t, cost, connect, i);
      FixedUp(g, rects, near, t, cost0, connect0, cost[i := r.0], connect[i := r.1], i)
    ensures var r := FixupCell(g, rects, near, t, cost, connect, i);
      Settled(g, rects, near, t, cost0, i) ==> r.0 == cost0[i]
  {
    var p := Position(g, i);
    var ns := NearOf(near, i);
    if Walkable(g, p) && cost0[i] < 0.0 && !IsConnect(rects, p, t) && NearSettled(g, rects, near, t, cost0) {
      forall k | 0 <= k < |ns|
        ensures cost[Index(g, ns[k].point)] == cost0[Index(g, ns[k].point)]
      {
        assert Settled(g, rects, near, t, cost0, Index(g, near[i][k].point));
      }
      NearestAgrees(g, cost, cost0, ns);
    }
  }

  //------------------------------------------------------------------ createVectorMap

  /** The match rule of `createVectorMap`: going through y is cheaper than the candidate, or as cheap with y itself cheaper. */
  predicate Matches(cost: seq<real>, through: real, y: int, cand: int)
    requires 0 <= y < |cost| && 0 <= cand < |cost|
  {
    through < cost[cand] || (through == cost[cand] && cost[y] < cost[cand])
  }

  /**
   The neighbour loop of `createVectorMap` for cell i from neighbour index y
   on, with candidate cand. Neighbours are visited in ascending index order,
   the order `createVectorMap`'s `for ... in` loop visits integer keys.
   */
  function Descend(G: Graph, cost: seq<real>, i: int, y: nat, cand: int): int
    requires 0 <= cand < |cost| && y <= |cost|
    decreases |cost| - y
  {
    if y == |cost| then cand
    else
      var cand' := if HasEdge(G, i, y) && Matches(cost, cost[y] + G[i][y], y, cand) then y else cand;
      Descend(G, cost, i, y + 1, cand')
  }

  /** Cell i has a linked neighbour u, strictly cheaper, whose cost plus the link's weight is i's cost. */
  ghost predicate HasDescent(G: Graph, cost: seq<real>, i: int)
    requires 0 <= i < |cost|
  {
    exists u :: 0 <= u < |cost| && HasEdge(G, i, u) && cost[u] + G[i][u] == cost[i] && cost[u] < cost[i]
  }

  /**
   With non-negative weights the neighbour loop only ever moves to a linked,
   strictly cheaper neighbour, and once it has moved it never returns to i.
   */
  lemma {:induction false} DescendSteps(G: Graph, cost: seq<real>, i: int, y: nat, cand: int)
    requires NonNegative(G) && 0 <= i < |cost| && 0 <= cand < |cost| && y <= |cost|
    requires cand == i || (HasEdge(G, i, cand) && cost[cand] < cost[i])
    ensures var r := Descend(G, cost, i, y, cand);
      0 <= r < |cost| && (r == i || (HasEdge(G, i, r) && cost[r] < cost[i]))
    ensures cand != i ==> Descend(G, cost, i, y, cand) != i
    decreases |cost| - y
  {
    if y < |cost| {
      var cand' := if HasEdge(G, i, y) && Matches(cost, cost[y] + G[i][y], y, cand) then y else cand;
      DescendSteps(G, cost, i, y + 1, cand');
    }
  }

  /** A descent at or after y makes the neighbour loop leave i. */
  lemma {:induction false} DescendFinds(G: Graph, cost: seq<real>, i: int, y: nat, cand: int, u: int)
    requires NonNegative(G) && 0 <= i < |cost| && 0 <= cand < |cost| && y <= u < |cost|
    requires cand == i || (HasEdge(G, i, cand) && cost[cand] < cost[i])
    requires HasEdge(G, i, u) && cost[u] + G[i][u] == cost[i] && cost[u] < cost[i]
    ensures Descend(G, cost, i, y, cand) != i
    decreases |cost| - y
  {
    var cand' := if HasEdge(G, i, y) && Matches(cost, cost[y] + G[i][y], y, cand) then y else cand;
    if y == u {
      assert cand' != i;
      DescendSteps(G, cost, i, y + 1, cand');
    } else {
      DescendSteps(G, cost, i, y + 1, cand');
      if cand' == i {
        DescendFinds(G, cost, i, y + 1, cand', u);
      } else {
        DescendSteps(G, cost, i, y, cand);
      }
    }
  }

  /** A cell without an entry in the graph has no neighbours, so the neighbour loop keeps its candidate. */
  lemma {:induction false} DescendUnlinked(G: Graph, cost: seq<real>, i: int, y: nat, cand: int)
    requires i !in G && 0 <= cand < |cost| && y <= |cost|
    ensures Descend(G, cost, i, y, cand) == cand
    decreases |cost| - y
  {
    if y < |cost| {
      DescendUnlinked(G, cost, i, y + 1, cand);
    }
  }

  /** The body of `createVectorMap`'s loop for cell i: the cell it steps to, if any. */
  function VectorCell(g: Grid, G: Graph, near: map<int, seq<Near>>, t: Pos,
                      cost: seq<real>, connect: seq<bool>, i: nat): Option<int>
    requires Valid(g) && InBounds(g, t) && NearMapOk(g, near)
    requires |cost| == |connect| == CellCount(g) && i < CellCount(g)
  {
    var p := Position(g, i);
    if !Walkable(g, p) || cost[i] == 0.0 then None
    else
      var c0 := if connect[i] then Index(g, t) else i;
      var c1 := if c0 == i then Descend(G, cost, i, 0, i) else c0;
      var c2 :=
        if c1 != i then c1
        else
          var np := NearestPoint(g, cost, NearOf(near, i));
          if np.point.Some? then Index(g, np.point.value) else i;
      if c2 != i then Some(c2) else None
  }

  /** u is the first cheapest near point of cell i. */
  ghost predicate NearestChoice(g: Grid, near: map<int, seq<Near>>, cost: seq<real>, i: int, u: int)
    requires Valid(g) && NearMapOk(g, near) && |cost| == CellCount(g)
  {
    var ns := NearOf(near, i);
    exists k :: FirstLeast(g, cost, ns, k) && Index(g, ns[k].point) == u
  }

  /**
   The cell a step may lead to: the target for a cell marked as seeing it, a
   linked and strictly cheaper neighbour, or the first cheapest near point.
   */
  ghost predicate StepOk(g: Grid, G: Graph, near: map<int, seq<Near>>, t: Pos,
                         cost: seq<real>, connect: seq<bool>, i: int, u: int)
    requires Valid(g) && NearMapOk(g, near) && |cost| == |connect| == CellCount(g) && 0 <= i < CellCount(g)
  {
    0 <= u < CellCount(g) && u != i &&
    ((connect[i] && u == Index(g, t)) ||
     (HasEdge(G, i, u) && cost[u] < cost[i]) ||
     NearestChoice(g, near, cost, i, u))
  }

  /**
   `createVectorMap`: every cell gets the cell it steps to next, or none, as
   VectorCellOk says: terrain and cost-0 cells step nowhere; a cell marked
   as seeing the target steps to it; every step is one StepOk allows; a
   cell not marked as seeing the target that has a descent steps along a
   linked, strictly cheaper neighbour; and one that is not in the graph
   steps to its first cheapest near point, unless that point is the cell
   itself.
   */
  method CreateVectorMap(g: Grid, G: Graph, near: map<int, seq<Near>>, t: Pos,
                         cost: seq<real>, connect: seq<bool>) returns (prev: seq<Option<int>>)
    requires Valid(g) && InBounds(g, t) && NearMapOk(g, near) && NonNegative(G)
    requires |cost| == |connect| == CellCount(g)
    ensures |prev| == CellCount(g)
    ensures forall i :: 0 <= i < CellCount(g) ==> VectorCellOk(g, G, near, t, cost, connect, i, prev[i])
  {
    var n := CellCount(g);
    prev := [];
    var i := 0;
    while i < n
      invariant 0 <= i <= n && |prev| == i
      invariant forall j :: 0 <= j < i ==> prev[j] == VectorCell(g, G, near, t, cost, connect, j)
    {
      prev := prev + [VectorCell(g, G, near, t, cost, connect, i)];
      i := i + 1;
    }
    forall j | 0 <= j < n
      ensures VectorCellOk(g, G, near, t, cost, connect, j, prev[j])
    {
      VectorCellSpec(g, G, near, t, cost, connect, j);
    }
  }

  /** The five promises of `createVectorMap` for one cell i and its step r. */
  ghost predicate VectorCellOk(g: Grid, G: Graph, near: map<int, seq<Near>>, t: Pos,
                               cost: seq<real>, connect: seq<bool>, i: nat, r: Option<int>)
    requires Valid(g) && InBounds(g, t) && NearMapOk(g, near)
    requires |cost| == |connect| == CellCount(g) && i < CellCount(g)
  {
    var p := Position(g, i);
    && ((!Walkable(g, p) || cost[i] == 0.0) ==> r == None)
    && (Walkable(g, p) && cost[i] != 0.0 && connect[i] && i != Index(g, t) ==> r == Some(Index(g, t)))
    && (r.Some? ==> StepOk(g, G, near, t, cost, connect, i, r.value))
    && (Walkable(g, p) && cost[i] != 0.0 && !connect[i] && HasDescent(G, cost, i) ==>
          r.Some? && HasEdge(G, i, r.value) && 0 <= r.value < CellCount(g) && cost[r.value] < cost[i])
    && (Walkable(g, p) && cost[i] != 0.0 && !connect[i] && i !in G && NearOf(near, i) != [] ==>
          var u := Index(g, NearestPoint(g, cost, NearOf(near, i)).point.value);
          r == if u == i then None else Some(u))
  }

  lemma VectorCellSpec(g: Grid, G: Graph, near: map<int, seq<Near>>, t: Pos,
                       cost: seq<real>, connect: seq<bool>, i: nat)
    requires Valid(g) && InBounds(g, t) && NearMapOk(g, near) && NonNegative(G)
    requires |cost| == |connect| == CellCount(g) && i < CellCount(g)
    ensures VectorCellOk(g, G, near, t, cost, connect, i, VectorCell(g, G, near, t, cost, connect, i))
  {
    var p := Position(g, i);
    if Walkable(g, p) && cost[i] != 0.0 {
      DescendSteps(G, cost, i, 0, i);
      var d := Descend(G, cost, i, 0, i);
      if !connect[i] && HasDescent(G, cost, i) {
        var u :| 0 <= u < |cost| && HasEdge(G, i, u) && cost[u] + G[i][u] == cost[i] && cost[u] < cost[i];
        DescendFinds(G, cost, i, 0, i, u);
      }
      if i !in G {
        DescendUnlinked(G, cost, i, 0, i);
      }
      var ns := NearOf(near, i);
      var np := NearestPoint(g, cost, ns);
      if np.point.Some? {
        assert ns != [];
      }
    }
  }

  //------------------------------------------------------------------ following the steps

  /**
   On a symmetric graph whose links between distinct cells weigh something,
   every reached cell other than the target costs more than 0 and has a
   descent, so the vector map steps it along a link.
   */
  lemma ReachedDescends(G: Graph, n: int, t: int, cost: seq<real>, i: int)
    requires WellKeyed(G, n) && Symmetric(G) && NonNegative(G) && PositiveLinks(G)
    requires HeatSpec(G, n, t, cost) && 0 <= i < n && i != t && Reachable(G, t, i)
    ensures HasDescent(G, cost, i) && cost[i] > 0.0
  {
    var u := HeatStrictPredecessor(G, n, t, cost, i);
    assert HasEdge(G, i, u) && G[i][u] == G[u][i];
    HeatPositive(G, n, t, cost, i);
  }

  /** Every step names a cell of the map. */
  ghost predicate StepsInRange(prev: seq<Option<int>>) {
    forall j :: 0 <= j < |prev| && prev[j].Some? ==> 0 <= prev[j].value < |prev|
  }

  /** The cell reached from i by following at most the given number of steps. */
  function Follow(prev: seq<Option<int>>, i: int, steps: nat): (r: int)
    requires StepsInRange(prev) && 0 <= i < |prev|
    ensures 0 <= r < |prev|
    decreases steps
  {
    if steps == 0 || prev[i].None? then i else Follow(prev, prev[i].value, steps - 1)
  }

  /**
   The target steps nowhere, and every other reached cell steps along a
   link to a strictly cheaper cell.
   */
  ghost predicate DescendsToTarget(G: Graph, t: int, cost: seq<real>, prev: seq<Option<int>>) {
    |prev| == |cost| && 0 <= t < |prev| && prev[t].None? &&
    forall j :: 0 <= j < |prev| && j != t && Reachable(G, t, j) ==>
      prev[j].Some? && 0 <= prev[j].value < |prev| && HasEdge(G, j, prev[j].value) && cost[prev[j].value] < cost[j]
  }

  /**
   Following the steps from the cell closed r-th by the propagation arrives
   at the target within r steps, so any budget of at least r ends there:
   each step goes to a cheaper reached cell, which the propagation closed
   earlier.
   */
  lemma {:induction false} FollowReachesTarget(G: Graph, n: int, t: int, cost: seq<real>, order: seq<int>,
                                               prev: seq<Option<int>>, r: nat, steps: nat)
    requires HeatSpec(G, n, t, cost) && StepsInRange(prev) && DescendsToTarget(G, t, cost, prev)
    requires forall a :: 0 <= a < |order| ==> 0 <= order[a] < n
    requires forall x :: x in order <==> 0 <= x < n && Reachable(G, t, x)
    requires forall a, b :: 0 <= a < b < |order| ==> cost[order[a]] <= cost[order[b]]
    requires r < |order| && r <= steps
    ensures Follow(prev, order[r], steps) == t
    decreases r
  {
    var i := order[r];
    assert i in order;
    if i != t {
      var u := prev[i].value;
      HeatTriangle(G, n, t, cost, i, u);
      assert u in order;
      var r' :| 0 <= r' < |order| && order[r'] == u;
      assert r' < r;
      FollowReachesTarget(G, n, t, cost, order, prev, r', steps - 1);
    }
  }
}
