/**
 The heat map: a Dijkstra-style propagation of path costs outward from the
 target over a graph keyed by cell index. Every cell starts at cost -1; the
 open list starts with the target at cost 0; the cheapest open entry (the
 first of equal ones) is closed and its cost recorded, and its neighbours,
 in ascending key order, are opened or lowered unless already closed.
 */
module HeatMap {
  import opened Graphs

  /** An entry of the open list: a cell index and its tentative cost. */
  datatype Node = Node(index: int, cost: real)

  //------------------------------------------------------------------ walks and distances

  /** A walk: a non-empty sequence of cells, each linked to the next. */
  ghost predicate IsWalk(G: Graph, w: seq<int>) {
    |w| >= 1 && forall i :: 0 <= i < |w| - 1 ==> HasEdge(G, w[i], w[i + 1])
  }

  ghost predicate IsWalkFrom(G: Graph, w: seq<int>, s: int, v: int) {
    IsWalk(G, w) && w[0] == s && w[|w| - 1] == v
  }

  /** The total weight of a walk. */
  ghost function WalkLen(G: Graph, w: seq<int>): real
    requires IsWalk(G, w)
    decreases |w|
  {
    if |w| == 1 then 0.0
    else
      var pre := w[..|w| - 1];
      assert IsWalk(G, pre) by {
        forall i | 0 <= i < |pre| - 1
          ensures HasEdge(G, pre[i], pre[i + 1])
        {
          assert pre[i] == w[i] && pre[i + 1] == w[i + 1];
        }
      }
      assert HasEdge(G, w[|w| - 2], w[|w| - 1]);
      WalkLen(G, pre) + G[w[|w| - 2]][w[|w| - 1]]
  }

  ghost predicate Reachable(G: Graph, t: int, v: int) {
    exists w :: IsWalkFrom(G, w, t, v)
  }

  /** No walk from t to v is shorter than d. */
  ghost predicate Optimal(G: Graph, t: int, v: int, d: real) {
    forall w :: IsWalkFrom(G, w, t, v) ==> d <= WalkLen(G, w)
  }

  /** d is the length of a shortest walk from t to v. */
  ghost predicate IsDistance(G: Graph, t: int, v: int, d: real) {
    (exists w :: IsWalkFrom(G, w, t, v) && WalkLen(G, w) == d) && Optimal(G, t, v, d)
  }

  /**
   What the heat map holds: one cost per cell, the distance from the target
   for every cell a walk reaches, and -1 for every other cell.
   */
  ghost predicate HeatSpec(G: Graph, n: int, t: int, cost: seq<real>) {
    |cost| == n &&
    forall v :: 0 <= v < n ==>
      if Reachable(G, t, v) then IsDistance(G, t, v, cost[v]) else cost[v] == -1.0
  }

  lemma WalkAppend(G: Graph, w: seq<int>, y: int)
    requires IsWalk(G, w) && HasEdge(G, w[|w| - 1], y)
    ensures IsWalk(G, w + [y])
    ensures WalkLen(G, w + [y]) == WalkLen(G, w) + G[w[|w| - 1]][y]
  {
    assert (w + [y])[..|w|] == w;
  }

  lemma WalkPrefix(G: Graph, w: seq<int>)
    requires IsWalk(G, w) && |w| >= 2
    ensures IsWalk(G, w[..|w| - 1])
    ensures HasEdge(G, w[|w| - 2], w[|w| - 1])
    ensures WalkLen(G, w) == WalkLen(G, w[..|w| - 1]) + G[w[|w| - 2]][w[|w| - 1]]
  {
  }

  lemma {:induction false} WalkLenNonNegative(G: Graph, w: seq<int>)
    requires NonNegative(G) && IsWalk(G, w)
    ensures WalkLen(G, w) >= 0.0
    decreases |w|
  {
    if |w| > 1 {
      WalkPrefix(G, w);
      WalkLenNonNegative(G, w[..|w| - 1]);
    }
  }

  /** A cell has one distance from the target at most. */
  lemma DistanceUnique(G: Graph, t: int, v: int, d1: real, d2: real)
    requires IsDistance(G, t, v, d1) && IsDistance(G, t, v, d2)
    ensures d1 == d2
  {
    var w1 :| IsWalkFrom(G, w1, t, v) && WalkLen(G, w1) == d1;
    var w2 :| IsWalkFrom(G, w2, t, v) && WalkLen(G, w2) == d2;
  }

  /** The heat map is determined by the graph and the target. */
  lemma HeatSpecUnique(G: Graph, n: int, t: int, c1: seq<real>, c2: seq<real>)
    requires HeatSpec(G, n, t, c1) && HeatSpec(G, n, t, c2)
    ensures c1 == c2
  {
    forall v | 0 <= v < n
      ensures c1[v] == c2[v]
    {
      if Reachable(G, t, v) {
        DistanceUnique(G, t, v, c1[v], c2[v]);
      }
    }
  }

  /** With non-negative weights, a reached cell has a non-negative cost, so -1 marks exactly the unreached cells. */
  lemma HeatCostSign(G: Graph, n: int, t: int, cost: seq<real>, v: int)
    requires NonNegative(G) && HeatSpec(G, n, t, cost) && 0 <= v < n
    ensures Reachable(G, t, v) <==> cost[v] >= 0.0
    ensures !Reachable(G, t, v) <==> cost[v] == -1.0
  {
    if Reachable(G, t, v) {
      var w :| IsWalkFrom(G, w, t, v) && WalkLen(G, w) == cost[v];
      WalkLenNonNegative(G, w);
    }
  }

  /** The target itself costs nothing. */
  lemma HeatTargetZero(G: Graph, n: int, t: int, cost: seq<real>)
    requires NonNegative(G) && HeatSpec(G, n, t, cost) && 0 <= t < n
    ensures cost[t] == 0.0
  {
    assert IsWalkFrom(G, [t], t, t);
    var w :| IsWalkFrom(G, w, t, t) && WalkLen(G, w) == cost[t];
    WalkLenNonNegative(G, w);
  }

  /** Along an edge the cost grows by at most the edge's weight, and the far end is reached too. */
  lemma HeatTriangle(G: Graph, n: int, t: int, cost: seq<real>, u: int, v: int)
    requires HeatSpec(G, n, t, cost) && 0 <= u < n && 0 <= v < n
    requires Reachable(G, t, u) && HasEdge(G, u, v)
    ensures Reachable(G, t, v) && cost[v] <= cost[u] + G[u][v]
  {
    var w :| IsWalkFrom(G, w, t, u) && WalkLen(G, w) == cost[u];
    WalkAppend(G, w, v);
    assert IsWalkFrom(G, w + [v], t, v);
  }

  /**
   Every reached cell other than the target has a predecessor: a reached
   cell linked to it whose cost plus the edge's weight is its own cost.
   */
  lemma HeatPredecessor(G: Graph, n: int, t: int, cost: seq<real>, v: int) returns (u: int)
    requires WellKeyed(G, n) && HeatSpec(G, n, t, cost) && 0 <= v < n && v != t
    requires Reachable(G, t, v)
    ensures 0 <= u < n && HasEdge(G, u, v) && Reachable(G, t, u)
    ensures cost[u] + G[u][v] == cost[v]
  {
    var w :| IsWalkFrom(G, w, t, v) && WalkLen(G, w) == cost[v];
    WalkPrefix(G, w);
    var pre := w[..|w| - 1];
    u := w[|w| - 2];
    assert IsWalkFrom(G, pre, t, u);
    assert HasEdge(G, u, v);
    HeatTriangle(G, n, t, cost, u, v);
  }

  /** Dropping trailing self-links from a walk between distinct cells never makes it longer. */
  lemma {:induction false} StripLoops(G: Graph, w: seq<int>, t: int, v: int) returns (w': seq<int>)
    requires NonNegative(G) && IsWalkFrom(G, w, t, v) && t != v
    ensures IsWalkFrom(G, w', t, v) && |w'| >= 2 && w'[|w'| - 2] != v
    ensures WalkLen(G, w') <= WalkLen(G, w)
    decreases |w|
  {
    WalkPrefix(G, w);
    if w[|w| - 2] == v {
      var pre := w[..|w| - 1];
      assert IsWalkFrom(G, pre, t, v);
      w' := StripLoops(G, pre, t, v);
    } else {
      w' := w;
    }
  }

  /**
   When links between distinct cells weigh something, every reached cell
   other than the target has a predecessor that is another cell, strictly
   cheaper, whose cost plus the link's weight is its own.
   */
  lemma HeatStrictPredecessor(G: Graph, n: int, t: int, cost: seq<real>, v: int) returns (u: int)
    requires WellKeyed(G, n) && NonNegative(G) && PositiveLinks(G)
    requires HeatSpec(G, n, t, cost) && 0 <= v < n && v != t && Reachable(G, t, v)
    ensures 0 <= u < n && u != v && HasEdge(G, u, v) && Reachable(G, t, u)
    ensures cost[u] + G[u][v] == cost[v] && cost[u] < cost[v]
  {
    var w :| IsWalkFrom(G, w, t, v) && WalkLen(G, w) == cost[v];
    var w' := StripLoops(G, w, t, v);
    WalkPrefix(G, w');
    var pre := w'[..|w'| - 1];
    u := w'[|w'| - 2];
    assert IsWalkFrom(G, pre, t, u);
    HeatTriangle(G, n, t, cost, u, v);
  }

  /** With positive links, the target is the only reached cell of cost 0; all others cost more. */
  lemma HeatPositive(G: Graph, n: int, t: int, cost: seq<real>, v: int)
    requires WellKeyed(G, n) && NonNegative(G) && PositiveLinks(G)
    requires HeatSpec(G, n, t, cost) && 0 <= v < n && v != t && Reachable(G, t, v)
    ensures cost[v] > 0.0
  {
    var u := HeatStrictPredecessor(G, n, t, cost, v);
    HeatCostSign(G, n, t, cost, u);
  }

  //------------------------------------------------------------------ the open list

  /** `open_list.find`: the position of the first entry for y, or -1. */
  function Find(open: seq<Node>, y: int): (k: int)
    ensures -1 <= k < |open|
    ensures k >= 0 ==> open[k].index == y
    ensures k == -1 <==> forall i :: 0 <= i < |open| ==> open[i].index != y
  {
    if |open| == 0 then -1
    else if open[0].index == y then 0
    else
      var k := Find(open[1..], y);
      assert forall i :: 1 <= i < |open| ==> open[i] == open[1..][i - 1];
      if k == -1 then -1 else k + 1
  }

  /** The selection loop from position i on, `best` being the first least entry so far. */
  function MinFrom(open: seq<Node>, i: nat, best: nat): (k: nat)
    requires best < i <= |open|
    requires forall j :: 0 <= j < i ==> open[best].cost <= open[j].cost
    requires forall j :: 0 <= j < best ==> open[j].cost > open[best].cost
    ensures k < |open|
    ensures forall j :: 0 <= j < |open| ==> open[k].cost <= open[j].cost
    ensures forall j :: 0 <= j < k ==> open[j].cost > open[k].cost
    decreases |open| - i
  {
    if i == |open| then best
    else MinFrom(open, i + 1, if open[best].cost > open[i].cost then i else best)
  }

  /** The entry the loop selects: the first one of least cost. */
  function FirstMin(open: seq<Node>): (k: nat)
    requires |open| > 0
    ensures k < |open|
    ensures forall j :: 0 <= j < |open| ==> open[k].cost <= open[j].cost
    ensures forall j :: 0 <= j < k ==> open[j].cost > open[k].cost
  {
    MinFrom(open, 1, 0)
  }

  /** Some open entry for y costs at most b. */
  ghost predicate InOpenWithin(open: seq<Node>, y: int, b: real) {
    exists i :: 0 <= i < |open| && open[i].index == y && open[i].cost <= b
  }

  /** The walk W[v] leads from t to v and weighs c. */
  ghost predicate Witness(G: Graph, t: int, W: map<int, seq<int>>, v: int, c: real) {
    v in W && IsWalkFrom(G, W[v], t, v) && WalkLen(G, W[v]) == c
  }

  //------------------------------------------------------------------ loop invariants

  /** Open entries are distinct unclosed cells, each with a walk of its cost. */
  ghost predicate OpenOk(G: Graph, n: int, t: int, open: seq<Node>, C: set<int>, W: map<int, seq<int>>) {
    (forall i :: 0 <= i < |open| ==>
      0 <= open[i].index < n && open[i].index !in C && open[i].cost >= 0.0 &&
      Witness(G, t, W, open[i].index, open[i].cost)) &&
    (forall i, j :: 0 <= i < j < |open| ==> open[i].index != open[j].index)
  }

  /** Closed cells hold their distance, with a walk to show it; the others hold -1. */
  ghost predicate ClosedOk(G: Graph, n: int, t: int, C: set<int>, cost: seq<real>, W: map<int, seq<int>>) {
    |cost| == n &&
    (forall v :: v in C ==> 0 <= v < n) &&
    forall v :: 0 <= v < n ==>
      (v in C ==> cost[v] >= 0.0 && Witness(G, t, W, v, cost[v]) && Optimal(G, t, v, cost[v])) &&
      (v !in C ==> cost[v] == -1.0)
  }

  /** Every edge leaving a closed cell other than `skip` ends in the open list, no dearer than through that cell. */
  ghost predicate Frontier(G: Graph, open: seq<Node>, C: set<int>, cost: seq<real>, skip: int) {
    forall u, y :: u in C && u != skip && 0 <= u < |cost| && HasEdge(G, u, y) && y !in C ==>
      InOpenWithin(open, y, cost[u] + G[u][y])
  }

  /** No closed cell costs more than an open entry. */
  ghost predicate Ordered(open: seq<Node>, C: set<int>, cost: seq<real>) {
    forall u, i :: u in C && 0 <= u < |cost| && 0 <= i < |open| ==> cost[u] <= open[i].cost
  }

  /** The closed list: the closed cells once each, in closing order, costs never decreasing. */
  ghost predicate OrderOk(t: int, order: seq<int>, C: set<int>, cost: seq<real>) {
    (forall x :: x in order <==> x in C) &&
    (forall i, j :: 0 <= i < j < |order| ==> order[i] != order[j]) &&
    (forall i, j :: 0 <= i < j < |order| && 0 <= order[i] < |cost| && 0 <= order[j] < |cost| ==>
      cost[order[i]] <= cost[order[j]]) &&
    (|order| > 0 ==> order[0] == t)
  }

  ghost predicate Started(t: int, open: seq<Node>, C: set<int>) {
    t in C || (C == {} && open == [Node(t, 0.0)])
  }

  /** The outer loop's invariant. */
  ghost predicate Inv(G: Graph, n: int, t: int, open: seq<Node>, C: set<int>, cost: seq<real>,
                      W: map<int, seq<int>>, order: seq<int>) {
    OpenOk(G, n, t, open, C, W) && ClosedOk(G, n, t, C, cost, W) &&
    Frontier(G, open, C, cost, -1) && Ordered(open, C, cost) &&
    OrderOk(t, order, C, cost) && Started(t, open, C)
  }

  /** Every neighbour of v below `done` that is not closed is open, no dearer than through v. */
  ghost predicate DoneOk(G: Graph, open: seq<Node>, C: set<int>, v: int, c: real, done: int) {
    forall y :: y < done && y !in C && HasEdge(G, v, y) ==> InOpenWithin(open, y, c + G[v][y])
  }

  /** Every open entry costs at least c. */
  ghost predicate AtLeast(open: seq<Node>, c: real) {
    forall i :: 0 <= i < |open| ==> c <= open[i].cost
  }

  /** The neighbour loop's invariant, v having just been closed at cost c and its neighbours below `done` handled. */
  ghost predicate RelaxInv(G: Graph, n: int, t: int, open: seq<Node>, C: set<int>, cost: seq<real>,
                           W: map<int, seq<int>>, v: int, c: real, done: int) {
    OpenOk(G, n, t, open, C, W) && ClosedOk(G, n, t, C, cost, W) &&
    v in C && cost[v] == c && t in C &&
    AtLeast(open, c) && (forall u :: u in C ==> cost[u] <= c) &&
    Frontier(G, open, C, cost, v) && DoneOk(G, open, C, v, c, done)
  }

  /** Every entry of `open` has an entry in `open2` for the same cell, no dearer. */
  ghost predicate Dominated(open: seq<Node>, open2: seq<Node>) {
    forall z, b :: InOpenWithin(open, z, b) ==> InOpenWithin(open2, z, b)
  }

  //------------------------------------------------------------------ the algorithm

  /** The number of cells below n not yet closed: the outer loop's measure. */
  function Remaining(n: nat, C: set<int>): nat {
    if n == 0 then 0 else Remaining(n - 1, C) + (if n - 1 in C then 0 else 1)
  }

  /** Closing a cell above the counted range changes nothing. */
  lemma {:induction false} RemainingAbove(n: nat, C: set<int>, v: int)
    requires v >= n
    ensures Remaining(n, C + {v}) == Remaining(n, C)
  {
    if n > 0 {
      RemainingAbove(n - 1, C, v);
    }
  }

  /** Closing an unclosed cell of the range lowers the count by one. */
  lemma {:induction false} RemainingShrinks(n: nat, C: set<int>, v: int)
    requires 0 <= v < n && v !in C
    ensures Remaining(n, C + {v}) == Remaining(n, C) - 1
  {
    if v == n - 1 {
      RemainingAbove(n - 1, C, v);
    } else {
      RemainingShrinks(n - 1, C, v);
    }
  }

  /** Whether the neighbour step for y at cost nc changes the open list. */
  predicate Improves(open: seq<Node>, y: int, nc: real) {
    var j := Find(open, y);
    j == -1 || open[j].cost > nc
  }

  /**
   The neighbour step for an unclosed cell y reached at cost nc: a new entry
   when y is not open, a lowered entry when nc is strictly smaller, and
   otherwise no change.
   */
  function Relax(open: seq<Node>, y: int, nc: real): seq<Node> {
    var j := Find(open, y);
    if j == -1 then open + [Node(y, nc)]
    else if open[j].cost > nc then open[j := Node(y, nc)]
    else open
  }

  /**
   `generateHeatMap`: the propagation from target t over the graph G of a
   map with n cells. Returns the cost of every cell and the closed list,
   which is the reached cells in closing order.
   */
  method GenerateHeatMap(G: Graph, n: nat, t: int) returns (cost: seq<real>, order: seq<int>)
    requires WellKeyed(G, n) && NonNegative(G) && 0 <= t < n
    ensures HeatSpec(G, n, t, cost)
    ensures forall x :: x in order <==> 0 <= x < n && Reachable(G, t, x)
    ensures forall i :: 0 <= i < |order| ==> 0 <= order[i] < n
    ensures forall i, j :: 0 <= i < j < |order| ==> order[i] != order[j]
    ensures |order| > 0 && order[0] == t
    ensures forall i, j :: 0 <= i < j < |order| ==> cost[order[i]] <= cost[order[j]]
  {
    cost := seq(n, _ => -1.0);
    order := [];
    var open := [Node(t, 0.0)];
    var C: set<int> := {};
    ghost var W: map<int, seq<int>> := map[t := [t]];
    Start(G, n, t, cost, W);
    while open != []
      invariant Inv(G, n, t, open, C, cost, W, order)
      decreases Remaining(n, C)
    {
      var k := FirstMin(open);
      var v, c := open[k].index, open[k].cost;
      ghost var open0, C0, cost0, order0 := open, C, cost, order;
      open := open[..k] + open[k + 1..];
      C := C + {v};
      cost := cost[v := c];
      order := order + [v];
      CloseStep(G, n, t, open0, C0, cost0, W, order0, k, open, C, cost, order);
      RemainingShrinks(n, C0, v);
      open, W := RelaxNeighbors(G, n, t, open, C, cost, W, order, v, c);
    }
    Finish(G, n, t, C, cost, W);
    FinishOrder(n, t, C, cost, order);
  }

  /**
   The neighbour loop of the cell v just closed at cost c. The neighbours are
   visited in ascending index order, which is the order `generateHeatMap`'s
   `for ... in` loop visits the integer keys of the neighbour table.
   */
  method RelaxNeighbors(G: Graph, n: nat, t: int, open0: seq<Node>, C: set<int>, cost: seq<real>,
                        ghost W0: map<int, seq<int>>, ghost order: seq<int>, v: int, c: real)
    returns (open: seq<Node>, ghost W: map<int, seq<int>>)
    requires WellKeyed(G, n) && NonNegative(G)
    requires RelaxInv(G, n, t, open0, C, cost, W0, v, c, 0) && OrderOk(t, order, C, cost)
    ensures Inv(G, n, t, open, C, cost, W, order)
    ensures DoneOk(G, open, C, v, c, n) && AtLeast(open, c)
    ensures forall i :: 0 <= i < |open| ==> 0 <= open[i].index < n && open[i].index !in C
  {
    open, W := open0, W0;
    var nb: Edges := if v in G then G[v] else map[];
    var y := 0;
    while y < n
      invariant 0 <= y <= n
      invariant RelaxInv(G, n, t, open, C, cost, W, v, c, y)
    {
      if y in nb && y !in C {
        assert HasEdge(G, v, y);
        var nc := c + G[v][y];
        var open' := Relax(open, y, nc);
        ghost var W' := if Improves(open, y, nc) then W[y := W[v] + [y]] else W;
        RelaxUnclosed(G, n, t, open, C, cost, W, v, c, y, y, nc, open', W');
        open, W := open', W';
      } else {
        RelaxSkip(G, n, t, open, C, cost, W, v, c, y, y);
      }
      y := y + 1;
    }
    RelaxDone(G, n, t, open, C, cost, W, order, v, c, n);
  }

  lemma Start(G: Graph, n: nat, t: int, cost: seq<real>, W: map<int, seq<int>>)
    requires 0 <= t < n && cost == seq(n, _ => -1.0) && W == map[t := [t]]
    ensures Inv(G, n, t, [Node(t, 0.0)], {}, cost, W, [])
  {
    assert IsWalkFrom(G, [t], t, t);
  }

  /**
   The key step: when k is the first least open entry, its cost is the
   distance of its cell, and closing it keeps every part of the invariant
   except the frontier of the cell itself.
   */
  lemma CloseStep(G: Graph, n: nat, t: int, open: seq<Node>, C: set<int>, cost: seq<real>,
                  W: map<int, seq<int>>, order: seq<int>, k: nat,
                  open': seq<Node>, C': set<int>, cost': seq<real>, order': seq<int>)
    requires WellKeyed(G, n) && NonNegative(G) && 0 <= t < n
    requires Inv(G, n, t, open, C, cost, W, order) && |open| > 0 && k == FirstMin(open)
    requires open' == open[..k] + open[k + 1..] && C' == C + {open[k].index}
    requires cost' == cost[open[k].index := open[k].cost] && order' == order + [open[k].index]
    ensures RelaxInv(G, n, t, open', C', cost', W, open[k].index, open[k].cost, 0)
    ensures OrderOk(t, order', C', cost')
    ensures 0 <= open[k].index < n && open[k].index !in C
  {
    CloseOptimal(G, n, t, open, C, cost, W, order, k);
    CloseOpen(G, n, t, open, C, W, k);
    CloseClosed(G, n, t, open, C, cost, W, k);
    CloseFrontier(G, n, t, open, C, cost, W, k);
    CloseOrder(n, t, open, C, cost, order, k);
    CloseBounds(n, open, C, cost, k);
  }

  lemma CloseOpen(G: Graph, n: nat, t: int, open: seq<Node>, C: set<int>, W: map<int, seq<int>>, k: nat)
    requires OpenOk(G, n, t, open, C, W) && k < |open|
    ensures OpenOk(G, n, t, open[..k] + open[k + 1..], C + {open[k].index}, W)
  {
    var open' := open[..k] + open[k + 1..];
    assert forall i :: 0 <= i < |open'| ==> open'[i] == open[if i < k then i else i + 1];
  }

  lemma CloseClosed(G: Graph, n: nat, t: int, open: seq<Node>, C: set<int>, cost: seq<real>,
                    W: map<int, seq<int>>, k: nat)
    requires OpenOk(G, n, t, open, C, W) && ClosedOk(G, n, t, C, cost, W) && k < |open|
    requires Optimal(G, t, open[k].index, open[k].cost)
    ensures ClosedOk(G, n, t, C + {open[k].index}, cost[open[k].index := open[k].cost], W)
  {
  }

  lemma CloseFrontier(G: Graph, n: nat, t: int, open: seq<Node>, C: set<int>, cost: seq<real>,
                      W: map<int, seq<int>>, k: nat)
    requires OpenOk(G, n, t, open, C, W) && |cost| == n && Frontier(G, open, C, cost, -1) && k < |open|
    ensures var v := open[k].index;
      Frontier(G, open[..k] + open[k + 1..], C + {v}, cost[v := open[k].cost], v)
  {
    var v, c := open[k].index, open[k].cost;
    var open', C', cost' := open[..k] + open[k + 1..], C + {v}, cost[v := c];
    forall u, y | u in C' && u != v && 0 <= u < |cost'| && HasEdge(G, u, y) && y !in C'
      ensures InOpenWithin(open', y, cost'[u] + G[u][y])
    {
      assert InOpenWithin(open, y, cost[u] + G[u][y]);
      var i :| 0 <= i < |open| && open[i].index == y && open[i].cost <= cost[u] + G[u][y];
      assert i != k;
      assert open'[if i < k then i else i - 1] == open[i];
    }
  }

  lemma CloseOrder(n: nat, t: int, open: seq<Node>, C: set<int>, cost: seq<real>, order: seq<int>, k: nat)
    requires k < |open| && |cost| == n && (forall u :: u in C ==> 0 <= u < n) && 0 <= open[k].index < n
    requires OrderOk(t, order, C, cost) && Ordered(open, C, cost) && Started(t, open, C)
    requires open[k].index !in C
    ensures var v := open[k].index;
      OrderOk(t, order + [v], C + {v}, cost[v := open[k].cost])
  {
    var v, c := open[k].index, open[k].cost;
    var order', cost' := order + [v], cost[v := c];
    assert forall i :: 0 <= i < |order| ==> order'[i] == order[i] && order[i] in C && order[i] != v;
    assert forall i :: 0 <= i < |order| ==> cost'[order[i]] == cost[order[i]] <= c;
    if order == [] {
      assert C == {};
    }
  }

  lemma CloseBounds(n: nat, open: seq<Node>, C: set<int>, cost: seq<real>, k: nat)
    requires |cost| == n && (forall u :: u in C ==> 0 <= u < n) && Ordered(open, C, cost)
    requires k < |open| && open[k].index !in C && 0 <= open[k].index < n
    requires forall j :: 0 <= j < |open| ==> open[k].cost <= open[j].cost
    ensures var v, c := open[k].index, open[k].cost;
      && AtLeast(open[..k] + open[k + 1..], c)
      && (forall u :: u in C + {v} ==> cost[v := c][u] <= c)
  {
    var v, c := open[k].index, open[k].cost;
    var open' := open[..k] + open[k + 1..];
    assert forall i :: 0 <= i < |open'| ==> open'[i] == open[if i < k then i else i + 1];
  }

  /** The selected entry's cost is its cell's distance. */
  lemma CloseOptimal(G: Graph, n: nat, t: int, open: seq<Node>, C: set<int>, cost: seq<real>,
                     W: map<int, seq<int>>, order: seq<int>, k: nat)
    requires WellKeyed(G, n) && NonNegative(G) && 0 <= t < n
    requires Inv(G, n, t, open, C, cost, W, order) && |open| > 0 && k == FirstMin(open)
    ensures Optimal(G, t, open[k].index, open[k].cost)
  {
    var v, c := open[k].index, open[k].cost;
    forall w | IsWalkFrom(G, w, t, v)
      ensures c <= WalkLen(G, w)
    {
      if C == {} {
        WalkLenNonNegative(G, w);
      } else {
        LowerBound(G, n, t, open, C, cost, W, w, c);
      }
    }
  }

  /**
   A walk from the target that leaves the closed cells is no shorter than
   any open entry's cost bound c: the first edge out of the closed cells
   already ends at an open entry no cheaper than c.
   */
  lemma {:induction false} LowerBound(G: Graph, n: nat, t: int, open: seq<Node>, C: set<int>, cost: seq<real>,
                                      W: map<int, seq<int>>, w: seq<int>, c: real)
    requires NonNegative(G) && ClosedOk(G, n, t, C, cost, W) && Frontier(G, open, C, cost, -1)
    requires AtLeast(open, c)
    requires IsWalk(G, w) && w[0] == t && t in C && w[|w| - 1] !in C
    ensures c <= WalkLen(G, w)
    decreases |w|
  {
    WalkPrefix(G, w);
    var pre := w[..|w| - 1];
    var u, y := w[|w| - 2], w[|w| - 1];
    if u in C {
      assert IsWalkFrom(G, pre, t, u);
      assert cost[u] <= WalkLen(G, pre);
      assert InOpenWithin(open, y, cost[u] + G[u][y]);
    } else {
      LowerBound(G, n, t, open, C, cost, W, pre, c);
    }
  }

  /** Frontier and handled-neighbour facts survive any step that keeps every open entry or lowers it. */
  lemma KeepFacts(G: Graph, open: seq<Node>, open2: seq<Node>, C: set<int>, cost: seq<real>,
                  v: int, c: real, done: int)
    requires Dominated(open, open2)
    requires Frontier(G, open, C, cost, v) && DoneOk(G, open, C, v, c, done)
    ensures Frontier(G, open2, C, cost, v) && DoneOk(G, open2, C, v, c, done)
  {
  }

  /** Changing the walk of an unclosed cell leaves the closed cells' facts alone. */
  lemma ClosedKeepsWalks(G: Graph, n: int, t: int, C: set<int>, cost: seq<real>, W: map<int, seq<int>>,
                         y: int, s: seq<int>)
    requires ClosedOk(G, n, t, C, cost, W) && y !in C
    ensures ClosedOk(G, n, t, C, cost, W[y := s])
  {
    forall v | 0 <= v < n && v in C
      ensures Witness(G, t, W[y := s], v, cost[v])
    {
      assert W[y := s][v] == W[v];
    }
  }

  /** The walk to v extended by the edge to y witnesses cost c + G[v][y]. */
  lemma ExtendWitness(G: Graph, n: int, t: int, C: set<int>, cost: seq<real>, W: map<int, seq<int>>,
                      v: int, c: real, y: int)
    requires ClosedOk(G, n, t, C, cost, W) && v in C && cost[v] == c && HasEdge(G, v, y)
    ensures Witness(G, t, W[y := W[v] + [y]], y, c + G[v][y])
  {
    WalkAppend(G, W[v], y);
  }

  /** The neighbour step for an unclosed neighbour y keeps the neighbour loop's invariant, with y handled. */
  lemma RelaxUnclosed(G: Graph, n: nat, t: int, open: seq<Node>, C: set<int>, cost: seq<real>,
                      W: map<int, seq<int>>, v: int, c: real, done: int, y: int, nc: real,
                      open': seq<Node>, W': map<int, seq<int>>)
    requires WellKeyed(G, n) && NonNegative(G)
    requires RelaxInv(G, n, t, open, C, cost, W, v, c, done)
    requires HasEdge(G, v, y) && y !in C && y == done && nc == c + G[v][y]
    requires open' == Relax(open, y, nc)
    requires W' == if Improves(open, y, nc) then W[y := W[v] + [y]] else W
    ensures RelaxInv(G, n, t, open', C, cost, W', v, c, y + 1)
  {
    assert 0 <= y < n && nc >= c;
    RelaxWalks(G, n, t, open, C, cost, W, v, c, y, nc, open', W');
    RelaxFrontier(G, open, C, cost, v, c, done, y, nc, open');
  }

  /** The step keeps the walks that witness every open and closed cost. */
  lemma RelaxWalks(G: Graph, n: nat, t: int, open: seq<Node>, C: set<int>, cost: seq<real>,
                   W: map<int, seq<int>>, v: int, c: real, y: int, nc: real,
                   open': seq<Node>, W': map<int, seq<int>>)
    requires 0 <= y < n && NonNegative(G)
    requires OpenOk(G, n, t, open, C, W) && ClosedOk(G, n, t, C, cost, W) && v in C && cost[v] == c
    requires HasEdge(G, v, y) && y !in C && nc == c + G[v][y]
    requires open' == Relax(open, y, nc)
    requires W' == if Improves(open, y, nc) then W[y := W[v] + [y]] else W
    ensures OpenOk(G, n, t, open', C, W') && ClosedOk(G, n, t, C, cost, W')
  {
    RelaxOpenOk(G, n, t, open, C, cost, W, v, c, y, nc);
    if Improves(open, y, nc) {
      ClosedKeepsWalks(G, n, t, C, cost, W, y, W[v] + [y]);
    }
  }

  /** The step keeps the frontier, marks y handled, and opens nothing cheaper than c. */
  lemma RelaxFrontier(G: Graph, open: seq<Node>, C: set<int>, cost: seq<real>,
                      v: int, c: real, done: int, y: int, nc: real, open': seq<Node>)
    requires Frontier(G, open, C, cost, v) && DoneOk(G, open, C, v, c, done) && AtLeast(open, c)
    requires HasEdge(G, v, y) && y == done && nc == c + G[v][y] && c <= nc
    requires open' == Relax(open, y, nc)
    ensures Frontier(G, open', C, cost, v) && DoneOk(G, open', C, v, c, y + 1) && AtLeast(open', c)
  {
    RelaxDominates(open, y, nc);
    KeepFacts(G, open, open', C, cost, v, c, done);
    RelaxReaches(open, y, nc);
    DoneAdd(G, open', C, v, c, done, y);
    RelaxAtLeast(open, y, nc, c);
  }

  /** Handling y, once y is open no dearer than through v. */
  lemma DoneAdd(G: Graph, open: seq<Node>, C: set<int>, v: int, c: real, done: int, y: int)
    requires DoneOk(G, open, C, v, c, done) && y == done && HasEdge(G, v, y) && InOpenWithin(open, y, c + G[v][y])
    ensures DoneOk(G, open, C, v, c, y + 1)
  {
  }

  /** The open list after the step still holds distinct unclosed cells, each with a walk of its cost. */
  lemma RelaxOpenOk(G: Graph, n: nat, t: int, open: seq<Node>, C: set<int>, cost: seq<real>,
                    W: map<int, seq<int>>, v: int, c: real, y: int, nc: real)
    requires 0 <= y < n && NonNegative(G)
    requires OpenOk(G, n, t, open, C, W) && ClosedOk(G, n, t, C, cost, W) && v in C && cost[v] == c
    requires HasEdge(G, v, y) && y !in C && nc == c + G[v][y]
    ensures OpenOk(G, n, t, Relax(open, y, nc), C, if Improves(open, y, nc) then W[y := W[v] + [y]] else W)
  {
    var j := Find(open, y);
    if j == -1 {
      RelaxOpenAppend(G, n, t, open, C, cost, W, v, c, y, nc);
      assert Improves(open, y, nc);
    } else if open[j].cost > nc {
      RelaxOpenLower(G, n, t, open, C, cost, W, v, c, y, nc);
      assert Improves(open, y, nc);
    } else {
      assert !Improves(open, y, nc) && Relax(open, y, nc) == open;
    }
  }

  lemma RelaxOpenAppend(G: Graph, n: nat, t: int, open: seq<Node>, C: set<int>, cost: seq<real>,
                        W: map<int, seq<int>>, v: int, c: real, y: int, nc: real)
    requires 0 <= y < n && NonNegative(G)
    requires OpenOk(G, n, t, open, C, W) && ClosedOk(G, n, t, C, cost, W) && v in C && cost[v] == c
    requires HasEdge(G, v, y) && y !in C && Find(open, y) == -1 && nc == c + G[v][y]
    ensures OpenOk(G, n, t, Relax(open, y, nc), C, W[y := W[v] + [y]])
  {
    ExtendWitness(G, n, t, C, cost, W, v, c, y);
    AppendOpen(G, n, t, open, C, W, y, nc, W[v] + [y]);
  }

  lemma RelaxOpenLower(G: Graph, n: nat, t: int, open: seq<Node>, C: set<int>, cost: seq<real>,
                       W: map<int, seq<int>>, v: int, c: real, y: int, nc: real)
    requires 0 <= y < n && NonNegative(G)
    requires OpenOk(G, n, t, open, C, W) && ClosedOk(G, n, t, C, cost, W) && v in C && cost[v] == c
    requires HasEdge(G, v, y) && y !in C && nc == c + G[v][y]
    requires Find(open, y) != -1 && open[Find(open, y)].cost > nc
    ensures OpenOk(G, n, t, Relax(open, y, nc), C, W[y := W[v] + [y]])
  {
    ExtendWitness(G, n, t, C, cost, W, v, c, y);
    LowerOpen(G, n, t, open, C, W, y, nc, W[v] + [y], Find(open, y));
  }

  lemma AppendOpen(G: Graph, n: int, t: int, open: seq<Node>, C: set<int>, W: map<int, seq<int>>,
                   y: int, nc: real, s: seq<int>)
    requires OpenOk(G, n, t, open, C, W) && Find(open, y) == -1
    requires 0 <= y < n && y !in C && nc >= 0.0 && Witness(G, t, W[y := s], y, nc)
    ensures OpenOk(G, n, t, Relax(open, y, nc), C, W[y := s])
  {
    var open' := Relax(open, y, nc);
    assert |open'| == |open| + 1 && open'[|open|] == Node(y, nc);
    forall i | 0 <= i < |open|
      ensures Witness(G, t, W[y := s], open'[i].index, open'[i].cost)
    {
      assert open'[i] == open[i];
      assert W[y := s][open[i].index] == W[open[i].index];
    }
  }

  lemma LowerOpen(G: Graph, n: int, t: int, open: seq<Node>, C: set<int>, W: map<int, seq<int>>,
                  y: int, nc: real, s: seq<int>, j: int)
    requires OpenOk(G, n, t, open, C, W) && j == Find(open, y) && j != -1 && open[j].cost > nc
    requires nc >= 0.0 && Witness(G, t, W[y := s], y, nc)
    ensures OpenOk(G, n, t, Relax(open, y, nc), C, W[y := s])
  {
    var open' := Relax(open, y, nc);
    assert |open'| == |open| && open'[j] == Node(y, nc);
    forall i | 0 <= i < |open| && i != j
      ensures Witness(G, t, W[y := s], open'[i].index, open'[i].cost)
    {
      assert open'[i] == open[i];
      assert W[y := s][open[i].index] == W[open[i].index];
    }
  }

  /** The step keeps every open entry or lowers it. */
  lemma RelaxDominates(open: seq<Node>, y: int, nc: real)
    ensures Dominated(open, Relax(open, y, nc))
  {
    var open' := Relax(open, y, nc);
    var j := Find(open, y);
    forall z, b | InOpenWithin(open, z, b)
      ensures InOpenWithin(open', z, b)
    {
      var i :| 0 <= i < |open| && open[i].index == z && open[i].cost <= b;
      assert open'[i].index == z && open'[i].cost <= b;
    }
  }

  /** After the step, y is open at cost nc or less. */
  lemma RelaxReaches(open: seq<Node>, y: int, nc: real)
    ensures InOpenWithin(Relax(open, y, nc), y, nc)
  {
    var open' := Relax(open, y, nc);
    var j := Find(open, y);
    if j == -1 {
      assert open'[|open|] == Node(y, nc);
    } else {
      assert open'[j].index == y && open'[j].cost <= nc;
    }
  }

  lemma RelaxAtLeast(open: seq<Node>, y: int, nc: real, c: real)
    requires AtLeast(open, c) && c <= nc
    ensures AtLeast(Relax(open, y, nc), c)
  {
  }

  /** A cell that is no neighbour of v, or is closed already, is skipped. */
  lemma RelaxSkip(G: Graph, n: nat, t: int, open: seq<Node>, C: set<int>, cost: seq<real>,
                  W: map<int, seq<int>>, v: int, c: real, done: int, y: int)
    requires RelaxInv(G, n, t, open, C, cost, W, v, c, done) && y == done && (y in C || !HasEdge(G, v, y))
    ensures RelaxInv(G, n, t, open, C, cost, W, v, c, y + 1)
  {
  }

  /** Once every neighbour of v is handled, the outer invariant holds again. */
  lemma RelaxDone(G: Graph, n: nat, t: int, open: seq<Node>, C: set<int>, cost: seq<real>,
                  W: map<int, seq<int>>, order: seq<int>, v: int, c: real, done: int)
    requires RelaxInv(G, n, t, open, C, cost, W, v, c, done) && OrderOk(t, order, C, cost)
    requires WellKeyed(G, n) && done == n
    ensures Inv(G, n, t, open, C, cost, W, order)
  {
  }

  /** With the open list empty, the closed cells are exactly the reached ones. */
  lemma Finish(G: Graph, n: nat, t: int, C: set<int>, cost: seq<real>, W: map<int, seq<int>>)
    requires ClosedOk(G, n, t, C, cost, W) && Frontier(G, [], C, cost, -1) && t in C
    ensures HeatSpec(G, n, t, cost)
    ensures forall x :: x in C <==> 0 <= x < n && Reachable(G, t, x)
  {
    forall v | 0 <= v < n
      ensures v in C <==> Reachable(G, t, v)
    {
      if v in C {
        assert IsWalkFrom(G, W[v], t, v);
      }
      if Reachable(G, t, v) {
        var w :| IsWalkFrom(G, w, t, v);
        NoEscape(G, n, C, cost, w);
      }
    }
  }

  lemma FinishOrder(n: nat, t: int, C: set<int>, cost: seq<real>, order: seq<int>)
    requires OrderOk(t, order, C, cost) && t in C && |cost| == n && forall x :: x in C ==> 0 <= x < n
    ensures forall i :: 0 <= i < |order| ==> 0 <= order[i] < n
    ensures |order| > 0 && order[0] == t
    ensures forall i, j :: 0 <= i < j < |order| ==> cost[order[i]] <= cost[order[j]]
  {
    assert forall i :: 0 <= i < |order| ==> order[i] in C;
  }

  /** A walk that starts among closed cells stays there when no edge leaves them. */
  lemma {:induction false} NoEscape(G: Graph, n: nat, C: set<int>, cost: seq<real>, w: seq<int>)
    requires |cost| == n && (forall v :: v in C ==> 0 <= v < n) && Frontier(G, [], C, cost, -1)
    requires IsWalk(G, w) && w[0] in C
    ensures w[|w| - 1] in C
    decreases |w|
  {
    if |w| > 1 {
      WalkPrefix(G, w);
      NoEscape(G, n, C, cost, w[..|w| - 1]);
      var u, y := w[|w| - 2], w[|w| - 1];
      assert !InOpenWithin([], y, cost[u] + G[u][y]);
    }
  }
}
