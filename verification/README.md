# Grid flow-field pathfinder, modelled in Dafny

This project models the grid pathfinder `RTS.PathFinder.Dijkstra` of a
Cocos Creator RTS demo, together with the segment geometry it relies on.
The pathfinder takes a rectangular map whose cells are `Path` or `Terrain`.
It builds a weighted graph once: either the dense graph of all walkable
cells, or, in the optimised mode, a sparse graph over "keypoints" (cells at
convex obstacle corners) linked when they see each other. On every
`update(target)` it does four things:

- it moves the transient target node in the graph;
- it propagates costs outward from the target, Dijkstra-style;
- in the optimised mode only, it fixes up the cells outside the graph;
- it builds the vector map, which gives every cell the cell it steps to next.

The modules follow the program's parts:

| file | module | models |
|---|---|---|
| grid.dfy | `GridMap` | cells, index/position conversion, `getGridDis`, `Axis8` neighbours, `isNarrowCorner` |
| geometry.dfy | `Geometry` | `intersectionLineLine`, `intersectionLineRect` |
| segments.dfy | `Segments` | `generateSegments` (horizontal then vertical merging), `segments2rect` |
| visibility.dfy | `Visibility` | `isConnect` (centre line, bounding-box pre-filter, corner probes 1..3) |
| keypoints.dfy | `Keypoints` | `generateKeypoints` |
| graph.dfy | `Graphs` | `createGraphByGrids`, `createGraphByPoints`, `updateGraphPoint`, `addGraphElement`, `delGraphElement` |
| heatmap.dfy | `HeatMap` | `generateHeatMap` (linear-scan open list) |
| flowfield.dfy | `FlowField` | `getNearestPoint`, `fixupHeatMap`, `createVectorMap` |
| pathfinder.dfy | `PathFinder` | the constructor with `generateGraph`, and `update` |

Modelling choices:

- The graph is a `map<int, map<int, real>>` keyed by cell index.
- All arithmetic uses `real`. The constants 0.5, 0.4 and 0.0001 are exact rationals.
- A pathfinder is an immutable `Finder` value, and `update` returns the new value together with the cell fields it computed:
  - `cost`;
  - the direct-sight flag `isConnectTarget`;
  - the next step `prev`.
- `generateHeatMap` and `createVectorMap` loop over the integer keys of a neighbour table with `for ... in`, which visits the keys in ascending order. The model scans the indices in ascending order.
- The check `!neighbors || neighbors.length` in `generateHeatMap` reduces to `!neighbors`, because `.length` of an object is undefined. A closed cell without a graph entry simply has no neighbours.
- `isConnect(p, p)` is always true, because the degenerate probes have a zero denominator. So every keypoint has a zero-weight self link, and the keys of the sparse graph are exactly the keypoints (`Graphs.SparseGraphKeys`).
- The application's target selection rejects terrain cells (assets/Script/Editor/SceneEditor.ts:246-251). The model adopts this as a precondition: `PathFinder.Update` requires a walkable target. `update` itself does not check it (see "## Left out").
- Keypoint extraction reads the last in-bounds neighbour of every walkable cell. On a map whose only cell is walkable there is no such neighbour and `generateKeypoints` fails. `Keypoints.Scannable` excludes that map.

Behaviours of the code that the model keeps as they are:

- **Keypoints.** The count of terrain neighbours is seeded from the last in-bounds neighbour only. So a terrain run that wraps around the end of the neighbour list is judged from that one neighbour (`Keypoints.SeedQuirkExample`).
- **Fixup coverage.** The fixup visits every walkable cell whose cost is still negative. That includes graph keys the propagation did not reach, not only cells outside the graph.
- **Unreached keypoints in `getNearestPoint`.** A near keypoint whose cost is still -1 takes part in the minimum like any other. Its total is then its cached distance minus 1. When that distance is 1, the cell ends up with cost 0, and `createVectorMap` skips it like the target, so it gets no `prev`. `PathFinder.OtherCellsNearest` therefore promises the step to the nearest point only for cells whose cost is not 0.
- **Collinear segments.** `intersectionLineLine` reports no intersection for parallel or collinear segments, even overlapping ones (`Geometry.CollinearOverlapNotReported`).

## Model

| member | source | states |
|---|---|---|
| GridMap.Index | assets/Script/Utils/MapUtils.ts:141-143 | the index `y*width + x` of an in-bounds position lies in [0, width*height) |
| GridMap.Position | assets/Script/Utils/MapUtils.ts:146-150 | the position of index i has x in [0, width), converts back to i, and is in bounds when i < width*height |
| GridMap.PositionIndexRoundTrip | assets/Script/Utils/MapUtils.ts:141-150 | position(index(p)) == p for every in-bounds p |
| GridMap.IndexPositionRoundTrip | assets/Script/Utils/MapUtils.ts:141-150 | index(position(i)) == i, and the position is in bounds, for every 0 <= i < width*height |
| GridMap.IndexInjective | assets/Script/Utils/MapUtils.ts:141-143 | two in-bounds positions with the same index are the same position |
| GridMap.GridDis | assets/Script/Utils/MapUtils.ts:504-513 | the distance lies between the larger axis difference and the Manhattan distance |
| GridMap.GridDisSymmetric | assets/Script/Utils/MapUtils.ts:504-513 | getGridDis(p, q) == getGridDis(q, p) |
| GridMap.GridDisZeroIffSame | assets/Script/Utils/MapUtils.ts:504-513 | the distance is non-negative, zero exactly for the same cell, and at least 1 otherwise |
| GridMap.GridDisOrthogonalStep | assets/Script/Utils/MapUtils.ts:504-513 | an orthogonal step costs exactly 1 |
| GridMap.GridDisDiagonalStep | assets/Script/Utils/MapUtils.ts:504-513 | a diagonal step costs 2 - 0.0001, strictly less than two orthogonal steps |
| GridMap.Axis8Complete | assets/Script/Utils/MapUtils.ts:68-77 | the eight Axis8 offsets are exactly the offsets to the eight surrounding cells |
| GridMap.Neighbors | assets/Script/Utils/MapUtils.ts:637-647 | getAxisNeighbors(p, Axis8) holds exactly the in-bounds 8-neighbours of p, each once, at most eight |
| GridMap.NeighborsInAxis8Order | assets/Script/Utils/MapUtils.ts:637-647 | the neighbours are listed in `Axis8` order: each lies at an `Axis8` offset from p, and those offsets come strictly later in `Axis8` along the list |
| GridMap.NeighborsFromMember | assets/Script/Utils/MapUtils.ts:637-647 | the loop from offset k keeps exactly the in-bounds cells whose offset is among Axis8[k..] |
| GridMap.NeighborsFromDistinct | assets/Script/Utils/MapUtils.ts:637-647 | the loop never yields the same cell twice |
| GridMap.NeighborsSymmetric | assets/Script/Utils/MapUtils.ts:637-647 | q is a neighbour of p exactly when p is a neighbour of q |
| GridMap.IsNarrowCorner | assets/Script/Utils/MapUtils.ts:516-531 | `isNarrowCorner` itself: a move is narrow when it is diagonal and one of the two cells it squeezes between is terrain. GridMap.NarrowCornerSymmetric states that it is symmetric, and Graphs.DenseGraphEdges that a narrow move gets no dense link |
| GridMap.NarrowCornerSymmetric | assets/Script/Utils/MapUtils.ts:516-531 | a move cuts a narrow corner exactly when the reverse move does |
| Geometry.IntersectLineLine | assets/Script/Utils/MapUtils.ts:112-128 | a zero denominator gives false; true implies the closed segments share a point; non-parallel segments that share a point give true |
| Geometry.ParametersSolve | assets/Script/Utils/MapUtils.ts:113-120 | with a non-zero denominator, the parameters ua_t/u_b and ub_t/u_b name the same point on both lines |
| Geometry.ParametersUnique | assets/Script/Utils/MapUtils.ts:113-120 | with a non-zero denominator, every common point of the two lines has exactly those parameters |
| Geometry.CollinearOverlapNotReported | assets/Script/Utils/MiscUtils.ts:62-77 | two overlapping collinear segments share a point but are reported as not intersecting |
| Geometry.MeetSwap | assets/Script/Utils/MiscUtils.ts:61-77 | two segments share a point regardless of which is given first |
| Geometry.LineLineSwap | assets/Script/Utils/MiscUtils.ts:61-77 | the answer is the same when the two segments are swapped |
| Geometry.LineLineReverseFirst | assets/Script/Utils/MiscUtils.ts:61-77 | the answer is the same when the first segment's ends are reversed |
| Geometry.LineLineReverseSecond | assets/Script/Utils/MiscUtils.ts:61-77 | the answer is the same when the second segment's ends are reversed |
| Geometry.IntersectLineRect | assets/Script/Utils/MapUtils.ts:86-109 | true exactly when the segment crosses one of the four edges (x,y)-(x,yMax), (x,yMax)-(xMax,yMax), (xMax,yMax)-(xMax,y), (xMax,y)-(x,y) |
| Geometry.LineRectReverse | assets/Script/Utils/MiscUtils.ts:35-58 | reversing the segment does not change the answer |
| Geometry.SegmentInsideRectNotReported | assets/Script/Utils/MiscUtils.ts:35-58 | a segment strictly inside the rectangle is reported as not intersecting |
| Geometry.CrossingOverlapsBox | assets/Script/Utils/MapUtils.ts:573-589 | a segment that crosses a rectangle's edge overlaps the rectangle on both axes, so the bounding-box pre-filter only skips rectangles the centre line cannot cross |
| Segments.RunEnd | assets/Script/Utils/MapUtils.ts:706-718 | the inner loop stops at the last cell of the maximal run of terrain cells starting at i |
| Segments.Runs | assets/Script/Utils/MapUtils.ts:695-728 | the runs found along a line are maximal, separated, and cover a cell exactly when it lies in a run of length at least 2 |
| Segments.RowSegmentsSpec | assets/Script/Utils/MapUtils.ts:695-728 | the horizontal segments of a row are exactly its maximal runs of two or more terrain cells: each segment spans one such run from its first to its last cell, every such run yields a segment, and the segments go left to right with a gap between neighbours |
| Segments.ColSegmentsSpec | assets/Script/Utils/MapUtils.ts:731-763 | the vertical segments of a column are exactly its maximal runs of two or more terrain cells not used by a horizontal segment: each segment spans one such run, every such run yields a segment, and the segments go bottom to top with a gap between neighbours |
| Segments.HorizontalFrom | assets/Script/Utils/MapUtils.ts:695-728 | the horizontal pass yields exactly the segments of the rows it visits |
| Segments.VerticalFrom | assets/Script/Utils/MapUtils.ts:731-763 | the vertical pass yields exactly the segments of the columns it visits |
| Segments.HUsedIffOnHorizontal | assets/Script/Utils/MapUtils.ts:701-713 | after the horizontal pass a cell is marked tmpUsed exactly when it lies on a horizontal segment |
| Segments.RowSegmentWellFormed | assets/Script/Utils/MapUtils.ts:703-725 | a horizontal segment has two distinct in-bounds terrain endpoints in one row, with only terrain between them |
| Segments.ColSegmentWellFormed | assets/Script/Utils/MapUtils.ts:738-760 | a vertical segment has two distinct in-bounds terrain endpoints in one column, with only terrain cells not used by a horizontal segment between them |
| Segments.GenerateSegments | assets/Script/Utils/MapUtils.ts:690-766 | every segment is well formed; no cell lies on both a horizontal and a vertical segment; a cell with no terrain 4-neighbour lies on no segment |
| Segments.CoveredIffInLongRun | assets/Script/Utils/MapUtils.ts:690-766 | a cell lies on some segment exactly when it is in a horizontal or vertical run of at least two terrain cells, so an isolated terrain cell yields no segment |
| Segments.SegmentsToRects | assets/Script/Utils/MapUtils.ts:491-501 | one rectangle per segment, in order; a cell's unit square lies inside the k-th rectangle exactly when the cell lies between the k-th segment's two ends on both axes |
| Segments.SegmentRectCoversItsCells | assets/Script/Utils/MapUtils.ts:491-501 | a segment's rectangle is at least one cell wide and high, and a unit cell lies inside it exactly when the cell is on the segment |
| Visibility.IsConnect | assets/Script/Utils/MapUtils.ts:562-634 | two cells see each other exactly when no rectangle both survives the bounding-box pre-filter and is crossed by the centre line or by corner probe 1, 2 or 3 |
| Visibility.IsConnectSymmetric | assets/Script/Utils/MapUtils.ts:562-634 | p sees q exactly when q sees p |
| Visibility.IsConnectSelf | assets/Script/Utils/MapUtils.ts:562-634 | every cell sees itself, whatever the rectangles |
| Visibility.PointCrossesNoRect | assets/Script/Utils/MapUtils.ts:112-128 | a segment of zero length crosses no rectangle |
| Visibility.CentreCrossingBlocks | assets/Script/Utils/MapUtils.ts:591-631 | if the centre line crosses a rectangle, the two cells do not see each other |
| Keypoints.CountAtIsOne | assets/Script/Utils/MapUtils.ts:660-677 | the running count is 1 at a neighbour exactly when that neighbour follows a single terrain neighbour, the first neighbour being judged from the last one alone |
| Keypoints.Scan | assets/Script/Utils/MapUtils.ts:664-678 | the neighbour loop of `generateKeypoints` with its running count and flag. Keypoints.CountAtIsOne and Keypoints.ScanFinds state what it computes |
| Keypoints.ScanFinds | assets/Script/Utils/MapUtils.ts:664-678 | the neighbour loop reports an isolated corner exactly when some later orthogonal walkable neighbour has count 1 |
| Keypoints.IsKeypoint | assets/Script/Utils/MapUtils.ts:655-678 | the per-cell test of `generateKeypoints`: a walkable cell whose neighbour loop sets the flag. Keypoints.KeypointCharacterization states it without the loop |
| Keypoints.KeypointCharacterization | assets/Script/Utils/MapUtils.ts:651-687 | a cell is a keypoint exactly when it is walkable and an orthogonal walkable neighbour follows a single terrain neighbour |
| Keypoints.SeedQuirkExample | assets/Script/Utils/MapUtils.ts:660-663 | on a 3x2 map the count carried over from the last neighbour makes a cell a keypoint |
| Keypoints.FirstAfterLastTerrain | assets/Script/Utils/MapUtils.ts:660-675 | a walkable cell whose last neighbour is terrain and whose first neighbour is an orthogonal walkable cell is a keypoint |
| Keypoints.GenerateKeypoints | assets/Script/Utils/MapUtils.ts:651-687 | exactly the keypoints of the map, each once, in index order |
| Keypoints.MarkedCells | assets/Script/Utils/MapUtils.ts:653-685 | the cells whose index is marked, in index order, and nothing else |
| Graphs.Nest | assets/Script/Utils/MapUtils.ts:266-282 | a cell's table holds a neighbour exactly when the neighbour is walkable and the move cuts no narrow corner, weighted by getGridDis |
| Graphs.DenseGraph | assets/Script/Utils/MapUtils.ts:255-286 | `createGraphByGrids` itself. Graphs.DenseGraphEdges states its keys and links; DenseGraphSymmetric, DenseGraphWellKeyed, DenseGraphWeighsDistance and DenseGraphLandsWalkable state its shape |
| Graphs.DenseGraphEdges | assets/Script/Utils/MapUtils.ts:255-286 | only walkable cells are keys, and a links to b exactly when a is walkable and b is a walkable 8-neighbour reached without cutting a narrow corner, with weight getGridDis |
| Graphs.DenseGraphSymmetric | assets/Script/Utils/MapUtils.ts:255-286 | the dense graph is symmetric, with equal weights both ways, and its weights are non-negative |
| Graphs.DenseGraphWellKeyed | assets/Script/Utils/MapUtils.ts:255-286 | every key and every neighbour of the dense graph is a cell of the map |
| Graphs.DenseGraphWeighsDistance | assets/Script/Utils/MapUtils.ts:281 | every dense link weighs the grid distance of its ends |
| Graphs.DenseGraphLandsWalkable | assets/Script/Utils/MapUtils.ts:271-274 | every dense link ends on a walkable cell |
| Graphs.LinkEdges | assets/Script/Utils/MapUtils.ts:775-781 | linking a and b sets both directions to the same weight and changes no other entry |
| Graphs.LinkVisible | assets/Script/Utils/MapUtils.ts:769-785 | `updateGraphPoint` itself, one point of `points` at a time in order. Graphs.LinkVisibleSpec states what it links and keeps |
| Graphs.LinkVisibleSpec | assets/Script/Utils/MapUtils.ts:769-785 | updateGraphPoint links p0 both ways to exactly the points it sees, with their grid distance, and keeps every other entry |
| Graphs.LinkAll | assets/Script/Utils/MapUtils.ts:293-296 | the keypoint loop of `createGraphByPoints`, one `updateGraphPoint` per keypoint. Graphs.LinkAllEdges states the links after any prefix of the loop |
| Graphs.LinkAllEdges | assets/Script/Utils/MapUtils.ts:293-296 | after the keypoint loop, two keypoints are linked exactly when they see each other and one of them has been processed |
| Graphs.SparseGraph | assets/Script/Utils/MapUtils.ts:289-296 | the keypoint graph of `createGraphByPoints`. Graphs.SparseGraphShape, SparseGraphSymmetric and SparseGraphLandsWalkable state its keys, links and weights |
| Graphs.SparseGraphShape | assets/Script/Utils/MapUtils.ts:289-296 | the keys of the keypoint graph are exactly the keypoints; two keypoints are linked exactly when they see each other; links weigh the grid distance |
| Graphs.SparseGraphSymmetric | assets/Script/Utils/MapUtils.ts:289-296 | the keypoint graph is symmetric with non-negative weights |
| Graphs.SparseGraphLandsWalkable | assets/Script/Utils/MapUtils.ts:289-296 | every link of the keypoint graph ends on a walkable cell |
| Graphs.NearList | assets/Script/Utils/MapUtils.ts:311-319 | a cell's near list holds exactly the keypoints it sees, each with its cached grid distance |
| Graphs.NearListInOrder | assets/Script/Utils/MapUtils.ts:311-319 | the near list keeps the order of `points`: of two entries, the earlier one's point comes first in `points` |
| Graphs.NearMap | assets/Script/Utils/MapUtils.ts:298-325 | exactly the walkable cells that are not graph keys get a near list |
| Graphs.AddGraphElement | assets/Script/Utils/MapUtils.ts:788-802 | no position, or a keypoint, leaves the graph unchanged |
| Graphs.AddGraphElementSpec | assets/Script/Utils/MapUtils.ts:788-802 | adding a non-keypoint p links it, both ways and with equal weight, to exactly the keypoints it sees, and changes no link between other cells |
| Graphs.DelGraphElement | assets/Script/Utils/MapUtils.ts:805-822 | no position, or a keypoint, is a no-op; otherwise no key and no entry names the deleted index, and every other link and weight is kept |
| Graphs.DelUndoesAdd | assets/Script/Utils/MapUtils.ts:788-822 | deleting a position from a graph it was just added to restores the graph, if that graph did not mention it and held every point it sees |
| Graphs.SparseDelUndoesAdd | assets/Script/Utils/MapUtils.ts:187-190 | taking the last target out of the keypoint graph it was added to gives back the keypoint graph, whether that target was a keypoint, another cell or none |
| Graphs.AddLeavesOthersUntouched | assets/Script/Utils/MapUtils.ts:187-190 | once the target t is added to the keypoint graph, no key or entry names any other non-keypoint cell, such as an earlier target |
| Graphs.AddKeepsShape | assets/Script/Utils/MapUtils.ts:769-802 | adding a target keeps the graph symmetric, non-negative and keyed by cells |
| Graphs.AddKeepsWeighsDistance | assets/Script/Utils/MapUtils.ts:769-802 | adding a target keeps every link weighing the grid distance of its ends |
| Graphs.AddKeepsLandsWalkable | assets/Script/Utils/MapUtils.ts:769-802 | adding a walkable target keeps every link ending on a walkable cell |
| Graphs.DelKeepsShape | assets/Script/Utils/MapUtils.ts:805-822 | deleting a target keeps the graph symmetric, non-negative and keyed by cells |
| Graphs.DistanceWeightsPositive | assets/Script/Utils/MapUtils.ts:504-513 | when links weigh grid distances, every link between distinct cells weighs more than 0 and none weighs less than 0 |
| HeatMap.GenerateHeatMap | assets/Script/Utils/MapUtils.ts:331-391 | every cell a walk reaches from the target gets its shortest walk length from the target, every other cell keeps -1; the cells are closed once each, starting with the target, with non-decreasing costs, and exactly the reached cells are closed |
| HeatMap.HeatSpecUnique | assets/Script/Utils/MapUtils.ts:331-391 | the heat map is determined by the graph and the target |
| HeatMap.HeatCostSign | assets/Script/Utils/MapUtils.ts:336-340 | with non-negative weights a cell is reached exactly when its cost is non-negative, and unreached exactly when its cost is -1 |
| HeatMap.HeatTargetZero | assets/Script/Utils/MapUtils.ts:342-344 | the target costs 0 |
| HeatMap.HeatTriangle | assets/Script/Utils/MapUtils.ts:369-389 | a neighbour of a reached cell is reached, and costs at most the cell's cost plus the link weight |
| HeatMap.HeatPredecessor | assets/Script/Utils/MapUtils.ts:369-389 | every reached cell other than the target has a reached neighbour whose cost plus the link weight is its own cost |
| HeatMap.HeatStrictPredecessor | assets/Script/Utils/MapUtils.ts:369-389 | when links between distinct cells weigh something, that neighbour is a different, strictly cheaper cell |
| HeatMap.HeatPositive | assets/Script/Utils/MapUtils.ts:331-391 | every reached cell other than the target costs more than 0 |
| HeatMap.FirstMin | assets/Script/Utils/MapUtils.ts:347-354 | the selection loop picks an entry of least cost, and no earlier entry has that cost (the strict `>` keeps the first) |
| HeatMap.Find | assets/Script/Utils/MapUtils.ts:375-380 | `find` returns the first entry for the index, or -1 exactly when none exists |
| HeatMap.RelaxNeighbors | assets/Script/Utils/MapUtils.ts:369-389 | after the neighbour loop every unclosed neighbour of the cell just closed is open at no more than the closed cost plus the edge weight, every open entry costs at least that closed cost, and the propagation invariant holds again: open entries are tentative walk lengths, closed cells hold distances |
| FlowField.NearestPoint | assets/Script/Utils/MapUtils.ts:534-555 | an empty near list gives no point and cost -1; otherwise the first near point minimising its cost plus the cached distance, with that total |
| FlowField.NearestFrom | assets/Script/Utils/MapUtils.ts:539-546 | the loop of `getNearestPoint` from entry j on. FlowField.NearestFromLeast states that it keeps the first least total, and FlowField.NearestFromAgrees that it reads only the near points' costs |
| FlowField.NearestAgrees | assets/Script/Utils/MapUtils.ts:534-555 | the choice depends only on the costs of the near points |
| FlowField.FixupHeatMap | assets/Script/Utils/MapUtils.ts:394-422 | terrain and costed cells are left alone; an uncosted cell that sees the target gets its grid distance and isConnectTarget; any other keeps its flag and, when its near points are settled, gets its nearest point's total (-1 for no near point) |
| FlowField.FixupCell | assets/Script/Utils/MapUtils.ts:399-420 | the body of `fixupHeatMap`'s loop for one cell. FlowField.FixupStep states what one step settles, and FlowField.FixupHeatMap what the whole loop gives |
| FlowField.CreateVectorMap | assets/Script/Utils/MapUtils.ts:425-488 | terrain and cost-0 cells step nowhere; a cell marked isConnectTarget steps to the target; no cell steps to itself; a cell with a descent among its links steps to a linked, strictly cheaper cell; an unmarked cell with no graph entry and some near points steps to its first cheapest near point, or nowhere when that point is the cell itself |
| FlowField.VectorCell | assets/Script/Utils/MapUtils.ts:431-486 | the body of `createVectorMap`'s loop for one cell. FlowField.VectorCellSpec states that its step meets the five promises of FlowField.CreateVectorMap |
| FlowField.DescendFinds | assets/Script/Utils/MapUtils.ts:453-471 | when some link satisfies cost plus weight equal to the cell's cost with a cheaper end, the neighbour loop's final choice is a link to a strictly cheaper cell |
| FlowField.ReachedDescends | assets/Script/Utils/MapUtils.ts:453-471 | on a symmetric graph, every reached cell other than the target has such a descent and costs more than 0 |
| FlowField.FollowReachesTarget | assets/Script/Utils/MapUtils.ts:425-488 | following the steps from the r-th closed cell arrives at the target within r steps: any budget of at least r ends there |
| FlowField.DescendUnlinked | assets/Script/Utils/MapUtils.ts:451-453 | a cell with no graph entry has no neighbours, so the neighbour loop keeps the cell itself as its candidate |
| PathFinder.Create | assets/Script/Utils/MapUtils.ts:173-180 | the constructor leaves a ready pathfinder with no target, whose graph is the built graph: symmetric, keyed by cells, weighted by grid distance |
| PathFinder.KeypointsWalkable | assets/Script/Utils/MapUtils.ts:651-687 | keypoints are walkable cells of the map |
| PathFinder.ReadyShape | assets/Script/Utils/MapUtils.ts:238-252 | the graph of a ready pathfinder is keyed by cells, symmetric, non-negative, positive between distinct cells, weighted by grid distance, and lands on walkable cells |
| PathFinder.Update | assets/Script/Utils/MapUtils.ts:183-198 | re-targeting keeps the pathfinder ready. The graph becomes the built graph plus the new target, whatever the last target was. Reached cells cost their distance and step down to the target within n steps. In the plain mode unreached cells cost -1. In the optimised mode unreached walkable cells either see the target (grid distance, step to it) or cost their nearest point's total and, with near points and a cost other than 0, step to that point |
| PathFinder.Retargeted | assets/Script/Utils/MapUtils.ts:187-190 | deleting the last target and adding the new one yields the built graph plus the new target, and every near point that sees the target is reached |
| PathFinder.RetargetSameGraph | assets/Script/Utils/MapUtils.ts:183-198 | re-targeting to the current target recomputes the graph already held |
| PathFinder.EarlierTargetForgotten | assets/Script/Utils/MapUtils.ts:805-822 | an earlier target that is neither a keypoint nor the current target leaves no key and no entry in the graph |
| PathFinder.OptimisedNearLinked | assets/Script/Utils/MapUtils.ts:298-325 | near points are keypoints without near lists of their own, and those that see the target are reached from it; a cell with a near list has no graph entry unless it is the target |
| PathFinder.AddedKeys | assets/Script/Utils/MapUtils.ts:769-802 | adding the target to the keypoint graph creates no key but the target's own |
| PathFinder.SeenPointReached | assets/Script/Utils/MapUtils.ts:769-802 | a keypoint that sees the target is linked to it after the target is added |
| PathFinder.Refresh | assets/Script/Utils/MapUtils.ts:191-195 | propagation, fixup and vector map give, for any graph of the shape built: the target at cost 0 with no step, distances on reached cells, strictly descending steps that arrive at the target, and the unreached-cell outcomes of either mode |
| PathFinder.FixupKeepsReached | assets/Script/Utils/MapUtils.ts:404-407 | the fixup changes neither the cost nor the flag of a reached cell |
| PathFinder.ReachedCells | assets/Script/Utils/MapUtils.ts:425-488 | every reached cell keeps its distance as cost and steps along a link to a strictly cheaper reached cell, arriving at the target |
| PathFinder.StepsDescend | assets/Script/Utils/MapUtils.ts:440-471 | the target steps nowhere, and every other reached cell steps along a link to a cell of strictly lower propagated cost |
| PathFinder.LinkedSettled | assets/Script/Utils/MapUtils.ts:394-422 | with linked near points, every near point is settled before the fixup, so the order of the fixup loop does not matter |
| PathFinder.UnreachedCells | assets/Script/Utils/MapUtils.ts:409-420 | an unreached walkable cell that sees the target costs its grid distance and steps to it; any other costs its nearest point's total, read from the final costs, and, with near points and a cost other than 0, steps to that point |
| PathFinder.UnreachedCell | assets/Script/Utils/MapUtils.ts:474-482 | the same outcomes for a single unreached walkable cell |
| PathFinder.DistinctWithin | assets/Script/Utils/MapUtils.ts:345-356 | the closed list, which holds distinct cells, has at most as many entries as the map has cells |

## Left out

- The view conversions `convertViewPosToMapPos` and `convertMapPosToViewPos`: pixel-space float conversion through engine types.
- The debug queries `getSegments`, `getKeypoints` and `getGrid`: plain field reads. The model exposes the `Finder` fields instead.
- `cc.warn` logging: modelled as a no-op. Each warning's branch is kept with the value the code goes on with.
- `PathFinderAdapter.Mover.stepDijkstra` and the unit loop: float interpolation that only reads `prev`.
- The static scratch buffers (`_r0`..`_r3`, `_posCenter*`, `_posCorners*`, the reused `result` object): modelled as local values. `getNearestPoint` overwrites both fields of `result` on every call, so nothing leaks between calls.
- The mutable cell records: the fields `cost`, `prev`, `isConnectTarget`, `isKeyPoint`, `nearPoints`, `nearPointsDisCache` and `tmpUsed` are returned as sequences and maps rather than stored on the cells.
- IEEE rounding: every quantity is an exact `real`.
- FlowField.FixupHeatMap: states the nearest-point cost of a cell only when the near points are settled, because the loop reads costs it may have written earlier. PathFinder.LinkedSettled proves that the cells are settled in every re-target.
- PathFinder.RetargetSameGraph: states only that the graph is unchanged when re-targeting to the same target. The field's costs are unique (HeatMap.HeatSpecUnique), but the fixup and vector-map outputs are described by their promises, not by a closed form.
- Agreement of the two modes on which cells are reachable is not modelled. It depends on the keypoint geometry in ways the code does not enforce.
- PathFinder.Update: requires a walkable target, as the application's target selection guarantees. `update` itself accepts a terrain target. The target then costs 0. In the plain mode the target has no graph entry, so no other cell is reached and no cell gets a `prev`. In the optimised mode the terrain cell is linked, like any other target, to the keypoints it sees.
- Terrain edits after load: out of scope of the pathfinder, which builds its graph once.
