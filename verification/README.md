# TaleCraft core in Dafny

TaleCraft is a point-and-click adventure toolkit for Unity. This project
models the deterministic logic under its engine layers, in four parts.

- **Walking.** A visibility graph is built over the walkable polygon and its
  obstacles: polygon orientation and reversal, the even-odd inside test with
  its boundary band, the closest point on the boundary, concave-vertex
  selection, the strict segment-crossing test, line of sight, start/end
  constraints, edge construction, and A* search from node 0 to node 1 with
  path extraction. The null-obstacle clean-up of the walkable map is included.
- **Commands.** This part covers:
  - scene variables (bool, int with 32-bit wrap-around, float as `real`,
    string) and the conditions over them;
  - the command manager: index-guarded name and Guid properties, find and
    select by Guid, the action sequence, end of action, and syncing the
    default actions;
  - the slot lists of an interactable, and interactable dispatch;
  - the "sentence complete" and previous-interactable rules;
  - the sentence builder;
  - the unused-command list and the grid layout of the command panel.
- **Inventory.** Add and remove with the capacity and no-duplicate rules;
  the visible window, grid positions and scroll-index clamping of the
  inventory display.
- **Dialogue.** This part covers:
  - the aggregation order of the graph's node lists;
  - GUID and next-node lookup;
  - one transition step of `CheckNodeType` and its `RunNode` variants;
  - the branch decision and end-node behaviour;
  - a fuel-bounded run, because a cyclic graph makes the source loop for
    ever.

Modelling conventions:

- Objects become immutable datatypes and operations become functions from
  the old state to the new.
- Where the C# code can crash on data it does not control (a null
  reference, an index out of range, a missing dictionary key, an overflow in
  `int.MinValue / -1`), the model returns `Err(fault)` from `Wrappers.Result`.
- Unity objects that are shared by reference live in a store indexed by
  `nat`:
  - polygons, so that an in-place reversal is seen through every alias;
  - scene variables, so that the dialogue's Visited flags and the
    conditions read the same value.
- `Math.Sqrt` is a parameter `root: real -> real`. Lemmas that need its
  meaning require `Geometry.IsSqrt(root)` or `AStarSearch.NonNegativeRoot(root)`.
- A UnityEvent is an abstract id; firing one is reported as an effect value
  or a counter.
- A* and the dialogue run take a `fuel: nat` bound and return
  `Err(OutOfFuel)` when it runs out.

Two rules of the path finder's code are easy to misread:

- **Corner flags.** The first active polygon keeps its vertices where
  `IsVertexConcave` is *false*, and every later active polygon keeps those
  where it is true (PathFinder.cs lines 164-181).
- **Obstacle constraints.** Every obstacle that contains the *original*
  point overwrites the projection, so the last one in list order wins
  (PathFinder.cs lines 213-225).

## Model

| member | source | states |
|---|---|---|
| Geometry.DistanceSquared | Project/Assets/TaleCraft/Runtime/WalkingSystem/Graph.cs:46-51 | the squared distance is never negative |
| Geometry.Distance | Project/Assets/TaleCraft/Runtime/WalkingSystem/Graph.cs:35-38 | with a true square root, the distance is non-negative and squares to the squared distance |
| Geometry.DistanceSquaredSymmetric | Project/Assets/TaleCraft/Runtime/WalkingSystem/Graph.cs:46-51 | the squared distance does not depend on argument order |
| Geometry.DistanceToSegmentSquared | Project/Assets/TaleCraft/Runtime/WalkingSystem/Graph.cs:70-80 | non-negative; for a degenerate segment (q at r) it is the squared distance to r |
| Geometry.LerpEnds | Project/Assets/TaleCraft/Runtime/WalkingSystem/Graph.cs:74-77 | parameter 0 gives q and parameter 1 gives r, so the clamped cases are the segment's ends |
| Geometry.DegenerateSegmentEnds | Project/Assets/TaleCraft/Runtime/WalkingSystem/Graph.cs:72-73 | when q and r are the same spot, every point is equally far from both |
| Geometry.OuterProjectionNearerEnd | Project/Assets/TaleCraft/Runtime/WalkingSystem/Graph.cs:74-76 | a parameter below 0 means q is no farther than r, above 1 that r is no farther than q |
| Geometry.InnerProjectionDrop | Project/Assets/TaleCraft/Runtime/WalkingSystem/Graph.cs:74-77 | the projection at a parameter t in [0, 1] is closer to p than q is, by t squared times the squared segment length |
| Geometry.InnerProjectionNoFarther | Project/Assets/TaleCraft/Runtime/WalkingSystem/Graph.cs:74-77 | the projection at a parameter in [0, 1] is no farther than either end |
| Geometry.SegmentNoFartherThanEnds | Project/Assets/TaleCraft/Runtime/WalkingSystem/Graph.cs:70-78 | the squared segment distance never exceeds the squared distance to either end |
| Geometry.SegmentDistanceIsAttained | Project/Assets/TaleCraft/Runtime/WalkingSystem/Graph.cs:70-80 | the segment distance is the distance to the point at a clamped parameter in [0, 1] on the segment |
| Graphs.NewEdge | Project/Assets/TaleCraft/Runtime/WalkingSystem/Graph.cs:212-217 | a GraphEdge stores N1 <= N2, holds the same two ends in either order, and keeps the length |
| Graphs.NewEdgeUnordered | Project/Assets/TaleCraft/Runtime/WalkingSystem/Graph.cs:212-217 | swapping the ends gives the same edge |
| Graphs.NewGraph | Project/Assets/TaleCraft/Runtime/WalkingSystem/Graph.cs:24-33 | a new graph has no nodes, no neighbour lists and no edges |
| Graphs.NewGraphWf | Project/Assets/TaleCraft/Runtime/WalkingSystem/Graph.cs:24-33 | a new graph is well formed |
| Graphs.AddNode | Project/Assets/TaleCraft/Runtime/WalkingSystem/Graph.cs:91-95 | appends the node and one empty neighbour list; nothing else changes |
| Graphs.AddNodeWf | Project/Assets/TaleCraft/Runtime/WalkingSystem/Graph.cs:91-95 | adding a node keeps nodes and neighbour lists the same length, and the graph well formed |
| Graphs.AddEdge | Project/Assets/TaleCraft/Runtime/WalkingSystem/Graph.cs:100-115 | files the new edge under min(n1, n2), makes n1 and n2 mutual neighbours, and leaves other buckets and lists alone |
| Graphs.AddEdgeFinds | Project/Assets/TaleCraft/Runtime/WalkingSystem/Graph.cs:100-151 | after AddEdge, FindEdge finds the edge in both directions, with length Distance(node n1, node n2) |
| Graphs.AddEdgeKeepsEdges | Project/Assets/TaleCraft/Runtime/WalkingSystem/Graph.cs:108-115 | edges already present stay present |
| Graphs.AddEdgeOnlyAdds | Project/Assets/TaleCraft/Runtime/WalkingSystem/Graph.cs:108-115 | the only new edge is the one between n1 and n2 |
| Graphs.AddEdgeNeighbors | Project/Assets/TaleCraft/Runtime/WalkingSystem/Graph.cs:147-151 | every neighbour link stays matched by an edge |
| Graphs.AddEdgeLinked | Project/Assets/TaleCraft/Runtime/WalkingSystem/Graph.cs:108-115 | every edge FindEdge can find from node u leads to a node in u's neighbour list, before and after AddEdge |
| Graphs.AddEdgeWf | Project/Assets/TaleCraft/Runtime/WalkingSystem/Graph.cs:100-151 | AddEdge keeps the graph well formed |
| Graphs.FirstTo | Project/Assets/TaleCraft/Runtime/WalkingSystem/Graph.cs:133-139 | the foreach returns the first edge whose N2 matches, and null exactly when none does |
| Graphs.FindEdge | Project/Assets/TaleCraft/Runtime/WalkingSystem/Graph.cs:129-142 | a missing bucket is KeyNotFound; otherwise it returns the first edge in bucket min(n1, n2) whose N2 is max(n1, n2), and null exactly when the bucket has no such edge |
| Graphs.FindEdgeSymmetric | Project/Assets/TaleCraft/Runtime/WalkingSystem/Graph.cs:129-142 | FindEdge(a, b) and FindEdge(b, a) give the same answer |
| Graphs.DistanceSymmetric | Project/Assets/TaleCraft/Runtime/WalkingSystem/Graph.cs:35-44 | Distance does not depend on argument order |
| Polygons.ReverseVertices | Project/Assets/TaleCraft/Runtime/WalkingSystem/Polygons/Polygon.cs:58-61 | vertex i moves to position n-1-i; nothing else changes |
| Polygons.ReverseTwice | Project/Assets/TaleCraft/Runtime/WalkingSystem/Polygons/Polygon.cs:58-61 | reversing twice is the identity |
| Polygons.IsOrientationClockwise | Project/Assets/TaleCraft/Runtime/WalkingSystem/Polygons/Polygon.cs:70-83 | the loop's verdict is "the cyclic sum of (b.x-a.x)(b.y+a.y) is positive" |
| Polygons.ReverseNegatesOrientation | Project/Assets/TaleCraft/Runtime/WalkingSystem/Polygons/Polygon.cs:58-61 | reversal negates the orientation sum |
| Polygons.ReverseFlipsClockwise | Project/Assets/TaleCraft/Runtime/WalkingSystem/Polygons/Polygon.cs:70-83 | for a non-zero sum, reversal flips the verdict; after reversing a non-clockwise polygon the sum is non-negative |
| Polygons.IsInsideCharacterized | Project/Assets/TaleCraft/Runtime/WalkingSystem/Polygons/Polygon.cs:90-125 | under 3 vertices: false; inside some edge's band: the tolerance argument; otherwise the parity of the edges crossed |
| Polygons.IsInside | Project/Assets/TaleCraft/Runtime/WalkingSystem/Polygons/Polygon.cs:90-96 | a polygon of fewer than three vertices contains no point |
| Polygons.ToleranceOnlyOnBoundary | Project/Assets/TaleCraft/Runtime/WalkingSystem/Polygons/Polygon.cs:96-107 | away from every band, the tolerance argument makes no difference |
| Polygons.FirstLeast | Project/Assets/TaleCraft/Runtime/WalkingSystem/Polygons/Polygon.cs:136-148 | the lowest index with a strictly least value below the limit, or none when nothing is below it |
| Polygons.GetClosestPointOnEdge | Project/Assets/TaleCraft/Runtime/WalkingSystem/Polygons/Polygon.cs:132-169 | with no edge nearer than 100000 the result is an error; otherwise it is the clamped projection onto the closest edge |
| Polygons.EdgeParameterIsSegmentParameter | Project/Assets/TaleCraft/Runtime/WalkingSystem/Polygons/Polygon.cs:160 | the `u` of GetClosestPointOnEdge, divided by the length measured from p2 to p1, equals the projection parameter of DistanceToSegment |
| Polygons.ClampedProjectionOnSegment | Project/Assets/TaleCraft/Runtime/WalkingSystem/Polygons/Polygon.cs:160-169 | the clamped projection lies on the segment and is at the point-to-segment distance |
| Polygons.ClosestEdgeIsLeast | Project/Assets/TaleCraft/Runtime/WalkingSystem/Polygons/Polygon.cs:136-148 | the chosen edge is at least as close as every edge, and strictly closer than every earlier edge |
| Polygons.GetClosestPointOnEdgeIsClosest | Project/Assets/TaleCraft/Runtime/WalkingSystem/Polygons/Polygon.cs:132-169 | the returned point lies on the chosen edge, and its distance is at most every edge's computed point-to-segment distance |
| Polygons.DestroyPoint | Project/Assets/TaleCraft/Runtime/WalkingSystem/Polygons/Polygon.cs:175-199 | three or fewer vertices are never touched; the vertex list changes only when a vertex is reported removed, and then loses exactly one |
| Polygons.DestroyPointRemovesNearest | Project/Assets/TaleCraft/Runtime/WalkingSystem/Polygons/Polygon.cs:175-199 | with 3 or fewer vertices nothing happens; otherwise only the nearest tagged vertex within 0.4 is removed |
| PathFinding.IsVertexConcave | Assets/TaleCraft/Runtime/WalkingSystem/PathFinding/PathFinder.cs:25-35 | a corner with a zero-length side on either hand is never concave |
| PathFinding.TurnReversed | Assets/TaleCraft/Runtime/WalkingSystem/PathFinding/PathFinder.cs:25-35 | swapping a corner's neighbours negates its turn |
| PathFinding.ConcaveFlipsOnReverse | Assets/TaleCraft/Runtime/WalkingSystem/PathFinding/PathFinder.cs:25-35 | predecessors and successors wrap around; after a reversal a corner with a non-zero turn changes class |
| PathFinding.LineSegmentsCross | Assets/TaleCraft/Runtime/WalkingSystem/PathFinding/PathFinder.cs:41-57 | parallel segments (zero denominator) never cross |
| PathFinding.CrossVerdictCharacterized | Assets/TaleCraft/Runtime/WalkingSystem/PathFinding/PathFinder.cs:43-57 | a zero denominator or numerator means no crossing; otherwise both quotients lie strictly inside (0, 1) |
| PathFinding.CrossSymmetric | Assets/TaleCraft/Runtime/WalkingSystem/PathFinding/PathFinder.cs:41-57 | the crossing test ignores the direction of the first segment |
| PathFinding.CrossSwapSegments | Assets/TaleCraft/Runtime/WalkingSystem/PathFinding/PathFinder.cs:41-57 | the crossing test ignores the order of the two segments |
| PathFinding.SharedEndpointNoCross | Assets/TaleCraft/Runtime/WalkingSystem/PathFinding/PathFinder.cs:41-57 | segments sharing an endpoint never cross strictly |
| PathFinding.IsInLineOfSight | Assets/TaleCraft/Runtime/WalkingSystem/PathFinding/PathFinder.cs:66-113 | with no first polygon it is an error; with both ends inside the main polygon: ends closer than Epsilon see each other, a blocking polygon edge hides them, and otherwise they see each other exactly when the midpoint is inside the main polygon and in no obstacle |
| PathFinding.LineOfSightSymmetric | Assets/TaleCraft/Runtime/WalkingSystem/PathFinding/PathFinder.cs:66-113 | line of sight does not depend on which end is the start |
| PathFinding.PickFrom | Assets/TaleCraft/Runtime/WalkingSystem/PathFinding/PathFinder.cs:174-178 | every picked vertex is a vertex of the polygon whose concavity matches the flag |
| PathFinding.PickFromComplete | Assets/TaleCraft/Runtime/WalkingSystem/PathFinding/PathFinder.cs:174-178 | every vertex whose concavity matches the flag is picked |
| PathFinding.OrientStep | Assets/TaleCraft/Runtime/WalkingSystem/PathFinding/PathFinder.cs:171-172 | a polygon is reversed only in place, and ends with a non-negative orientation sum; the others are untouched |
| PathFinding.CollectKeepsShape | Assets/TaleCraft/Runtime/WalkingSystem/PathFinding/PathFinder.cs:164-181 | collecting vertices changes only vertex order, never the number of polygons or their active flags |
| PathFinding.CollectOrients | Assets/TaleCraft/Runtime/WalkingSystem/PathFinding/PathFinder.cs:164-181 | after collection every valid active polygon has a non-negative orientation sum |
| PathFinding.CollectedAreCorners | Assets/TaleCraft/Runtime/WalkingSystem/PathFinding/PathFinder.cs:164-181 | every collected node is a vertex of some valid polygon in the list |
| PathFinding.CollectedFlags | Assets/TaleCraft/Runtime/WalkingSystem/PathFinding/PathFinder.cs:164-181 | every collected node is vertex j of a valid polygon as oriented at its turn, with IsVertexConcave false for the first active polygon and true for every later one |
| PathFinding.ClosestOnFirst | Assets/TaleCraft/Runtime/WalkingSystem/PathFinding/PathFinder.cs:206-210 | the projection uses Polygons[0]; an empty array or a null entry is an error |
| PathFinding.ConstrainToMain | Assets/TaleCraft/Runtime/WalkingSystem/PathFinding/PathFinder.cs:206-210 | with the flag off, or the point inside the main polygon, the point stays; otherwise it moves to the closest point of Polygons[0] |
| PathFinding.MakeConstraints | Assets/TaleCraft/Runtime/WalkingSystem/PathFinding/PathFinder.cs:203-228 | with the start flag set and a null main polygon, it fails with a null reference |
| PathFinding.ConstrainObstacles | Assets/TaleCraft/Runtime/WalkingSystem/PathFinding/PathFinder.cs:213-225 | when no remaining obstacle catches either original end, both ends stay where they are |
| PathFinding.EndsIndependent | Assets/TaleCraft/Runtime/WalkingSystem/PathFinding/PathFinder.cs:213-225 | the start and end are constrained independently, each by tests on its original point |
| PathFinding.LastObstacleWins | Assets/TaleCraft/Runtime/WalkingSystem/PathFinding/PathFinder.cs:213-225 | with no obstacle catching the point it keeps its current place; otherwise the last catching obstacle decides the projection |
| PathFinding.UpdateStart | Assets/TaleCraft/Runtime/WalkingSystem/PathFinding/PathFinder.cs:233-240 | only node 0 and Start change |
| PathFinding.UpdateEnd | Assets/TaleCraft/Runtime/WalkingSystem/PathFinding/PathFinder.cs:245-252 | only node 1 and End change |
| PathFinding.MoveKeepsWf | Assets/TaleCraft/Runtime/WalkingSystem/PathFinding/PathFinder.cs:233-252 | moving an end node keeps a graph well formed, since edge lengths are computed later |
| PathFinding.AddNodes | Assets/TaleCraft/Runtime/WalkingSystem/PathFinding/PathFinder.cs:174-178 | appends the nodes in order, one empty neighbour list each |
| PathFinding.ConnectRow | Assets/TaleCraft/Runtime/WalkingSystem/PathFinding/PathFinder.cs:188-192 | after row c1 the edges are exactly the visible pairs visited so far; a missing first polygon is an error |
| PathFinding.BuildEdges | Assets/TaleCraft/Runtime/WalkingSystem/PathFinding/PathFinder.cs:186-193 | the graph has an edge u-v exactly when u != v and the two nodes see each other |
| PathFinding.ReachableBySight | Assets/TaleCraft/Runtime/WalkingSystem/PathFinding/PathFinder.cs:186-195 | in the graph BuildEdges makes, node 1 is reachable from node 0 exactly when a chain of mutually visible nodes leads from start to end |
| PathFinding.GetPath | Assets/TaleCraft/Runtime/WalkingSystem/PathFinding/PathFinder.cs:126-137 | the waypoints start at node 0 with one fewer length than waypoints; an empty or one-node path gives [node 0] |
| PathFinding.GetPathOfWalk | Assets/TaleCraft/Runtime/WalkingSystem/PathFinding/PathFinder.cs:126-137 | for a walk in a well-formed graph, each length is the distance between consecutive waypoints |
| PathFinding.Run | Assets/TaleCraft/Runtime/WalkingSystem/PathFinding/PathFinder.cs:156-198 | polygons come back reoriented; the waypoints start at the constrained start and, when there are several, end at the constrained end; every leg is a visible straight line of the given length; every waypoint is one of the graph's points (the constrained ends and the collected corners); there is a single waypoint exactly when no chain of mutually visible graph nodes leads from start to end; a constraint failure is passed on, and once the constraints succeed with a first polygon present only running out of fuel stops it |
| PathFinding.RunAt | Assets/TaleCraft/Runtime/WalkingSystem/PathFinding/PathFinder.cs:144-147 | Run(v) is Run(v, v): the same route, graph-point, reachability and failure clauses |
| AStarSearch.Heuristic | Project/Assets/TaleCraft/Runtime/WalkingSystem/PathFinding/AStar.cs:33-36 | the heuristic is a non-negative distance |
| AStarSearch.LowestNode | Project/Assets/TaleCraft/Runtime/WalkingSystem/PathFinding/AStar.cs:41-50 | returns an open node with least fScore, strictly less than every earlier open node |
| Lists.RemoveFirstMultiset | Project/Assets/TaleCraft/Runtime/WalkingSystem/PathFinding/AStar.cs:96 | `openSet.Remove(current)` takes exactly one copy of the node out of the open set |
| AStarSearch.UpdateKeepsInv | Project/Assets/TaleCraft/Runtime/WalkingSystem/PathFinding/AStar.cs:104-108 | a cheaper route through the current node keeps gScore[0] = 0 and keeps cameFrom links acyclic and along graph edges |
| AStarSearch.Relax | Project/Assets/TaleCraft/Runtime/WalkingSystem/PathFinding/AStar.cs:100-111 | relaxing one neighbour keeps the search invariant and a duplicate-free open set, and marks the neighbour discovered |
| AStarSearch.Expand | Project/Assets/TaleCraft/Runtime/WalkingSystem/PathFinding/AStar.cs:98-112 | after the neighbour loop the current node is closed: all its neighbours are discovered |
| AStarSearch.RemoveKeepsInv | Project/Assets/TaleCraft/Runtime/WalkingSystem/PathFinding/AStar.cs:96 | taking the current node out keeps the open set duplicate-free, and node 1 open if discovered |
| AStarSearch.ClosedHoldsWalks | Project/Assets/TaleCraft/Runtime/WalkingSystem/PathFinding/AStar.cs:90-115 | once the open set is empty, every node reachable from a discovered node is discovered |
| AStarSearch.ConstructPath | Project/Assets/TaleCraft/Runtime/WalkingSystem/PathFinding/AStar.cs:58-68 | following cameFrom terminates, giving a walk from node 0 to the target |
| AStarSearch.FindShortestPath | Project/Assets/TaleCraft/Runtime/WalkingSystem/PathFinding/AStar.cs:76-116 | a non-empty result is a walk from 0 to 1 along neighbour lists; an empty result means node 1 is unreachable |
| WalkableMaps.NonNullMembers | Assets/TaleCraft/Runtime/WalkingSystem/WalkableMap.cs:70-75 | the surviving entries are exactly the non-null ones |
| WalkableMaps.DropNulls | Assets/TaleCraft/Runtime/WalkingSystem/WalkableMap.cs:70-75 | the backward RemoveAt loop leaves the non-null obstacles in their original order |
| WalkableMaps.RemoveNullPolygons | Assets/TaleCraft/Runtime/WalkingSystem/WalkableMap.cs:34-79 | the obstacles lose exactly their nulls; polygons is rebuilt as [main] followed by the obstacles exactly when a null was removed or the array did not have one slot more than the old list, and is left untouched otherwise; the flags are unchanged |
| WalkableMaps.RemoveNullPolygonsTwice | Assets/TaleCraft/Runtime/WalkingSystem/WalkableMap.cs:68-79 | a second clean-up changes nothing |
| WalkableMaps.RemoveNullPolygonsKeepsRefs | Assets/TaleCraft/Runtime/WalkingSystem/WalkableMap.cs:68-79 | no non-null obstacle is lost, and every reference still names a component |
| Variables.SetValue | Project/Assets/TaleCraft/Runtime/CommandSystem/Variables/Variable.cs:18-21 | RuntimeValue becomes the value; DefaultValue is untouched |
| Variables.ResetValue | Project/Assets/TaleCraft/Runtime/CommandSystem/Variables/Variable.cs:23-26 | RuntimeValue becomes DefaultValue; a variable already at its default is unchanged |
| Variables.OnEnable | Project/Assets/TaleCraft/Runtime/CommandSystem/Variables/Variable.cs:13-16 | enabling performs a reset |
| Variables.ResetIdempotent | Project/Assets/TaleCraft/Runtime/CommandSystem/Variables/Variable.cs:23-26 | resetting twice is resetting once |
| Variables.SetTrue | Assets/TaleCraft/Runtime/CommandSystem/Variables/BoolVariable.cs:11-14 | RuntimeValue is true afterwards |
| Variables.SetFalse | Assets/TaleCraft/Runtime/CommandSystem/Variables/BoolVariable.cs:16-19 | RuntimeValue is false afterwards |
| Variables.FlipValue | Assets/TaleCraft/Runtime/CommandSystem/Variables/BoolVariable.cs:21-24 | RuntimeValue is negated |
| Variables.FlipTwice | Assets/TaleCraft/Runtime/CommandSystem/Variables/BoolVariable.cs:21-24 | two flips restore the variable |
| Variables.Wrap | Project/Assets/TaleCraft/Runtime/CommandSystem/Variables/IntVariable.cs:11-34 | the 32-bit result is congruent to the exact one modulo 2^32, and equal to it when it fits |
| Variables.Add | Project/Assets/TaleCraft/Runtime/CommandSystem/Variables/IntVariable.cs:11-14 | old + v with 32-bit wrap-around |
| Variables.Subtract | Project/Assets/TaleCraft/Runtime/CommandSystem/Variables/IntVariable.cs:16-19 | old - v with 32-bit wrap-around |
| Variables.Multiply | Project/Assets/TaleCraft/Runtime/CommandSystem/Variables/IntVariable.cs:21-24 | old * v with 32-bit wrap-around |
| Variables.Increment | Project/Assets/TaleCraft/Runtime/CommandSystem/Variables/IntVariable.cs:26-29 | old + 1, with int.MaxValue wrapping to int.MinValue |
| Variables.Decrement | Project/Assets/TaleCraft/Runtime/CommandSystem/Variables/IntVariable.cs:31-34 | old - 1, with int.MinValue wrapping to int.MaxValue |
| Variables.AddThenSubtract | Project/Assets/TaleCraft/Runtime/CommandSystem/Variables/IntVariable.cs:11-19 | Add(v) then Subtract(v) restores the variable, even across wrap-around |
| Variables.SubtractThenAdd | Project/Assets/TaleCraft/Runtime/CommandSystem/Variables/IntVariable.cs:11-19 | Subtract(v) then Add(v) restores the variable |
| Variables.IncrementThenDecrement | Project/Assets/TaleCraft/Runtime/CommandSystem/Variables/IntVariable.cs:26-34 | Increment then Decrement restores the variable |
| Variables.DecrementThenIncrement | Project/Assets/TaleCraft/Runtime/CommandSystem/Variables/IntVariable.cs:26-34 | Decrement then Increment restores the variable |
| Conditions.CompareInt | Assets/TaleCraft/Runtime/CommandSystem/Condition.cs:40-54 | each comparison accepts exactly its signs of value - expected; an out-of-range comparison accepts nothing |
| Conditions.CompareReal | Assets/TaleCraft/Runtime/CommandSystem/Condition.cs:68-82 | the same table over reals |
| Conditions.Negate | Assets/TaleCraft/Runtime/CommandSystem/Condition.cs:102-110 | the complementary comparison accepts exactly the other signs |
| Conditions.ComplementaryComparisons | Assets/TaleCraft/Runtime/CommandSystem/Condition.cs:44-49 | NotEqual is not Equal, Greater is not LessOrEqual and Less is not GreaterOrEqual, and negating twice gives the comparison back |
| Conditions.Check | Assets/TaleCraft/Runtime/CommandSystem/Condition.cs:21-96 | a null variable is a null reference; bool and string conditions are equality; int and float conditions use the comparison table |
| Conditions.CheckReadsRuntimeOnly | Assets/TaleCraft/Runtime/CommandSystem/Condition.cs:26-95 | the verdict depends only on the variable's RuntimeValue |
| Conditions.AllHold | Project/Assets/TaleCraft/Runtime/DialogueSystem/DialogueController.cs:141-157 | true exactly when every condition holds, checked in order and stopping at the first failure |
| Conditions.AllHoldIsFirstFailure | Project/Assets/TaleCraft/Runtime/DialogueSystem/DialogueController.cs:141-157 | the verdict is that of the first condition that does not hold |
| Conditions.EveryHolds | Project/Assets/TaleCraft/Runtime/CommandSystem/Interactable.cs:132-135 | the non-stopping `result &= Check()` loop: an error exactly when some condition's variable is null, else true exactly when every condition holds |
| Conditions.ShortCircuitAgrees | Project/Assets/TaleCraft/Runtime/CommandSystem/Interactable.cs:132-135 | when all variables are present, the stopping check and the all-of check agree |
| Commands.NewCommandData | Project/Assets/TaleCraft/Runtime/CommandSystem/CommandManager.cs:200-204 | a new command has the fresh Guid and the given name |
| Commands.CopyCommandData | Project/Assets/TaleCraft/Runtime/CommandSystem/CommandManager.cs:206-210 | the copy has the same Guid and Name |
| Commands.NewBasicCommandAction | Project/Assets/TaleCraft/Runtime/CommandSystem/CommandManager.cs:268-272 | a new default action holds the command, does not move closer and has no listeners |
| Commands.NameAt | Project/Assets/TaleCraft/Runtime/CommandSystem/CommandManager.cs:41-46 | an index outside [0, Count) gives "None"; otherwise the entry's Name |
| Commands.GuidAt | Project/Assets/TaleCraft/Runtime/CommandSystem/CommandManager.cs:41-46 | an index outside [0, Count) gives "None"; otherwise the entry's Guid |
| Commands.Start | Project/Assets/TaleCraft/Runtime/CommandSystem/CommandManager.cs:72-75 | the selected command becomes the default one; nothing else changes |
| Commands.FindByGuid | Project/Assets/TaleCraft/Runtime/CommandSystem/CommandManager.cs:80-83 | some command has the Guid exactly when a command is returned, and it is one with that Guid |
| Commands.FindByName | Project/Assets/TaleCraft/Runtime/CommandSystem/CommandManager.cs:88-91 | some command has the name exactly when a command is returned, and it is one with that name |
| Commands.GuidIndex | Project/Assets/TaleCraft/Runtime/CommandSystem/CommandManager.cs:98 | the index of the first command with the Guid, or -1 when there is none |
| Commands.SelectCommand | Project/Assets/TaleCraft/Runtime/CommandSystem/CommandManager.cs:96-99 | selectedCommand becomes the first index with that Guid, or -1; nothing else changes |
| Commands.SelectThenSelectedGuid | Project/Assets/TaleCraft/Runtime/CommandSystem/CommandManager.cs:96-99 | after selecting an existing Guid, SelectedCommandGuid is that Guid |
| Commands.SelectSelectedIsIdentity | Project/Assets/TaleCraft/Runtime/CommandSystem/CommandManager.cs:44-99 | with unique Guids, reselecting the selected command changes nothing |
| Commands.AddAction | Project/Assets/TaleCraft/Runtime/CommandSystem/CommandManager.cs:104-107 | appends exactly one (item, interactable) pair and keeps the earlier ones |
| Commands.EndAction | Project/Assets/TaleCraft/Runtime/CommandSystem/CommandManager.cs:128-142 | selects the default command by Guid, empties the sequence, clears ActionTemp and fires OnCommandEnd once |
| Commands.EndActionSelectsDefault | Project/Assets/TaleCraft/Runtime/CommandSystem/CommandManager.cs:128-142 | with unique Guids, EndAction selects the default index when it is in range |
| Commands.SyncAction | Project/Assets/TaleCraft/Runtime/CommandSystem/CommandManager.cs:172-182 | reuses the first entry with the command's Guid, with its name refreshed, or makes a new one |
| Commands.UpdateCommands | Project/Assets/TaleCraft/Runtime/CommandSystem/CommandManager.cs:163-186 | one default action per command, in command order, each carrying that command |
| Commands.UpdateCommandsIdempotent | Project/Assets/TaleCraft/Runtime/CommandSystem/CommandManager.cs:163-186 | syncing twice is syncing once |
| Commands.SyncActionSameGuid | Project/Assets/TaleCraft/Runtime/CommandSystem/CommandManager.cs:172-182 | commands with the same Guid reuse the same entry, differing only in its command data |
| Inventories.AddItem | Project/Assets/TaleCraft/Runtime/InventorySystem/InventoryManager.cs:24-31 | no change and no notification when full under RestrictSize or already present; otherwise appends and notifies once |
| Inventories.AddItemValid | Project/Assets/TaleCraft/Runtime/InventorySystem/InventoryManager.cs:24-31 | AddItem keeps "no duplicates" and, under RestrictSize, Count <= MaxSize |
| Inventories.RemoveItem | Project/Assets/TaleCraft/Runtime/InventorySystem/InventoryManager.cs:37-41 | removes only the first occurrence and notifies exactly when something was removed |
| Inventories.RemoveItemValid | Project/Assets/TaleCraft/Runtime/InventorySystem/InventoryManager.cs:37-41 | RemoveItem keeps the inventory valid |
| Inventories.AddThenRemove | Project/Assets/TaleCraft/Runtime/InventorySystem/InventoryManager.cs:24-41 | adding a new item when there is room and then removing it restores the list, with two notifications |
| Inventories.ClearInventory | Project/Assets/TaleCraft/Runtime/InventorySystem/InventoryManager.cs:46-50 | empties the list and always notifies |
| Slots.NewCustomAction | Project/Assets/TaleCraft/Runtime/CommandSystem/SlotManager.cs:76-90 | a custom action starts requiring interactables, with empty lists and no movement or duplication |
| Slots.NewCommandActions | Project/Assets/TaleCraft/Runtime/CommandSystem/SlotManager.cs:50-53 | holds the given command and no actions |
| Slots.GetCommands | Project/Assets/TaleCraft/Runtime/CommandSystem/SlotManager.cs:20-28 | the commands of the first non-null slot with the item, or an empty list |
| Slots.CallLeftOrRightEvent | Project/Assets/TaleCraft/Runtime/CommandSystem/SlotManager.cs:92-96 | the left event when DuplicateActions is set or the click is left, else the right one |
| Slots.DuplicateActionsMerge | Project/Assets/TaleCraft/Runtime/CommandSystem/SlotManager.cs:92-96 | with DuplicateActions both buttons fire the same event; without it a right click fires the right event |
| Lists.FirstIndex | Project/Assets/TaleCraft/Runtime/CommandSystem/CommandManager.cs:98 | `FindIndex`: the first index satisfying the predicate, or -1 |
| Lists.IndexOfFind | Project/Assets/TaleCraft/Runtime/CommandSystem/CommandManager.cs:98 | `IndexOf(Find(p))` is the first index satisfying p, or -1 |
| Lists.RemoveFirst | Project/Assets/TaleCraft/Runtime/InventorySystem/InventoryManager.cs:39 | `List.Remove`: reports whether x was present, and removes only its first occurrence |
| Interactables.SyncCommand | Project/Assets/TaleCraft/Runtime/CommandSystem/Interactable.cs:57-66 | reuses the first entry with the command's Guid, unrenamed, or makes a new empty one |
| Interactables.UpdateCommands | Project/Assets/TaleCraft/Runtime/CommandSystem/Interactable.cs:51-69 | one entry per manager command, in manager order, each with that command's Guid |
| Interactables.UpdateCommandsIdempotent | Project/Assets/TaleCraft/Runtime/CommandSystem/Interactable.cs:51-69 | with unique Guids, syncing twice is syncing once |
| Interactables.CountRolesPartition | Project/Assets/TaleCraft/Runtime/CommandSystem/Interactable.cs:80-83 | every role of a rule is an Object or a Connector |
| Interactables.IsDone | Project/Assets/TaleCraft/Runtime/CommandSystem/Interactable.cs:74-84 | true without sentence structures; otherwise true exactly when the command's rule has as many Object roles as the sequence has pairs; a missing structure is an error |
| Interactables.CheckPrevious | Project/Assets/TaleCraft/Runtime/CommandSystem/Interactable.cs:146-162 | true without RequireInteractables; otherwise one fewer previous entry than pairs, each null or equal to its pair's item |
| Interactables.Verdict | Project/Assets/TaleCraft/Runtime/CommandSystem/Interactable.cs:129-135 | an action qualifies exactly when CheckPrevious and all its conditions hold |
| Interactables.FindAction | Project/Assets/TaleCraft/Runtime/CommandSystem/Interactable.cs:125-141 | no action exactly when none qualifies; a returned action qualifies and every earlier one fails |
| Interactables.FindActionIsFirst | Project/Assets/TaleCraft/Runtime/CommandSystem/Interactable.cs:125-141 | the first qualifying action is the one returned |
| Interactables.Register | Project/Assets/TaleCraft/Runtime/CommandSystem/Interactable.cs:27-31 | an inventory or world object appends (its item, itself) to the sequence; other interactables append nothing |
| Interactables.MovesFirst | Project/Assets/TaleCraft/Runtime/CommandSystem/Interactable.cs:97-102 | without a position nothing moves; a left click moves first when MoveCloserL is set; a right click when MoveCloserR is set or DuplicateActions and MoveCloserL are |
| Interactables.ExecuteAction | Project/Assets/TaleCraft/Runtime/CommandSystem/Interactable.cs:89-120 | the action ends (EndAction); a found custom action fires its clicked event, otherwise the default action of the selected Guid fires |
| Interactables.Interact | Project/Assets/TaleCraft/Runtime/CommandSystem/Interactable.cs:24-45 | registers first; stops when no command has the selected Guid or the sentence is not done; otherwise executes the action |
| Sentences.Sentence | Project/Assets/TaleCraft/Runtime/CommandSystem/UI/DisplaySentence.cs:56-87 | Rule.Count + 1 parts, the first the selected command's name; a null item is a null reference |
| Sentences.FillFaults | Project/Assets/TaleCraft/Runtime/CommandSystem/UI/DisplaySentence.cs:69-81 | filling fails only on a null item |
| Sentences.FillEmptyTail | Project/Assets/TaleCraft/Runtime/CommandSystem/UI/DisplaySentence.cs:75-83 | after the first unfilled part every later part stays null |
| Sentences.CreateSentence | Project/Assets/TaleCraft/Runtime/CommandSystem/UI/DisplaySentence.cs:56-87 | the loop builds the recursive definition: Rule.Count + 1 parts, the command name first, nulls only at the end |
| Sentences.FillComplete | Project/Assets/TaleCraft/Runtime/CommandSystem/UI/DisplaySentence.cs:63-74 | with enough items and connectors, Connector roles take connectors in order and Object roles take item names in order |
| Sentences.DoneSentenceComplete | Project/Assets/TaleCraft/Runtime/CommandSystem/UI/DisplaySentence.cs:56-87 | when the command is done, every part of its sentence is filled |
| Sentences.Join | Project/Assets/TaleCraft/Runtime/CommandSystem/UI/DisplaySentence.cs:50 | the parts separated by single spaces, with null parts empty |
| Sentences.GetSentence | Project/Assets/TaleCraft/Runtime/CommandSystem/UI/DisplaySentence.cs:40-51 | empty with no selected command or a null structure; otherwise the joined sentence |
| Sentences.SentenceStartsWithCommand | Project/Assets/TaleCraft/Runtime/CommandSystem/UI/DisplaySentence.cs:40-51 | a non-empty sentence starts with the selected command's name |
| CommandDisplay.ReloadUnused | Project/Assets/TaleCraft/Runtime/CommandSystem/UI/DisplayCommands.cs:65-77 | exactly the manager commands whose Guid is absent from the panel, so no Guid is in both lists |
| CommandDisplay.ReloadUnusedInOrder | Project/Assets/TaleCraft/Runtime/CommandSystem/UI/DisplayCommands.cs:65-77 | the unused list keeps manager order |
| CommandDisplay.ReloadUIName | Project/Assets/TaleCraft/Runtime/CommandSystem/UI/DisplayCommands.cs:162-164 | entry i takes the new name and the other entries are unchanged; a bad index is IndexOutOfRange |
| CommandDisplay.ReloadUINameKeepsUnused | Project/Assets/TaleCraft/Runtime/CommandSystem/UI/DisplayCommands.cs:162-164 | renaming does not change the unused list |
| CommandDisplay.GetPosition | Project/Assets/TaleCraft/Runtime/CommandSystem/UI/DisplayCommands.cs:196-203 | zero for columnCount 0; fails only for int.MinValue / -1 |
| CommandDisplay.GetPositionRows | Project/Assets/TaleCraft/Runtime/CommandSystem/UI/DisplayCommands.cs:196-203 | the first row is at startY, stepping by width; the slot columnCount further on is one height lower |
| Layout.TruncDiv | Project/Assets/TaleCraft/Runtime/CommandSystem/UI/DisplayCommands.cs:201-202 | C# integer division truncates toward zero |
| Layout.TruncMod | Project/Assets/TaleCraft/Runtime/CommandSystem/UI/DisplayCommands.cs:201 | the C# remainder has the sign of the dividend, is smaller than the divisor in magnitude, and completes the division: a == (a / b) * b + a % b |
| Layout.GridPosition | Project/Assets/TaleCraft/Runtime/InventorySystem/UI/DisplayInventory.cs:260-266 | zero for columnCount 0; overflow exactly for int.MinValue / -1 |
| Layout.GridFirstRow | Project/Assets/TaleCraft/Runtime/InventorySystem/UI/DisplayInventory.cs:260-266 | an index below columnCount lies on the first row at column index |
| Layout.GridNextRow | Project/Assets/TaleCraft/Runtime/InventorySystem/UI/DisplayInventory.cs:264-265 | for i >= 0, position i + columnCount is one height below position i |
| InventoryDisplay.IsOutside | Project/Assets/TaleCraft/Runtime/InventorySystem/UI/DisplayInventory.cs:252-255 | outside [ItemIdx, ItemIdx + MaxItemCount) when the sum fits; everything is outside when it overflows |
| InventoryDisplay.GetPosition | Project/Assets/TaleCraft/Runtime/InventorySystem/UI/DisplayInventory.cs:260-266 | zero for ColumnCount 0; fails only for int.MinValue / -1 |
| InventoryDisplay.GetPositionNextRow | Project/Assets/TaleCraft/Runtime/InventorySystem/UI/DisplayInventory.cs:264-265 | for i >= 0 the slot ColumnCount further on is one Height lower |
| InventoryDisplay.FindSlot | Project/Assets/TaleCraft/Runtime/InventorySystem/UI/DisplayInventory.cs:74-82 | the first slot with the item, or null when none has it |
| InventoryDisplay.Place | Project/Assets/TaleCraft/Runtime/InventorySystem/UI/DisplayInventory.cs:186-191 | a child is shown exactly when it is not outside, at GetPosition(i - ItemIdx) |
| InventoryDisplay.SetActiveItems | Project/Assets/TaleCraft/Runtime/InventorySystem/UI/DisplayInventory.cs:178-197 | every child is placed by that rule |
| InventoryDisplay.WindowShown | Project/Assets/TaleCraft/Runtime/InventorySystem/UI/DisplayInventory.cs:178-197 | without overflow, exactly children ItemIdx .. ItemIdx + MaxItemCount - 1 are shown, the first at slot 0 |
| InventoryDisplay.UpdateInventory | Project/Assets/TaleCraft/Runtime/InventorySystem/UI/DisplayInventory.cs:87-107 | ItemIdx goes back to 0, and the children are placed for that window |
| InventoryDisplay.LastStart | Assets/TaleCraft/Runtime/InventorySystem/UI/InventoryScrollButton.cs:71-72 | max(Count - MaxItemCount, 0), never negative |
| InventoryDisplay.ScrollTarget | Assets/TaleCraft/Runtime/InventorySystem/UI/InventoryScrollButton.cs:67-75 | forward: min(ItemIdx + shift, LastStart); backward: max(ItemIdx - shift, 0) |
| InventoryDisplay.Scroll | Assets/TaleCraft/Runtime/InventorySystem/UI/InventoryScrollButton.cs:67-97 | after a backward scroll ItemIdx >= 0, after a forward scroll ItemIdx <= LastStart; each child is re-placed for the new window |
| InventoryDisplay.Inactive | Assets/TaleCraft/Runtime/InventorySystem/UI/InventoryScrollButton.cs:47-61 | the button is grey exactly when its scroll would leave ItemIdx unchanged |
| InventoryDisplay.BackwardGreyAtStart | Assets/TaleCraft/Runtime/InventorySystem/UI/InventoryScrollButton.cs:47-75 | after a backward scroll the backward button is grey exactly when the first item is shown |
| InventoryDisplay.ForwardGreyAtEnd | Assets/TaleCraft/Runtime/InventorySystem/UI/InventoryScrollButton.cs:47-73 | after a forward scroll the forward button is grey exactly when the window has reached LastStart |
| Dialogues.BaseNodeDatas | Assets/TaleCraft/Runtime/DialogueSystem/DialogueGraphData.cs:23-37 | Start, Dialogue, Choice, Event, Branch and End nodes in that order; the length is the sum of the six |
| Dialogues.FirstStartFirst | Assets/TaleCraft/Runtime/DialogueSystem/DialogueGraphData.cs:28 | the first start node is the first node |
| Dialogues.GetNodeByGuid | Project/Assets/TaleCraft/Runtime/DialogueSystem/DialogueController.cs:265-268 | the first node with the guid in BaseNodeDatas order, or null when there is none |
| Dialogues.GetNextNode | Project/Assets/TaleCraft/Runtime/DialogueSystem/DialogueController.cs:281-285 | follows the first edge from the node; a null node or a missing edge is a null reference |
| Dialogues.AllConditions | Project/Assets/TaleCraft/Runtime/DialogueSystem/DialogueController.cs:141-157 | the bool, int, float and string conditions, in that order |
| Dialogues.GraphOkShape | Project/Assets/TaleCraft/Runtime/DialogueSystem/DialogueController.cs:75-79 | a store of the same shape still serves every node's references |
| Dialogues.CheckConditions | Project/Assets/TaleCraft/Runtime/DialogueSystem/DialogueController.cs:244-260 | true exactly when every condition holds, and true with none |
| Dialogues.SetVisited | Project/Assets/TaleCraft/Runtime/DialogueSystem/DialogueController.cs:75-79 | only the node's Visited variable changes, and it becomes true |
| Dialogues.Present | Project/Assets/TaleCraft/Runtime/DialogueSystem/DialogueController.cs:124-132 | a single event is raised when non-null and skipped when null; a list without nulls is raised whole, each event once, in list order |
| Dialogues.PresentAppend | Project/Assets/TaleCraft/Runtime/DialogueSystem/DialogueController.cs:124-132 | the loop raises the events of a list's first part, then those of the rest, so every non-null event is raised once and in order |
| Dialogues.Step | Project/Assets/TaleCraft/Runtime/DialogueSystem/DialogueController.cs:47-183 | a null node is a null reference; the node is marked visited before anything else; every successor is a node of the graph; the step stops exactly at dialogue, choice, End and undefined end nodes; the resulting session per kind: a dialogue node becomes the current one and nothing else changes; start, choice and branch nodes change only Visited; an event node also appends its raised events; an End node also hides the UI and counts the end event, and other end types change only Visited |
| Dialogues.RunEnd | Project/Assets/TaleCraft/Runtime/DialogueSystem/DialogueController.cs:166-183 | End hides the UI and counts the end event; Repeat fails exactly without a current dialogue node and otherwise goes on unchanged; ReturnToStart fails exactly without a start node or its next node, and otherwise goes on unchanged to that next node; an undefined end type stops with nothing changed; variables and raised events are untouched |
| Dialogues.ChoiceOnlyMarked | Project/Assets/TaleCraft/Runtime/DialogueSystem/DialogueController.cs:47-70 | a choice node is only marked, never run |
| Dialogues.StartAndEventContinue | Project/Assets/TaleCraft/Runtime/DialogueSystem/DialogueController.cs:84-132 | start and event nodes go on to their next node; event nodes raise their events |
| Dialogues.BranchChoosesByConditions | Project/Assets/TaleCraft/Runtime/DialogueSystem/DialogueController.cs:137-161 | a branch goes to TrueGuidNode exactly when all conditions hold on the marked variables, else to FalseGuidNode |
| Dialogues.EndBehaviour | Project/Assets/TaleCraft/Runtime/DialogueSystem/DialogueController.cs:166-183 | End hides the UI and fires the end event; Repeat re-enters the last dialogue node; ReturnToStart runs the first start node's successor or fails with no start node |
| Dialogues.RunFrom | Project/Assets/TaleCraft/Runtime/DialogueSystem/DialogueController.cs:47-70 | the run keeps the variable store's shape, and runs out of fuel at 0 |
| Dialogues.LastTurn | Project/Assets/TaleCraft/Runtime/DialogueSystem/DialogueController.cs:47-70 | a run succeeds exactly when it has a last turn; that turn ran a node of the graph at which CheckNodeType returns, and its step produced the run's final session; a run that stops at a dialogue node leaves that node as the current one |
| Dialogues.RunFromGoto | Project/Assets/TaleCraft/Runtime/DialogueSystem/DialogueController.cs:47-70 | one step that moves on is one turn of the run |
| Dialogues.SelfLoopNeverStops | Project/Assets/TaleCraft/Runtime/DialogueSystem/DialogueController.cs:84-87 | a start node whose next node is itself runs until the fuel is gone, whatever the fuel |
| Dialogues.StartDialogue | Project/Assets/TaleCraft/Runtime/DialogueSystem/DialogueController.cs:31-42 | fires the start event and shows the UI; with no start node it stops, otherwise it runs the first start node |
| Dialogues.Advance | Project/Assets/TaleCraft/Runtime/DialogueSystem/DialogueController.cs:188-211 | continuing fails with a null reference when the last dialogue node is missing or has no next node, and otherwise is the run from that next node |

## Left out

- Floating point: coordinates, distances and scores are `real`. Rounding,
  NaN, infinities and the `float.MaxValue` gScore sentinel are not modelled;
  an undiscovered node is one whose `known` flag is false.
- `Math.Sqrt` is a parameter, not a definition. Facts about distances are
  stated on squared distances, which need no square root
  (`Geometry.SegmentNoFartherThanEnds`). That the heuristic is zero at the
  end node is not stated: it needs `root(0) == 0`, which follows from
  `IsSqrt` only through the nonlinear step `h * h == 0 ==> h == 0`, and
  that step does not verify reliably once the square root's axioms are in
  scope.
- Polygons.GetClosestPointOnEdgeIsClosest: compares the chosen point with
  every edge's computed segment distance (`DistanceToSegment`), not with
  every point of every edge. That the clamped projection is nearer than all
  other points of its segment is a polynomial inequality over real
  coordinates that the solver does not close.
- Interactables.Interact: on an error the whole manager state is dropped,
  including the (item, interactable) pair that `AddAction` already appended
  before `IsDone` throws (Interactable.cs lines 24-45).
- Dialogues.Step: on an error the session is dropped, including the
  Visited flag and the events already raised before `GetNextNode` throws.
  RunFrom, Advance and StartDialogue pass this on.
- InventoryDisplay.UpdateInventory: null inventory entries are assumed
  absent. `CreateSlots` skips them (DisplayInventory.cs lines 131-132), so
  with nulls the C# places fewer slots than the model does.
- AStarSearch.FindShortestPath: does not state that the path is shortest,
  or that gScores only decrease; it states that the path is a walk from 0 to
  1, and that an empty result means node 1 is unreachable. The main loop is
  bounded by `fuel`, since termination over reals needs the optimality
  argument.
- Dialogues.RunFrom: bounded by `fuel`, because `CheckNodeType` recurses
  for ever on a cyclic graph; a run that would not end returns `OutOfFuel`.
- Asynchronous movement (`CharacterMovement`, `MoveCloser`, the awaits in
  `ExecuteAction`) becomes a `moveFirst` flag in the returned effect.
  Gizmo drawing, the editor, UI text and buttons are left out.
- `SpriteScaler.cs`: floating-point scaling with `Math.Exp`; not core logic.
- The dialogue node's `SetButtons` UI, the wait timer and `GetNodeByPort`
  are left out. Advancing past a dialogue node is `Dialogues.Advance`.
- `DisplayCommands` `ApplyCommandNames`, `RemoveChildren` and `AddMissing`,
  and the inventory's slot instantiation, `SetIcon` and `SetName` are
  scene-object lifecycle and are left out.
- `ListChildrenWithComponent` (Polygon and WalkableMap) scans the scene
  hierarchy and is left out. The constraint accessors of WalkableMap are
  the map's flag fields, read directly.
- Null entries in the command list, `DefaultActions`, the labeled-action
  list and condition lists are assumed absent, except where the model
  returns `NullReference` (a condition's variable, an item of the action
  sequence, a dialogue node).
- Commands.UpdateCommands: does not model that two commands with the same
  Guid share one `BasicCommandAction` object. In the C# both list entries
  refer to it, and its name ends up as the later command's.
- Interactables.UpdateCommands: `CommandData` objects are values here. In
  the C# a new entry shares the manager's `CommandData` object, so a later
  rename is seen through both.
- InventoryDisplay.ForwardGreyAtEnd: requires that neither the step from
  ItemIdx nor the step from LastStart overflows 32 bits.
- `Debug.Assert(false)` in `FindEdge` becomes `Ok(None)` when the bucket
  exists but holds no matching edge.
- Polygons.DestroyPoint: the source Point object of a vertex is a tag; its
  destruction in the scene is left out.
- `BaseNodeDatas` builds a fresh list every time. With immutable sequences
  this holds trivially and has no separate statement.
- Notifications (`OnInventoryChanged`, `OnCommandEnd`, dialogue start and
  end events) are counters in the state.
