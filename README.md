# Wellington train network: graph, A* search, components and articulation points

This project models the core of a Java journey planner for the Wellington
public-transport network. It also proves what that core promises.

- **The graph** (`Graph.java`) holds the stops in name order. Each stop has:
  - a list of forward edges (edges leaving it);
  - a list of backward edges (edges entering it);
  - a set of undirected neighbours;
  - a component label.

  The graph also holds the set of all edges, the lines and the transfers.
  - It builds one edge per consecutive pair of stops on each line.
  - It attaches each transfer to the first edge that joins the transfer's
    two stops.
  - It gathers each stop's neighbours from both of its edge lists.
  - It can add walking edges between stops that are close to each other,
    and remove them again.
  - It answers name-prefix queries.
- **The shortest-path search** (`AStar.java`, `PathItem.java`) is A*. The
  fringe holds path items and is ordered by estimated total cost (cost so
  far plus a straight-line heuristic). Each visited stop records a back
  link (the edge it was reached by), and the path is rebuilt from these back links. Cost is
  measured either in distance or in time.
- **Strongly connected components** (`Components.java`) are found with
  Kosaraju's two passes. A forward depth-first pass pushes each stop when
  its search finishes. Backward searches are then started in reverse
  finishing order, and each one labels a component.
- **Articulation points** (`ArticulationPoints.java`) come from a
  depth-first search over the neighbour sets. It numbers the stops in
  discovery order and computes each stop's low value. A root is reported
  when it has more than one child. Any other stop is reported when some
  child's low value is not below the stop's own number.

Each stop is an index 0..n-1 into the name-ordered stop collection. Each
edge carries an identity, so two edges with equal attributes stay two edges.

The geometry (distances between stops, walking speed and train speed) is a
parameter of the graph. The model never computes positions.

`Network.Graph` is a class. Its fields are the per-stop lists, the
neighbour sets, the labels, the component count, the edge set and the
transfer attachment. Its methods update these fields in place and keep the
invariant `Valid()`:
- every edge of the edge set is in the forward list of its origin and in the
  backward list of its destination;
- the lists hold nothing else;
- every neighbour is a graph stop.

The algorithms with loops are methods. Each method is proved against a
specification function or predicate, and the lemmas beside it state what
that specification means.

## Model

| member | source | states |
|---|---|---|
| Network.Graph.constructor | src/main/java/Graph.java:30-41 | The edges are exactly the line edges, in line order. Each stop's forward list holds exactly the graph edges that leave it, and its backward list exactly those that enter it. Each neighbour set is the targets of the stop's forward list plus the sources of its backward list, and the relation is symmetric. The transfers are attached as `AttachAll` says. Every label is -1 and the count is 0. |
| Network.Graph.CreateAndConnectEdges | src/main/java/Graph.java:100-115 | The edge set and every stop's two lists are extended by exactly the batch of line edges, in order. The invariant holds again, and the identity counter moves past the new edges. |
| Network.Graph.AddTransfersToEdges | src/main/java/Graph.java:53-70 | The attachment becomes the old attachment with all transfers attached in order. Nothing else about the graph changes, and the invariant is kept. |
| Network.Graph.ComputeNeighbours | src/main/java/Graph.java:123-136 | Each neighbour set becomes the old set plus the targets of the forward edges and the sources of the backward edges. A symmetric relation stays symmetric. |
| Network.Graph.RecomputeWalkingEdges | src/main/java/Graph.java:151-175 | The edge set and the lists are extended by exactly the walking edges for every ordered pair of distinct stops within the walking distance: two edges per pair, in the pair order. The invariant is kept. |
| Network.Graph.RemoveWalkingEdges | src/main/java/Graph.java:184-191 | The edge set and every stop's two lists lose exactly their walking edges and keep everything else in order. Every label is -1, the count is 0, and the invariant holds. |
| Network.Graph.GetFirstMatchingStop | src/main/java/Graph.java:213-220 | The result is the first stop in name order whose name starts with the prefix, or None exactly when no name does. This equals the head of `Matching`. |
| Network.Graph.GetAllMatchingStops | src/main/java/Graph.java:226-234 | The result is exactly `Matching` over all stops. |
| Network.Graph.SetSubGraphCount | src/main/java/Graph.java:239-242 | The count becomes `num`. A count of 0 also clears every label to -1; any other count leaves the labels unchanged. |
| Network.Graph.ResetSubGraphIds | src/main/java/Graph.java:247-252 | Every label becomes -1 and the count becomes 0. |
| Network.Matching | src/main/java/Graph.java:226-234 | A stop is in the result exactly when it is among the first k stops and its name starts with the prefix. The result is in strictly increasing stop order. |
| Network.SegmentsShape | src/main/java/Graph.java:104-109 | The i-th edge of a line joins the line's i-th stop to the next one. It has the line's transport type and index, the difference of the two time offsets, and the distance between the two stops as its length. |
| Network.SegmentsMembers | src/main/java/Graph.java:104-109 | Every edge of a line joins two of the line's stops, belongs to that line, and has an identity in the range handed out. |
| Network.AllLineEdgesMembers | src/main/java/Graph.java:101-114 | Every edge derived from the lines belongs to one of the lines and joins two of that line's stops. The i-th edge has the identity id + i. |
| Network.AllLineEdgesNumbered | src/main/java/Graph.java:101-114 | The line edges are numbered consecutively from the counter, in the order they are created. |
| Network.LinesBetween | src/main/java/Graph.java:101-112 | Edges of lines whose stops are graph stops join graph stops and are numbered consecutively from the counter. |
| Network.GrowLines | src/main/java/Graph.java:101-114 | The line-by-line loop extends the edge set and the lists by exactly `AllLineEdges`. |
| Network.GrowLine | src/main/java/Graph.java:104-113 | The loop over one line's consecutive stop pairs extends the edge set and the lists by exactly that line's edges. |
| Network.WalkingEdgesExact | src/main/java/Graph.java:153-170 | For every two distinct stops within walking distance there is a walking edge each way. Every walking edge joins two distinct graph stops that are within walking distance one way or the other. |
| Network.WalkingBetween | src/main/java/Graph.java:153-169 | Walking edges join graph stops and are numbered consecutively from the counter, in the order they are created. |
| Network.DistinctGrown | src/main/java/Graph.java:109-110 | Appending new edges numbered on from the counter, to edges whose identities all lie below it, keeps every identity distinct. Each new edge object stays a separate member of the edge set. |
| Network.GrowWalking | src/main/java/Graph.java:153-172 | The nested loop over ordered stop pairs extends the edge set and the lists by exactly `WalkingEdges`. |
| Network.GrowWalkRow | src/main/java/Graph.java:154-170 | The inner loop for one stop extends the edge set and the lists by exactly that stop's row of walking edges. |
| Network.RemoveUndoesAdd | src/main/java/Graph.java:184-190 | Removing walking edges after adding them to a list that had none gives back the original list. |
| Network.FilterWalking | src/main/java/Graph.java:186-189 | The edge set and every list lose exactly their walking edges, and the set and the lists stay consistent. Distinct identities stay distinct. |
| Network.DistinctFilter | src/main/java/Graph.java:189 | Removing the walking edges from a sequence whose identities are distinct leaves them distinct. |
| Network.DeleteWalking | src/main/java/Graph.java:186-188 | Every stop's list becomes that list without its walking edges. |
| Network.FirstMatch | src/main/java/Graph.java:56-62 | The result is the position of the first edge with the transfer's from-stop and to-stop. It is None exactly when no edge has those endpoints. |
| Network.FindMatch | src/main/java/Graph.java:57-62 | The scan that stops at the first matching edge returns `FirstMatch`. |
| Network.AttachTransfers | src/main/java/Graph.java:54-68 | The loop over the transfers computes `AttachAll`. |
| Network.AttachAllSound | src/main/java/Graph.java:54-68 | Every attachment that was added or changed joins an edge to a transfer that has the same two endpoints. |
| Network.AttachUnmatched | src/main/java/Graph.java:63 | A transfer that matches no edge leaves the attachment unchanged. |
| Network.WithAdjacentMembers | src/main/java/Graph.java:124-133 | v is a neighbour of s afterwards exactly when it was one before, or some forward edge of s enters v, or some backward edge of s leaves v. |
| Network.AddNeighbours | src/main/java/Graph.java:124-133 | The loop over the stops computes `WithAdjacent`. |
| Network.CollectTargets | src/main/java/Graph.java:126-128 | The result is exactly the set of targets of the forward edges. |
| Network.CollectSources | src/main/java/Graph.java:129-131 | The result is exactly the set of sources of the backward edges. |
| Network.WithAdjacentIdempotent | src/main/java/Graph.java:123-136 | Computing the neighbours a second time from the same lists changes nothing. |
| Network.WithAdjacentBounded | src/main/java/Graph.java:124-133 | When the edges join graph stops, every neighbour stays a graph stop. |
| Network.WithAdjacentSymmetric | src/main/java/Graph.java:117-133 | When every edge is in the lists at both of its ends, a symmetric neighbour relation stays symmetric, so the neighbour graph is undirected. |
| PathItems.CompareTo | src/main/java/PathItem.java:12-20 | The result is -1, 1 or 0 exactly when this item's estimated total is below, above or equal to the other's. |
| PathItems.CompareAntisymmetric | src/main/java/PathItem.java:12-20 | Swapping the two items negates the comparison. |
| PathItems.CompareTransitive | src/main/java/PathItem.java:12-20 | The order is transitive. |
| PathItems.CompareIgnoresRest | src/main/java/PathItem.java:10-20 | The order depends on the estimated total alone: the stop, the edge and the cost so far do not affect it. |
| PathItems.LeastExists | src/main/java/PathItem.java:10-20 | Every non-empty fringe has a least item in this order, so a poll always has something to return. |
| ShortestPath.MetricOf | src/main/java/AStar.java:21 | The search measures time exactly when the argument is "time", and distance for any other string. |
| ShortestPath.TimeEstimateBelowDistance | src/main/java/AStar.java:67-71 | The time estimate (distance over train speed) never exceeds the distance estimate. |
| ShortestPath.CostAppend | src/main/java/AStar.java:50 | The cost of two consecutive pieces of a path is the sum of their costs. |
| ShortestPath.HeuristicAlongPath | src/main/java/AStar.java:51 | With a consistent heuristic, the estimate at a stop is at most the cost of any path to another stop plus that stop's estimate. |
| ShortestPath.InitialInv | src/main/java/AStar.java:25-29 | The empty visited set and back links, together with a fringe holding only the start item, satisfy the search invariant. |
| ShortestPath.PopOptimal | src/main/java/AStar.java:32-34 | With a consistent heuristic, the cost so far of a least fringe item for an unvisited stop is at most the cost of any path from the start to that stop. |
| ShortestPath.VisitOptimal | src/main/java/AStar.java:33-35 | Visiting a least fringe item keeps every visited stop's recorded cost optimal. |
| ShortestPath.Visit | src/main/java/AStar.java:32-35 | Visiting a least item for a new stop keeps the back-link tree and the fringe sound. With a consistent heuristic it keeps the costs optimal. The start stops being unvisited, and fewer stops remain unvisited. |
| ShortestPath.Expand | src/main/java/AStar.java:48-54 | The fringe becomes the old fringe plus exactly `Pushes`: one item per forward edge of the stop into an unvisited stop, and nothing else. Every added item is sound. Every such edge has been pushed, with its cost so far and its estimate. |
| ShortestPath.PushesMember | src/main/java/AStar.java:48-53 | An item is among the pushed items exactly when some forward edge into an unvisited stop produces it. |
| ShortestPath.PushesOk | src/main/java/AStar.java:48-53 | Adding the pushed items to a sound fringe keeps the fringe sound. |
| ShortestPath.Skip | src/main/java/AStar.java:32-33 | Discarding a polled item for a visited stop keeps the invariant and shrinks the fringe. |
| ShortestPath.Exhausted | src/main/java/AStar.java:31-57 | When the fringe runs empty, no path from the start to the goal exists. |
| ShortestPath.Reconstruct | src/main/java/AStar.java:38-46 | Following the back links from the goal gives a path from the start to the goal whose cost is the goal's recorded cost. It is empty when start and goal coincide. |
| ShortestPath.AStar | src/main/java/AStar.java:25-57 | The result is a path from the start to the goal, or Unreachable exactly when no such path exists. When start and goal coincide the path is empty. With a consistent heuristic, the path returned costs no more than any other path. |
| ShortestPath.FindShortestPath | src/main/java/AStar.java:19-58 | A missing endpoint gives MissingEndpoint, which is the null return. Otherwise the search result is over the graph's forward lists, with the metric chosen by the argument string. |
| Components.DfsForward | src/main/java/Components.java:70-79 | The search visits the stop and every stop reachable from it through stops not visited before. Every stop it newly visits is reachable in that way, so it visits no others. It pushes each of them exactly once above the old stack, with the start stop last. |
| Components.ForwardPass | src/main/java/Components.java:37-41 | The stack holds every graph stop exactly once. |
| Components.DfsBackward | src/main/java/Components.java:59-68 | The search labels the stop and every stop from which it is reachable through stops not visited before, all with the current id. Every stop it newly labels is such a stop. Every other label is unchanged. |
| Components.PassStep | src/main/java/Components.java:45-50 | A backward search from the next unlabelled stack entry labels, with the next id, exactly the stops that reach that entry through unlabelled stops. The entry is recorded as that id's start. |
| Components.BackwardPass | src/main/java/Components.java:43-51 | Going down the stack, every stop receives an id in [0, count), and count is the number of searches started. Id k labels exactly the stops that reach `starts[k]` without passing through a stop with a smaller id. `starts[k]` sits at `pos[k]` on the stack, and every later entry carries a smaller id. |
| Components.FindComponents | src/main/java/Components.java:29-57 | The labels are cleared and the neighbours computed. `order` is the stack the labels were assigned from, and it lists every stop once. Every stop's id lies in [0, count) and every id in that range is used. Id k labels exactly the stops that reach `starts[k]` without passing through a stop with a smaller id, and `starts[k]` is the latest entry of `order` without a smaller id. Only the labels, the count and the neighbour sets are written. |
| ArticulationPoints.ForestKeep | src/main/java/ArticulationPoints.java:44-69 | The rule of a finished stop survives later steps that keep its number, parent, low value and report, and that hang new stops below unfinished ones. |
| ArticulationPoints.ChildStep | src/main/java/ArticulationPoints.java:52-58 | After a tree child's search the child is finished and joins the stop's children. Its low value joins the running minimum. A non-root stop is reported when the child's low value is not below the stop's number. |
| ArticulationPoints.SeenStep | src/main/java/ArticulationPoints.java:59-61 | A visited neighbour other than the parent lowers the running minimum to at most its number. The parent changes nothing. |
| ArticulationPoints.EndForest | src/main/java/ArticulationPoints.java:64-68 | When the loop ends, the stop is finished with its parent and the minimum as its low value. A root is reported exactly when it has more than one child. The rules of all other finished stops are kept. |
| ArticulationPoints.Dfs | src/main/java/ArticulationPoints.java:44-69 | The stop gets the next discovery number, numbers stay distinct, old numbers never change and new stops are numbered from the old count. The search finishes every stop it visits. Each is recorded with the stop it was entered from and its low value. It returns the low value of its own stop. Every finished stop obeys its rule. Its parent is a neighbour numbered before it, or itself at a root. Its low value is the least of its number, its tree children's low values and the numbers of its neighbours other than its parent. It is reported exactly when it is a root with more than one tree child, or a non-root with a child whose low value is not below its number. |
| ArticulationPoints.Search | src/main/java/ArticulationPoints.java:34-39 | Every stop gets a distinct number, a recorded parent and a low value, and every stop obeys the rule above. So a stop is reported exactly when it is a root with more than one tree child, or a non-root with a tree child whose low value is not below its number. Only stops that have a neighbour are reported. |
| ArticulationPoints.FindArticulationPoints | src/main/java/ArticulationPoints.java:25-42 | The neighbours are computed first. Then every stop is numbered and obeys the rule of the search over the neighbour sets, as for `Search`. |

## Left out

- Printing (`printGraphData` and every `System.out.println`) is not modelled; it produces output only.
- Stop.java, Edge.java, Line.java, Transport.java and Trip.java are not part of this model. Stops are indices, an edge is a value with an identity, and distances and speeds come from a `Geometry` parameter.
- Floating point: distances, times and costs are integers, and a walking or heuristic time is a whole division. The rounding of `double` is not modelled.
- Edge time is an `int`: the difference of two time offsets may be negative, as in the code, and no precondition excludes it.
- The edge set is a sequence in creation order, and each edge's identity stands for the edge object. The invariant keeps the identities distinct, as distinct objects are distinct members of the hash set. Hashing itself is not modelled.
- Hash-set and hash-map iteration order: stops are traversed in name order, as the sorted set gives them. The articulation search takes a stop's neighbours from a set in an unspecified order.
- The A* fringe is a multiset, and a poll returns any least item: the priority queue's tie-breaking is not modelled.
- `Edge.addTransfer` is modelled as a map from edge identity to the last transfer attached to that edge.
- `getStops`, `getEdges` and `getSubGraphCount` are plain field reads and have no members of their own.
- The two-argument constructor is the three-argument one without transfers, and has no member of its own.
- AStar's static `timeOrDistance` field becomes a `Metric` parameter. The third branch of `heuristic` and `edgeCost` (returning 0 and 1) cannot be taken, because the field always holds one of the two literals, so it is not modelled.
- ShortestPath.FindShortestPath: the single null result is split into `MissingEndpoint` and `Unreachable`, and the path is built by prepending edges instead of appending and reversing.
- ShortestPath.AStar: the path is proved cheapest only under a consistent heuristic, which the code does not guarantee (edge times come from timetables).
- Components.FindComponents: it does not prove that two stops share an id exactly when each reaches the other (Kosaraju's theorem). It proves that id k labels exactly the stops that reach the k-th start without passing through a stop with a smaller id. It also proves that the k-th start is the latest stack entry without a smaller id, that the stack lists every stop once, and that the ids are dense.
- Components.ForwardPass: the stack is stated to hold every stop once. That it is in finishing order is stated per search (each search pushes its stops above the old stack, its start last), not for the pass as a whole.
- ArticulationPoints.FindArticulationPoints: it does not prove that a stop is reported exactly when removing it disconnects its component. It proves that every stop obeys the numbering, low-value and reporting rules over the recorded parent links.
- ArticulationPoints.Search: the recorded parent links satisfy the rules above, but they are not proved to form a depth-first forest in which every neighbour numbered later lies in the stop's subtree. Nor is the order in which roots are started tied to the numbering. So other forests obey the same rules. For the path a–b–c, numbering a, c, b with c as a second root and b as a's child meets every rule and reports nothing, where the search reports b. The cut-vertex theorem rests on exactly the depth-first property.
- The articulation search's static `visited` set, and the component passes' visited set and stack, are threaded through the recursion as values.
- Walking edges are created per ordered pair, so each pair of close stops yields two edges each way, one per order. The model follows the code.
- Network.Graph.ComputeNeighbours: it adds to the existing neighbour sets rather than replacing them, following the code. The code documents that no walking edges are present at this point, but nothing requires it.
- Concurrency, and the user interface that calls these operations, are not modelled.
