# Verified model of a directed and an undirected graph class

This project models, in Dafny, the two graph classes of a small Python graph
library and proves what their operations compute.

- `DirectedGraph` (directed.py) keeps a dense `v_count × v_count` weight
  matrix, where 0 means "no edge". It offers `add_vertex`, `add_edge`,
  `remove_edge`, the snapshots `get_vertices` and `get_edges`,
  `is_valid_path`, depth- and breadth-first search in index order,
  `has_cycle`, and an O(V²) Dijkstra.
- `UndirectedGraph` (undirected.py) keeps a dictionary from single-character
  labels to ordered neighbour lists. It offers `add_vertex`, `add_edge`,
  `remove_edge`, `remove_vertex`, `get_vertices`, `get_edges`,
  `is_valid_path`, alphabetical depth- and breadth-first search,
  `count_connected_components` and an iterative, parent-tracking
  `has_cycle`.

Both classes are modelled as Dafny classes whose methods update their fields
in place, with loops and loop invariants where the Python code loops.

- `Directed.DirectedGraph` has the fields `vCount` and `adjMatrix`
  (a `seq<seq<int>>`).
- `Undirected.UndirectedGraph` has the fields `adj`
  (a `map<char, seq<char>>`) and `order`. `order` is the dictionary's
  insertion order, which Python iteration follows.

Each method is proved against specification functions on these fields:

- the edge set `E()`;
- reachability along walks;
- a depth-first or breadth-first visiting order over sorted neighbour lists;
- connected components;
- shortest path weights;
- directed and undirected cycles.

Properties that relate several calls are proved as lemmas about those
functions.

Files:

- `lists.dfy`: `list.remove`, `reversed`, `sorted` on characters, and
  duplicate-freedom.
- `walks.dfy`: walks, reachability and closed sets, generic in the vertex type.
- `traversal.dfy`: what makes a sequence a depth-first or breadth-first
  visiting order, and the stack and queue invariants of the search loops.
- `digraph_spec.dfy`: the weight matrix, successor lists, distances
  (`Fin(n)` or `Inf`), the Dijkstra invariant, and directed cycles.
- `directed.dfy`: the class `DirectedGraph`.
- `ugraph_spec.dfy`: the adjacency map, its invariant (simple graph),
  the edits `Linked`, `Unlinked` and `Detached`, `get_edges` order, and
  components.
- `ucycle.dfy`: undirected cycles, and the spanning forest that the
  `parent` links of `has_cycle` describe.
- `undirected.dfy`: the class `UndirectedGraph`.
- `directed_demo.dfy`: two examples of directed.py's `__main__` block, replayed.

### Behaviour kept as the code has it

- Directed `add_vertex` rebuilds the matrix as zeros, so every existing edge
  is lost (directed.py:60).
- Undirected `add_vertex` on an existing label empties its list and leaves
  the other lists pointing at it, so the graph stops being symmetric
  (undirected.py:50). `AddVertex` and `UGraphSpec.ResetBreaksSymmetry`
  state this.
- Directed `is_valid_path` accepts any one-element path, even an
  out-of-range vertex (directed.py:108-115).
- Undirected `has_cycle` raises when no label has a neighbour, because its
  start vertex is never bound (undirected.py:191-195). `HasCycle` returns
  `None` exactly then.
- Labels of the undirected graph are single characters (`char`). `list += str`
  splits a longer string into characters (undirected.py:63-64, 92, 138).
- Undirected `remove_edge(v, u)` checks only `v in adj_list[u]` before it
  removes both directions (undirected.py:69-71). When the lists are not
  symmetric it raises. The model requires, whenever `v` is in the list of `u`,
  that `v` is a key with `u` in its list.

Where the behaviour depends on the graph being simple, the contract says
so with `IsSimple() ==>`. This covers symmetry, no duplicates, no self-loops,
and every neighbour being a key. Simplicity holds after the constructor and
is kept by `add_edge`, `remove_edge`, `remove_vertex` and by `add_vertex`
on a new label.

## Model

| member | source | states |
|---|---|---|
| Directed.DirectedGraph.constructor | directed.py:18-35 | the graph has `max(0, endpoints) + 1` vertices (none without an edge list), and every cell holds the weight of the last positive-weight, non-loop occurrence of that pair in the list |
| DigraphSpec.MaxEndpoint | directed.py:29-31 | bounds every endpoint of the edge list and is one of them (or 0) |
| Directed.LargestEndpoint | directed.py:29-31 | the loop over the edge list ends with the largest endpoint (0 for an empty list) |
| DigraphSpec.LastWeightWellFormed | directed.py:34-35 | the weight loaded for a pair is ≥ 0, is 0 on the diagonal, and when positive comes from an entry of the list |
| DigraphSpec.LastWeightSnoc | directed.py:34-35 | a later entry of the edge list overrides the cell it sets, and leaves every other cell as the earlier entries set it |
| Directed.DirectedGraph.AddEdges | directed.py:34-35 | starting from an all-zero matrix, adding the edges in list order leaves in each cell the weight of the last positive-weight, non-loop occurrence of that pair |
| Directed.DirectedGraph.AddVertex | directed.py:56-62 | `v_count` grows by one and is returned; the matrix is square, and every cell is 0, so no edge remains |
| DigraphSpec.ZeroMatrix | directed.py:60 | the rebuilt matrix is an `n × n` weight matrix whose cells are all 0 |
| DigraphSpec.EdgesOfZeroMatrix | directed.py:60 | the all-zero matrix has no edge |
| Directed.DirectedGraph.AddEdge | directed.py:64-73 | `weight` defaults to 1; cell `[src][dst]` becomes `weight` exactly when both ends are in range, `src != dst` and `weight > 0`; every other cell is unchanged and the edge set gains `(src, dst)` only then |
| Directed.DirectedGraph.RemoveEdge | directed.py:76-84 | cell `[src][dst]` becomes 0 when both ends are in range and differ; every other cell is unchanged; the edge set loses `(src, dst)`, and removing an absent edge changes nothing |
| Directed.DirectedGraph.GetVertices | directed.py:86-90 | the list `0, 1, …, v_count - 1` |
| Directed.DirectedGraph.GetEdges | directed.py:92-102 | the triples `(i, j, m[i][j])` with `m[i][j] > 0`, exactly those, in row-major order |
| DigraphSpec.EdgeIff | directed.py:99 | inside the matrix, `(u, v)` is an edge iff its weight is positive |
| DigraphSpec.EdgeInRange | directed.py:99 | an edge has both ends in range, differs from a loop and has a positive weight |
| Directed.DirectedGraph.IsValidPath | directed.py:104-115 | true iff the path has at most one vertex or every consecutive pair is an edge |
| Directed.DirectedGraph.Dfs | directed.py:118-137 | `[]` for an out-of-range start; otherwise the visit starts at `v_start`, has no duplicates, is reachable, and is the depth-first order with the lowest index first; it holds every reachable vertex when there is no valid target, and ends at the target when the target is reachable |
| Directed.DirectedGraph.DfsFrom | directed.py:126-137 | the search loop yields a depth-first order that ends at the target once the target is visited, and otherwise stops only when no visited vertex has an unvisited successor |
| Directed.DirectedGraph.PushSuccessors | directed.py:132-134 | the stack grows by the successors of `v` in descending index order |
| Directed.DirectedGraph.Bfs | directed.py:140-159 | as `Dfs`, with the breadth-first order that enqueues successors in ascending index order |
| Directed.DirectedGraph.BfsFrom | directed.py:148-159 | the search loop yields a breadth-first order that ends at the target once the target is visited, and otherwise stops only when no visited vertex has an unvisited successor |
| Directed.DirectedGraph.EnqueueFresh | directed.py:156-158 | the queue grows by the unvisited successors of `v` in ascending order |
| Directed.DfsOutcome | directed.py:118-137 | a depth-first order over the successor lists is a traversal of the edge set from the start; when exhausted it holds every reachable vertex |
| Directed.BfsOutcome | directed.py:140-159 | a breadth-first order over the successor lists is a traversal of the edge set from the start; when exhausted it holds every reachable vertex |
| DigraphSpec.PositivesSpec | directed.py:132-134 | the successors of a row are exactly the positive-weight columns, ascending |
| DigraphSpec.ReachableInRange | directed.py:118-137 | a vertex reachable from an in-range vertex is in range |
| Directed.DirectedGraph.HasCycle | directed.py:161-172 | true iff the edge set has a directed cycle |
| DigraphSpec.CycleAvoidsLastVertex | directed.py:166 | every directed cycle passes through a vertex below `v_count - 1`, so skipping the last vertex in the outer loop is safe |
| DigraphSpec.RankedAcyclic | directed.py:161-172 | an edge set with a ranking that rises along every edge has no directed cycle |
| Directed.DirectedGraph.CycleThrough | directed.py:167-170 | a back edge into `i` from its depth-first visit means a directed cycle; no back edge means no vertex reachable from `i` has an edge into `i` |
| Directed.DirectedGraph.BackEdgeInto | directed.py:168-170 | true iff some visited vertex has an edge into `i` |
| DigraphSpec.BackEdgeCycle | directed.py:167-170 | for a traversal that covers everything reachable from `i`: an edge from a visited vertex into `i` closes a directed cycle, and its absence means no reachable vertex has an edge into `i` |
| Directed.DirectedGraph.Dijkstra | directed.py:173-212 | `[0]` on a graph without vertices; otherwise a list of length `v_count` whose entry `k` is the minimum weight of a walk from `src` to `k`, or `Inf` when no walk exists |
| DigraphSpec.PotentialBound | directed.py:173-177 | distances that no edge can improve on bound the weight of every walk from below |
| Directed.DirectedGraph.SuccessorLists | directed.py:186-191 | `neighbors[x]` is the list of positive-weight columns of row `x` |
| Directed.DirectedGraph.SelectClosest | directed.py:196-198 | the chosen vertex is unsettled and has the least tentative distance among the unsettled ones; it is `v0` whenever `v0` is such a vertex, and otherwise the first minimum in the order of `vertices`, which on an ascending list is the lowest-numbered one |
| DigraphSpec.FirstMinimumLowest | directed.py:196-198 | the first minimum of an ascending list is strictly closer than every lower-numbered vertex |
| Directed.DirectedGraph.RelaxSuccessors | directed.py:200-205 | every unsettled successor `z` gets the smaller of its distance and `distance[u] + m[u][z]`; nothing else changes |
| Directed.DirectedGraph.SettleClosest | directed.py:195-207 | one round settles the closest vertex and keeps the Dijkstra invariant, with one vertex fewer left |
| DigraphSpec.DijkstraInit | directed.py:179-185 | the initial distances (0 at `src`, `Inf` elsewhere) satisfy the invariant with every vertex unsettled |
| DigraphSpec.SettleMinimum | directed.py:196-199 | the least tentative distance among unsettled vertices is a lower bound on every walk to that vertex |
| DigraphSpec.SettleAndRelax | directed.py:199-205 | settling that vertex and relaxing its successors keeps the invariant |
| DigraphSpec.DijkstraDone | directed.py:209-212 | with no vertex left, every distance is the shortest one |
| DigraphSpec.ShortestDistanceUnique | directed.py:173-177 | the shortest distance of a vertex is unique |
| DigraphSpec.Relax | directed.py:202-204 | the relaxed distance is the smaller of the current distance and the route |
| Undirected.UndirectedGraph.constructor | undirected.py:19-30 | without an edge list the graph is empty; otherwise its map and key order are `BuildAdj` and `BuildOrder` of the list (`add_edge` replayed pair by pair); either way it is simple, its keys are the endpoints of the non-loop pairs and its edges are those pairs in both orientations |
| Undirected.UndirectedGraph.AddPair | undirected.py:29-30 | one round of the constructor's loop adds the next pair as `BuildAdj` and `BuildOrder` do, keeping the graph simple |
| UGraphSpec.BuildAdjSimple | undirected.py:29-30 | the map built from any pair list is a simple graph whose keys are the endpoints of the non-loop pairs and whose edges are those pairs in both orientations |
| UGraphSpec.BuildOrderKeys | undirected.py:29-30 | the built key order lists every built key exactly once |
| UGraphSpec.OrderStep | undirected.py:57-60 | appending the new endpoints of a non-loop pair keeps the key order listing every key once |
| Undirected.UndirectedGraph.AddVertex | undirected.py:46-50 | the label's list becomes empty and nothing else changes; a new label keeps the graph simple with the same edges; an existing label with neighbours makes it not simple |
| UGraphSpec.ResetBreaksSymmetry | undirected.py:50 | emptying the list of a label that has neighbours breaks symmetry |
| UGraphSpec.WithKeySimple | undirected.py:50 | adding a new label with an empty list keeps the graph simple with the same edges |
| Undirected.UndirectedGraph.AddEdge | undirected.py:52-64 | no change when `u == v`; otherwise missing ends are added in order and, unless already adjacent, each end is appended to the other's list; a simple graph stays simple and gains the edge in both orientations |
| Undirected.UndirectedGraph.AddEndpoints | undirected.py:57-60 | each missing end becomes a key with an empty list, appended to the key order once |
| Undirected.UndirectedGraph.Link | undirected.py:63-64 | appends `u` to the list of `v` and `v` to the list of `u`, nothing else |
| UGraphSpec.LinkedSimple | undirected.py:52-64 | linking two distinct labels keeps a graph simple and adds exactly the two orientations |
| UGraphSpec.AppendBothSimple | undirected.py:62-64 | the two appends keep a graph simple when the labels are not yet adjacent |
| Undirected.UndirectedGraph.RemoveEdge | undirected.py:65-71 | deletes both orientations when `v` is in the list of `u`, and changes nothing otherwise; a simple graph stays simple and loses exactly that edge |
| UGraphSpec.UnlinkedSimple | undirected.py:69-71 | in a simple graph, removing an edge keeps the graph simple and removes exactly its two orientations |
| Undirected.UndirectedGraph.RemoveVertex | undirected.py:74-84 | no change for an unknown label; otherwise the key goes, the order loses it, and no other neighbour count changes; a simple graph stays simple, loses the label from every list, and loses exactly the edges that touch it |
| Undirected.UndirectedGraph.UnlinkNeighbours | undirected.py:82-83 | removing the edge to each copied neighbour leaves every other label's count of labels other than `v` alone; on a simple graph it also removes the label from every list that names it |
| Undirected.UndirectedGraph.UnlinkNext | undirected.py:82-83 | one round removes the edge to the next copied neighbour; on a simple graph one more copied neighbour is then detached from the label, and the rest are still listed |
| UGraphSpec.DetachStep | undirected.py:82-83 | in a simple graph, removing the edge to the next copied neighbour detaches one more neighbour: both lists lose each other and nothing else changes |
| UGraphSpec.UnlinkRound | undirected.py:82-83 | one round keeps the keys, keeps in every other list the count of each label other than `v`, and leaves the copied neighbours still to come in the list of `v` |
| UGraphSpec.DetachedSimple | undirected.py:74-84 | removing a label and its occurrences keeps a graph simple and removes exactly the edges touching it |
| Undirected.UndirectedGraph.GetVertices | undirected.py:86-93 | the keys in insertion order, each once |
| Undirected.UndirectedGraph.GetEdges | undirected.py:94-105 | pair `(a, b)` is reported iff `b` is in the list of `a` and `a` comes no later than `b` in key order; on a simple graph there are no duplicates, and each edge is reported in exactly one orientation |
| Undirected.UndirectedGraph.PairsInto | undirected.py:101-103 | the pairs `(key, value)` with `value` in the list of `key` and still in `keys` |
| UGraphSpec.ListedOnce | undirected.py:94-105 | in a simple graph each edge is listed in one orientation and never in both |
| UGraphSpec.SnapshotStep | undirected.py:100-104 | each round of the outer loop adds the pairs of the next key and keeps the list free of repeats |
| Undirected.UndirectedGraph.IsValidPath | undirected.py:106-122 | `[]` is valid; `[x]` is valid iff `x` is a key; a longer path is valid iff each consecutive pair is reported by `get_edges` in some orientation, which on a simple graph means the path is a walk |
| Undirected.UndirectedGraph.Dfs | undirected.py:124-143 | `[]` for an unknown start; otherwise the visit starts at `v_start`, has no duplicates, is reachable, and is the depth-first order over alphabetically sorted lists; it holds every reachable label when there is no valid target, and ends at the target when the target is reachable |
| Undirected.UndirectedGraph.DfsFrom | undirected.py:133-143 | the search loop yields a depth-first order that ends at the target once the target is visited, and otherwise stops only when no visited label has an unvisited neighbour |
| Undirected.UndirectedGraph.PushSorted | undirected.py:139-140 | the stack grows by the neighbours of `v` in reverse alphabetical order |
| Undirected.UndirectedGraph.Bfs | undirected.py:147-167 | as `Dfs`, with the breadth-first order that enqueues unvisited neighbours alphabetically |
| Undirected.UndirectedGraph.BfsFrom | undirected.py:156-167 | the search loop yields a breadth-first order that ends at the target once the target is visited, and otherwise stops only when no visited label has an unvisited neighbour |
| Undirected.UndirectedGraph.EnqueueFresh | undirected.py:164-166 | the queue grows by the unvisited neighbours of `v` in alphabetical order |
| Undirected.DfsOutcome | undirected.py:124-143 | a depth-first order over the sorted lists is a traversal of the edge set from the start; when exhausted it holds every reachable label |
| Undirected.BfsOutcome | undirected.py:147-167 | a breadth-first order over the sorted lists is a traversal of the edge set from the start; when exhausted it holds every reachable label |
| Lists.SortCharsSpec | undirected.py:139 | `sorted` returns an ascending permutation of the list |
| Lists.RemoveFirstDistinct | undirected.py:104 | on a list without repeats, `remove(x)` deletes `x` and nothing else |
| Undirected.UndirectedGraph.CountConnectedComponents | undirected.py:169-181 | on a simple graph, the number of connected components |
| Undirected.UndirectedGraph.CountNext | undirected.py:175-180 | one round covers the component of the first key left: the count rises by one, the keys left lose exactly that component, and the covered keys stay closed under edges |
| Undirected.UndirectedGraph.CountDone | undirected.py:181 | when no key is left, the count is the number of components |
| Undirected.UndirectedGraph.ComponentSearch | undirected.py:176 | `dfs` from a key visits exactly its component, each label once |
| Undirected.UndirectedGraph.RemoveVisited | undirected.py:178-180 | the keys left lose exactly the visited labels |
| UGraphSpec.CoverComponent | undirected.py:175-180 | the keys removed so far form a set no edge leaves; the next search covers a component outside it, and the count of components covered rises by one |
| UGraphSpec.SameComponent | undirected.py:169-181 | two keys share a component iff one reaches the other |
| UGraphSpec.IsolatedComponent | undirected.py:169-181 | a label without neighbours is a component on its own, so it counts as one |
| UGraphSpec.NoKeysNoComponents | undirected.py:169-181 | an empty graph has no components, so the count is 0 |
| Undirected.UndirectedGraph.FirstNonIsolated | undirected.py:191-194 | the first key in insertion order with a non-empty list, or none exactly when every list is empty |
| Undirected.UndirectedGraph.HasCycle | undirected.py:183-214 | on a simple graph, `None` exactly when no label has a neighbour (where Python raises); otherwise true iff the graph has a cycle |
| UCycle.TriangleHasCycle | undirected.py:183-214 | three mutually adjacent labels form a cycle |
| UCycle.AddLeafAcyclic | undirected.py:201-205 | hanging a newly visited label off the explored one, as `parent[i] = v1` does, creates no cycle in the forest |
| UCycle.ForestAddLeaf | undirected.py:201-205 | the new parent link keeps the forest acyclic and rooted |
| UCycle.EnterExplore | undirected.py:198-201 | popping a label starts the scan of its list with the search invariant |
| UCycle.ExploreFresh | undirected.py:203-205 | visiting an unvisited neighbour keeps the scan invariant |
| UCycle.VisitedNeighbourHasParent | undirected.py:206 | a label that meets a visited neighbour has a parent, so `parent[v1]` never raises |
| UCycle.ExploreCycle | undirected.py:206-207 | a visited neighbour other than the parent closes a cycle, so `return True` is right |
| UCycle.ExploreParent | undirected.py:206 | meeting the parent keeps the scan invariant |
| UCycle.LeaveExplore | undirected.py:208-212 | after the scan the popped label leaves `vertices`; when the stack runs empty, the first label left is a new root outside a closed set of finished trees |
| UCycle.CycleFinish | undirected.py:214 | when every label is popped, every edge is a forest edge, so there is no cycle and `return False` is right |
| DirectedDemo.DemoLoads | directed.py:282-286 | the example edge list loads the weight table of its seven edges |
| DirectedDemo.DemoSize | directed.py:282-286 | the example graph has 5 vertices |
| DirectedDemo.DemoShortest | directed.py:282-288 | on the example matrix, `[0, 10, 35, 28, 25]` are the shortest distances from vertex 0 |
| DirectedDemo.DijkstraDemo | directed.py:282-288 | `dijkstra(0)` on the example graph returns `[0, 10, 35, 28, 25]` |
| DirectedDemo.DemoCycleAnswers | directed.py:264-279 | the edge sets the example passes through have a directed cycle, a cycle, none for four steps, then a cycle again |
| DirectedDemo.HasCycleDemo | directed.py:264-279 | the `has_cycle` answers of the example are True, True, False, False, False, False, True |

## Left out

- `__str__` of both classes (directed.py:37-52, undirected.py:32-42): text rendering only.
- The `__main__` demo drivers (directed.py:218-292, undirected.py:216-306): console output only. Two directed scenarios are replayed in `directed_demo.dfy` (`dijkstra(0)` and the `has_cycle` sequence); the others, including `dijkstra` after `remove_edge(4, 3)` and every undirected scenario, are not.
- `float('inf')` in `dijkstra` is modelled as the `Inf` case of `Dist`, not as a floating-point value.
- The unused `parent` dict of `dijkstra` and the unused `heapq` imports.
- `deque` is modelled as a `seq` used as a stack or queue.
- `is not` on integers and strings (directed.py:72, 83; undirected.py:56) is modelled as `!=`.
- Multi-character undirected labels: labels are `char`.
- Directed.DirectedGraph.IsValidPath: requires the entries of a path of two or more vertices to be in range, because Python raises or wraps around with negative indices there.
- Directed.DirectedGraph.Dijkstra: on a graph with vertices, requires `0 <= src < v_count`, because otherwise Python keeps `v = src` (distance 0, beaten by no vertex) and raises at `vertices.remove(v)`. On a graph without vertices the loop never runs and any `src` gives `[0]`, which the model states.
- Undirected.UndirectedGraph.Dfs: requires every label reachable from the start to be a key, because Python raises KeyError at `adj_list[v]` otherwise. This holds whenever the graph is simple.
- Undirected.UndirectedGraph.Bfs: the same requirement as `Dfs`, for the same reason.
- Undirected.UndirectedGraph.RemoveEdge: requires `v` to be a key and `u` to be in its list whenever `v` is in the list of `u`, because Python raises otherwise.
- Undirected.UndirectedGraph.RemoveVertex: on a graph that is not simple, only the key, the order and the counts of other labels are stated; the exact new lists are stated for simple graphs only.
- Undirected.UndirectedGraph.GetEdges: the length of the result (half the sum of the list lengths on a simple graph) is not stated; what is stated is that each edge appears once, in one orientation, without repeats.
- Undirected.UndirectedGraph.CountConnectedComponents: requires a simple graph; on a graph with asymmetric lists the count is not stated.
- Undirected.UndirectedGraph.HasCycle: requires a simple graph; on a graph with asymmetric lists, where `parent[v1]` can raise, the result is not stated.
