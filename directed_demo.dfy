/** The examples at the end of `directed.py`, replayed on the model: the
    graph their edge list builds, `dijkstra(0)` on it, and the sequence of
    `has_cycle` answers as edges are removed and added. */
module DirectedDemo {
  import opened Lists
  import opened Walks
  import opened DigraphSpec
  import opened Directed

  /** The edge list the examples load. */
  const DemoEdges: seq<(int, int, int)> :=
    [(0, 1, 10), (4, 0, 12), (1, 4, 15), (4, 3, 3), (3, 1, 5), (2, 1, 23), (3, 2, 7)]

  /** The edges of that list. */
  const Loaded: set<(int, int)> := {(0, 1), (4, 0), (1, 4), (4, 3), (3, 1), (2, 1), (3, 2)}

  /** The weight table of that list, one cell per edge. */
  function DemoWeight(i: int, j: int): int
  {
    if i == 0 && j == 1 then 10
    else if i == 4 && j == 0 then 12
    else if i == 1 && j == 4 then 15
    else if i == 4 && j == 3 then 3
    else if i == 3 && j == 1 then 5
    else if i == 2 && j == 1 then 23
    else if i == 3 && j == 2 then 7
    else 0
  }

  /** The shortest distances from vertex 0 the example prints. */
  const DemoDistance: seq<nat> := [0, 10, 35, 28, 25]

  /** Loading the list sets each cell to its entry of the table. */
  lemma DemoLoads(i: int, j: int)
    ensures LastWeight(DemoEdges, i, j) == DemoWeight(i, j)
  {
    var es := DemoEdges;
    assert es[..1] == [] + [es[0]];
    LastWeightSnoc([], es[0], i, j);
    assert es[..2] == es[..1] + [es[1]];
    LastWeightSnoc(es[..1], es[1], i, j);
    assert es[..3] == es[..2] + [es[2]];
    LastWeightSnoc(es[..2], es[2], i, j);
    assert es[..4] == es[..3] + [es[3]];
    LastWeightSnoc(es[..3], es[3], i, j);
    assert es[..5] == es[..4] + [es[4]];
    LastWeightSnoc(es[..4], es[4], i, j);
    assert es[..6] == es[..5] + [es[5]];
    LastWeightSnoc(es[..5], es[5], i, j);
    assert es == es[..6] + [es[6]];
    LastWeightSnoc(es[..6], es[6], i, j);
  }

  /** The largest endpoint of the list is 4, so the graph has 5 vertices. */
  lemma DemoSize()
    ensures MaxEndpoint(DemoEdges) == 4
  {
    var es := DemoEdges;
    assert es[1].0 == 4;
    assert forall k :: 0 <= k < |es| ==> es[k].0 <= 4 && es[k].1 <= 4;
  }

  /** A matrix holding the table has exactly the seven edges of the list. */
  lemma DemoEdgeSet(m: Matrix)
    requires IsWeightMatrix(m, 5) && forall i, j :: 0 <= i < 5 && 0 <= j < 5 ==> m[i][j] == DemoWeight(i, j)
    ensures Edges(m) == Loaded
  {
    forall e | e in Loaded ensures e in Edges(m) {
      EdgeIff(m, 5, e.0, e.1);
    }
    forall e | e in Edges(m) ensures e in Loaded {
      EdgeInRange(m, 5, e.0, e.1);
    }
  }

  /** `DirectedGraph(edges)` for the example list. */
  method DemoGraph() returns (g: DirectedGraph)
    ensures fresh(g) && g.Valid() && g.vCount == 5
    ensures forall i, j :: 0 <= i < 5 && 0 <= j < 5 ==> g.adjMatrix[i][j] == DemoWeight(i, j)
  {
    DemoSize();
    g := new DirectedGraph(Some(DemoEdges));
    forall i, j | 0 <= i < 5 && 0 <= j < 5 ensures g.adjMatrix[i][j] == DemoWeight(i, j) {
      DemoLoads(i, j);
    }
  }

  /** The walk `0 -> 1 -> 4 -> 3 -> 2` and its prefixes weigh the printed
      distances. */
  lemma DemoWalks(m: Matrix) returns (p: seq<int>)
    requires IsWeightMatrix(m, 5) && forall i, j :: 0 <= i < 5 && 0 <= j < 5 ==> m[i][j] == DemoWeight(i, j)
    ensures p == [0, 1, 4, 3, 2] && IsWalk(Edges(m), p)
    ensures forall k :: 1 <= k <= 5 ==> PathWeight(m, p[..k]) == DemoDistance[p[k - 1]]
  {
    p := [0, 1, 4, 3, 2];
    DemoEdgeSet(m);
    assert p[..1] == [0];
    assert p[..2] == p[..1] + [1];
    PathWeightAppend(m, p[..1], 1);
    assert p[..3] == p[..2] + [4];
    PathWeightAppend(m, p[..2], 4);
    assert p[..4] == p[..3] + [3];
    PathWeightAppend(m, p[..3], 3);
    assert p[..5] == p[..4] + [2];
    PathWeightAppend(m, p[..4], 2);
  }

  /** On the example matrix, the printed distances are the shortest ones. */
  lemma DemoShortest(m: Matrix)
    requires IsWeightMatrix(m, 5) && forall i, j :: 0 <= i < 5 && 0 <= j < 5 ==> m[i][j] == DemoWeight(i, j)
    ensures forall k :: 0 <= k < 5 ==> IsShortestDistance(m, 0, k, Fin(DemoDistance[k]))
  {
    var d := DemoDistance;
    assert forall a, b :: 0 <= a < 5 && 0 <= b < 5 && m[a][b] > 0 ==> d[b] <= d[a] + m[a][b];
    var p := DemoWalks(m);
    forall k | 0 <= k < 5 ensures IsShortestDistance(m, 0, k, Fin(d[k])) {
      var i := if k == 0 then 1 else if k == 1 then 2 else if k == 4 then 3 else if k == 3 then 4 else 5;
      WalkPrefix(Edges(m), p, i);
      assert IsWalkFromTo(Edges(m), p[..i], 0, k) && PathWeight(m, p[..i]) == d[k];
      forall q | IsWalkFromTo(Edges(m), q, 0, k) ensures d[k] <= PathWeight(m, q) {
        PotentialBound(m, 5, d, q);
      }
    }
  }

  /** `dijkstra(0)` on the example graph returns `[0, 10, 35, 28, 25]`. */
  method DijkstraDemo() returns (result: seq<Dist>)
    ensures result == [Fin(0), Fin(10), Fin(35), Fin(28), Fin(25)]
  {
    var g := DemoGraph();
    result := g.Dijkstra(0);
    DemoShortest(g.adjMatrix);
    forall k | 0 <= k < 5 ensures result[k] == Fin(DemoDistance[k]) {
      ShortestDistanceUnique(g.adjMatrix, 0, k, result[k], Fin(DemoDistance[k]));
    }
  }

  /** A walk that closes back on its first vertex is a directed cycle. */
  lemma ClosedWalkCycle(E: set<(int, int)>, p: seq<int>)
    requires IsWalk(E, p) && (p[|p| - 1], p[0]) in E
    ensures HasDirectedCycle(E)
  {
    assert IsWalkFromTo(E, p, p[0], p[|p| - 1]);
  }

  /** The ranking that shows the graph acyclic after the three removals
      and while the next three edges come in. */
  function DemoRank(x: int): int
  {
    if x == 1 then 1 else if x == 3 then 3 else if x == 4 then 2 else 0
  }

  /** The edge sets the `has_cycle` example passes through after each of
      its seven steps (the fourth leaves the third unchanged). */
  const Step1: set<(int, int)> := {(0, 1), (4, 0), (1, 4), (4, 3), (2, 1), (3, 2)}
  const Step2: set<(int, int)> := {(0, 1), (1, 4), (4, 3), (2, 1), (3, 2)}
  const Step3: set<(int, int)> := {(0, 1), (1, 4), (4, 3), (2, 1)}
  const Step5: set<(int, int)> := {(0, 1), (1, 4), (4, 3), (2, 1), (2, 3)}
  const Step6: set<(int, int)> := {(0, 1), (1, 4), (4, 3), (2, 1), (2, 3), (1, 3)}
  const Step7: set<(int, int)> := {(0, 1), (1, 4), (4, 3), (2, 1), (2, 3), (1, 3), (4, 0)}

  /** How each step of the example changes the edge set: adding `(4, 3)`
      again changes nothing. */
  lemma DemoSteps()
    ensures Loaded - {(3, 1)} == Step1 && Step1 - {(4, 0)} == Step2 && Step2 - {(3, 2)} == Step3
    ensures Step3 + {(4, 3)} == Step3 && Step3 + {(2, 3)} == Step5
    ensures Step5 + {(1, 3)} == Step6 && Step6 + {(4, 0)} == Step7
  {
  }

  /** The sets have a cycle, have a cycle, then have none for four steps,
      and have one again at the end. */
  lemma DemoCycleAnswers()
    ensures HasDirectedCycle(Step1) && HasDirectedCycle(Step2)
    ensures !HasDirectedCycle(Step3) && !HasDirectedCycle(Step5) && !HasDirectedCycle(Step6)
    ensures HasDirectedCycle(Step7)
  {
    ClosedWalkCycle(Step1, [0, 1, 4]);
    ClosedWalkCycle(Step2, [1, 4, 3, 2]);
    RankedAcyclic(Step3, DemoRank);
    RankedAcyclic(Step5, DemoRank);
    RankedAcyclic(Step6, DemoRank);
    ClosedWalkCycle(Step7, [0, 1, 4]);
  }

  /** `remove_edge(src, dst)` followed by `has_cycle()`. */
  method RemoveAndAsk(g: DirectedGraph, src: int, dst: int, ghost after: set<(int, int)>) returns (found: bool)
    requires g.Valid() && g.E() - {(src, dst)} == after
    modifies g
    ensures g.Valid() && g.vCount == old(g.vCount) && g.E() == after
    ensures found <==> HasDirectedCycle(after)
  {
    g.RemoveEdge(src, dst);
    found := g.HasCycle();
  }

  /** `add_edge(src, dst)`, with the default weight, followed by
      `has_cycle()`. */
  method AddAndAsk(g: DirectedGraph, src: int, dst: int, ghost after: set<(int, int)>) returns (found: bool)
    requires g.Valid() && 0 <= src < g.vCount && 0 <= dst < g.vCount && src != dst
    requires g.E() + {(src, dst)} == after
    modifies g
    ensures g.Valid() && g.vCount == old(g.vCount) && g.E() == after
    ensures found <==> HasDirectedCycle(after)
  {
    g.AddEdge(src, dst);
    found := g.HasCycle();
  }

  /** The `has_cycle` example: remove `(3, 1)`, `(4, 0)`, `(3, 2)`, then add
      `(4, 3)`, `(2, 3)`, `(1, 3)`, `(4, 0)` with the default weight,
      asking `has_cycle` after each step. */
  method HasCycleDemo() returns (answers: seq<bool>)
    ensures answers == [true, true, false, false, false, false, true]
  {
    var g := DemoGraph();
    DemoEdgeSet(g.adjMatrix);
    DemoSteps();
    DemoCycleAnswers();
    var c1 := RemoveAndAsk(g, 3, 1, Step1);
    var c2 := RemoveAndAsk(g, 4, 0, Step2);
    var c3 := RemoveAndAsk(g, 3, 2, Step3);
    var c4 := AddAndAsk(g, 4, 3, Step3);
    var c5 := AddAndAsk(g, 2, 3, Step5);
    var c6 := AddAndAsk(g, 1, 3, Step6);
    var c7 := AddAndAsk(g, 4, 0, Step7);
    answers := [c1, c2, c3, c4, c5, c6, c7];
  }
}
