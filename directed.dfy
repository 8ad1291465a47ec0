/** The directed weighted graph of `directed.py`: vertices are the integers
    `0..vCount-1`, and `adjMatrix[i][j]` holds the weight of the edge
    `i -> j`, 0 meaning no edge. Loops, duplicate edges and non-positive
    weights are never stored. */
module Directed {
  import opened Lists
  import opened Walks
  import opened Traversal
  import opened DigraphSpec

  /** The proof bookkeeping of one `dfs` round that pops a vertex not yet
      visited: the loop invariant holds for the grown visiting order and the
      stack with the vertex's successors pushed, and every vertex on the
      stack and in the visiting order stays in range. */
  lemma DfsVisitRound(N: int -> seq<int>, m: Matrix, n: nat, s: int, visited: seq<int>, cut: seq<nat>, stack: seq<int>)
    returns (cut': seq<nat>)
    requires IsWeightMatrix(m, n) && ListsSucc(N, m) && InRange(visited, n) && InRange(stack, n)
    requires DfsLoopInv(N, s, visited, cut, stack) && stack != [] && stack[|stack| - 1] !in visited
    ensures var v := stack[|stack| - 1]; var stack' := stack[..|stack| - 1] + Reverse(Succ(m, v));
      && DfsLoopInv(N, s, visited + [v], cut', stack')
      && InRange(visited + [v], n) && InRange(stack', n)
  {
    var v := stack[|stack| - 1];
    cut' := DfsLoopVisit(N, s, visited, cut, stack);
    assert N(v) == Succ(m, v);
    DfsRoundInRange(m, n, visited, stack);
  }

  /** The invariant of the `dfs` loop while it has not met the target. */
  ghost predicate DfsSearchInv(N: int -> seq<int>, n: nat, s: int, target: Option<int>, visited: seq<int>, cut: seq<nat>, stack: seq<int>)
  {
    && DfsLoopInv(N, s, visited, cut, stack)
    && InRange(stack, n) && InRange(visited, n)
    && (target.Some? ==> target.value !in visited)
  }

  lemma DfsRoundInRange(m: Matrix, n: nat, visited: seq<int>, stack: seq<int>)
    requires IsWeightMatrix(m, n) && InRange(visited, n) && InRange(stack, n) && stack != []
    ensures var v := stack[|stack| - 1];
      InRange(visited + [v], n) && InRange(stack[..|stack| - 1] + Reverse(Succ(m, v)), n)
  {
    var v := stack[|stack| - 1];
    SuccInRange(m, n, v);
    assert InRange([v], n);
    AppendInRange(visited, [v], n);
    AppendInRange(stack[..|stack| - 1], Reverse(Succ(m, v)), n);
  }

  /** The same for one `bfs` round that dequeues a vertex not yet visited. */
  lemma BfsVisitRound(N: int -> seq<int>, m: Matrix, n: nat, s: int, visited: seq<int>, cut: seq<nat>, queue: seq<int>)
    returns (cut': seq<nat>)
    requires IsWeightMatrix(m, n) && ListsSucc(N, m) && InRange(visited, n) && InRange(queue, n)
    requires BfsLoopInv(N, s, visited, cut, queue) && queue != [] && queue[0] !in visited
    ensures var v := queue[0]; var queue' := queue[1..] + Fresh(Succ(m, v), visited + [v]);
      && IsBfsOrder(N, visited + [v]) && (visited + [v])[0] == s
      && BfsLoopInv(N, s, visited + [v], cut', queue')
      && InRange(visited + [v], n) && InRange(queue', n)
  {
    var v := queue[0];
    cut' := BfsLoopVisit(N, s, visited, cut, queue);
    assert N(v) == Succ(m, v);
    BfsRoundInRange(m, n, visited, queue);
  }

  /** The invariant of the `bfs` loop while it has not met the target. */
  ghost predicate BfsSearchInv(N: int -> seq<int>, n: nat, s: int, target: Option<int>, visited: seq<int>, cut: seq<nat>, queue: seq<int>)
  {
    && BfsLoopInv(N, s, visited, cut, queue)
    && InRange(queue, n) && InRange(visited, n)
    && (target.Some? ==> target.value !in visited)
  }

  lemma BfsRoundInRange(m: Matrix, n: nat, visited: seq<int>, queue: seq<int>)
    requires IsWeightMatrix(m, n) && InRange(visited, n) && InRange(queue, n) && queue != []
    ensures var v := queue[0];
      InRange(visited + [v], n) && InRange(queue[1..] + Fresh(Succ(m, v), visited + [v]), n)
  {
    var v := queue[0];
    SuccInRange(m, n, v);
    FreshInRange(Succ(m, v), visited + [v], n);
    assert InRange([v], n);
    AppendInRange(visited, [v], n);
    AppendInRange(queue[1..], Fresh(Succ(m, v), visited + [v]), n);
  }

  /** What the search loop leaves behind, restated over the matrix: the
      depth-first order of the successor lists, a traversal of the edges,
      complete unless the search stopped at a reachable target. */
  lemma DfsOutcome(N: int -> seq<int>, m: Matrix, n: nat, s: int, target: Option<int>, visited: seq<int>)
    requires IsWeightMatrix(m, n) && ListsSucc(N, m)
    requires |visited| >= 1 && visited[0] == s && IsDfsOrder(N, visited)
    requires target.Some? && target.value in visited ==> visited[|visited| - 1] == target.value
    requires target.None? || target.value !in visited ==> NextDfs(N, visited) == None
    ensures IsDfsOrder(SuccOf(m), visited) && IsTraversal(Edges(m), s, visited)
    ensures target.None? || !Reachable(Edges(m), s, target.value) ==>
      NextDfs(SuccOf(m), visited) == None && CoversReachable(Edges(m), s, visited)
    ensures target.Some? && Reachable(Edges(m), s, target.value) ==> visited[|visited| - 1] == target.value
  {
    SuccListsEdges(N, m, n);
    DfsOrderGrows(N, visited);
    GrowsIsTraversal(N, Edges(m), s, visited);
    ListsSuccAgrees(N, m);
    DfsOrderCongruent(N, SuccOf(m), visited);
    if target.None? || target.value !in visited {
      DfsExhaustedCovers(N, Edges(m), visited);
    }
  }

  /** The breadth-first counterpart of `DfsOutcome`. */
  lemma BfsOutcome(N: int -> seq<int>, m: Matrix, n: nat, s: int, target: Option<int>, visited: seq<int>)
    requires IsWeightMatrix(m, n) && ListsSucc(N, m)
    requires |visited| >= 1 && visited[0] == s && IsBfsOrder(N, visited)
    requires target.Some? && target.value in visited ==> visited[|visited| - 1] == target.value
    requires target.None? || target.value !in visited ==> NextBfs(N, visited) == None
    ensures IsBfsOrder(SuccOf(m), visited) && IsTraversal(Edges(m), s, visited)
    ensures target.None? || !Reachable(Edges(m), s, target.value) ==>
      NextBfs(SuccOf(m), visited) == None && CoversReachable(Edges(m), s, visited)
    ensures target.Some? && Reachable(Edges(m), s, target.value) ==> visited[|visited| - 1] == target.value
  {
    SuccListsEdges(N, m, n);
    BfsOrderGrows(N, visited);
    GrowsIsTraversal(N, Edges(m), s, visited);
    ListsSuccAgrees(N, m);
    BfsOrderCongruent(N, SuccOf(m), visited);
    if target.None? || target.value !in visited {
      BfsExhaustedCovers(N, Edges(m), visited);
    }
  }

  /** Visiting a new vertex shrinks the set of unvisited vertices: the
      measure that makes both searches terminate. */
  lemma UnvisitedShrinks(n: nat, visited: seq<int>, v: int)
    requires 0 <= v < n && v !in visited
    ensures Elems(AllVertices(n)) - Elems(visited + [v]) < Elems(AllVertices(n)) - Elems(visited)
  {
    assert AllVertices(n)[v] == v;
    assert Elems(visited + [v]) == Elems(visited) + {v};
  }

  /** The largest endpoint named in `es`, and 0 when there is none or all
      are negative. */
  method LargestEndpoint(es: seq<(int, int, int)>) returns (n: nat)
    ensures n == MaxEndpoint(es)
  {
    n := 0;
    var k := 0;
    while k < |es|
      invariant 0 <= k <= |es| && n == MaxEndpoint(es[..k])
    {
      var (u, v, _) := es[k];
      assert es[..k + 1][..k] == es[..k];
      n := Max(n, Max(u, v));
      k := k + 1;
    }
    assert es[..|es|] == es;
  }

  class DirectedGraph {
    var vCount: nat
    var adjMatrix: Matrix

    /** The state invariant every operation keeps. */
    ghost predicate Valid()
      reads this
    {
      IsWeightMatrix(adjMatrix, vCount)
    }

    /** The edge relation the matrix stands for. */
    ghost function E(): set<(int, int)>
      reads this
    {
      Edges(adjMatrix)
    }

    /** The neighbour lists both searches use: successors, lowest index first. */
    function Nbrs(): int -> seq<int>
      reads this
    {
      SuccOf(adjMatrix)
    }

    /** Without an edge list the graph is empty. With one, it has one more
        vertex than the largest endpoint named (at least one vertex), and
        every cell holds the weight of the last usable occurrence of its
        edge in the list. */
    constructor (startEdges: Option<seq<(int, int, int)>>)
      ensures Valid()
      ensures startEdges.None? ==> vCount == 0
      ensures startEdges.Some? ==> vCount == MaxEndpoint(startEdges.value) + 1
      ensures startEdges.Some? ==> forall i, j :: 0 <= i < vCount && 0 <= j < vCount ==>
                adjMatrix[i][j] == LastWeight(startEdges.value, i, j)
    {
      vCount := 0;
      adjMatrix := [];
      new;
      if startEdges.Some? {
        var es := startEdges.value;
        var n := LargestEndpoint(es);
        var t := 0;
        while t < n + 1
          invariant 0 <= t <= n + 1 && vCount == t && Valid()
          invariant forall i, j :: 0 <= i < vCount && 0 <= j < vCount ==> adjMatrix[i][j] == 0
        {
          var count := AddVertex();
          t := t + 1;
        }
        AddEdges(es);
      }
    }

    /** Adds the edges of `es` in order to a graph without edges: every cell
        ends up holding the weight of the last usable occurrence of its edge. */
    method AddEdges(es: seq<(int, int, int)>)
      requires Valid()
      requires forall i, j :: 0 <= i < vCount && 0 <= j < vCount ==> adjMatrix[i][j] == 0
      modifies this
      ensures Valid() && vCount == old(vCount)
      ensures forall i, j :: 0 <= i < vCount && 0 <= j < vCount ==> adjMatrix[i][j] == LastWeight(es, i, j)
    {
      var k := 0;
      while k < |es|
        invariant 0 <= k <= |es| && vCount == old(vCount) && Valid()
        invariant forall i, j :: 0 <= i < vCount && 0 <= j < vCount ==> adjMatrix[i][j] == LastWeight(es[..k], i, j)
      {
        var (u, v, w) := es[k];
        AddEdge(u, v, w);
        assert es[..k + 1][..k] == es[..k];
        k := k + 1;
      }
      assert es[..|es|] == es;
    }

    /** Adds vertex `vCount` and returns the new count. The matrix is rebuilt
        from scratch, so every edge added before is lost. */
    method AddVertex() returns (count: nat)
      modifies this
      ensures vCount == old(vCount) + 1 && count == vCount
      ensures Valid()
      ensures forall i, j :: 0 <= i < vCount && 0 <= j < vCount ==> adjMatrix[i][j] == 0
      ensures E() == {}
    {
      var n := vCount + 1;
      adjMatrix := seq(n, _ => seq(n, _ => 0));
      vCount := n;
      count := vCount;
      assert adjMatrix == ZeroMatrix(vCount);
      EdgesOfZeroMatrix(vCount);
    }

    /** Sets the weight of `src -> dst` when both are vertices, they differ
        and the weight is positive; otherwise nothing changes. The weight
        defaults to 1. */
    method AddEdge(src: int, dst: int, weight: int := 1)
      requires Valid()
      modifies this
      ensures Valid() && vCount == old(vCount)
      ensures forall i, j :: 0 <= i < vCount && 0 <= j < vCount ==>
        adjMatrix[i][j] == if i == src && j == dst && weight > 0 && src != dst then weight else old(adjMatrix[i][j])
      ensures E() == if 0 <= src < vCount && 0 <= dst < vCount && weight > 0 && src != dst
                     then old(E()) + {(src, dst)} else old(E())
    {
      if !(0 <= src < vCount && 0 <= dst < vCount) {
        return;
      } else {
        if weight > 0 {
          if src != dst {
            adjMatrix := adjMatrix[src := adjMatrix[src][dst := weight]];
          }
        }
      }
    }

    /** Clears the cell `src -> dst` when both are vertices and differ:
        the edge is gone afterwards and no other edge changes, so removing
        an absent edge does nothing. */
    method RemoveEdge(src: int, dst: int)
      requires Valid()
      modifies this
      ensures Valid() && vCount == old(vCount)
      ensures forall i, j :: 0 <= i < vCount && 0 <= j < vCount ==>
        adjMatrix[i][j] == if i == src && j == dst && src != dst then 0 else old(adjMatrix[i][j])
      ensures E() == old(E()) - {(src, dst)}
    {
      if !(0 <= src < vCount && 0 <= dst < vCount) {
        return;
      } else {
        if src != dst {
          adjMatrix := adjMatrix[src := adjMatrix[src][dst := 0]];
        }
      }
    }

    /** The vertices, in order. */
    function GetVertices(): (r: seq<int>)
      reads this
      ensures |r| == vCount && Distinct(r)
      ensures forall k :: 0 <= k < vCount ==> r[k] == k
    {
      AllVertices(vCount)
    }

    /** Every edge as `(src, dst, weight)`, each exactly once, in row-major
        order. */
    method GetEdges() returns (edges: seq<(int, int, int)>)
      requires Valid()
      ensures forall e :: e in edges <==>
        0 <= e.0 < vCount && 0 <= e.1 < vCount && adjMatrix[e.0][e.1] > 0 && e.2 == adjMatrix[e.0][e.1]
      ensures InRowMajorOrder(edges)
    {
      edges := [];
      var i := 0;
      while i < vCount
        invariant 0 <= i <= vCount && InRowMajorOrder(edges)
        invariant forall e :: e in edges <==>
          0 <= e.0 < i && 0 <= e.1 < vCount && adjMatrix[e.0][e.1] > 0 && e.2 == adjMatrix[e.0][e.1]
      {
        var j := 0;
        while j < vCount
          invariant 0 <= j <= vCount && InRowMajorOrder(edges)
          invariant forall e :: e in edges ==> e.0 < i || (e.0 == i && e.1 < j)
          invariant forall e :: e in edges <==>
            (0 <= e.0 < i || (e.0 == i && e.1 < j)) &&
            0 <= e.1 < vCount && adjMatrix[e.0][e.1] > 0 && e.2 == adjMatrix[e.0][e.1]
        {
          // Python's `(i and j) >= 0`: `i and j` is `i` when `i` is 0, else `j`
          var iAndJ := if i == 0 then i else j;
          if iAndJ >= 0 && adjMatrix[i][j] > 0 {
            edges := edges + [(i, j, adjMatrix[i][j])];
          }
          j := j + 1;
        }
        i := i + 1;
      }
    }

    /** An empty or one-vertex path is valid without further checks; a longer
        one is valid exactly when every step is an edge. */
    method IsValidPath(path: seq<int>) returns (ok: bool)
      requires Valid()
      requires |path| >= 2 ==> forall k :: 0 <= k < |path| ==> 0 <= path[k] < vCount
      ensures ok <==> |path| <= 1 || IsWalk(E(), path)
    {
      if |path| == 0 {
        return true;
      }
      var edges := GetEdges();
      var i := 0;
      while i < |path| - 1
        invariant 0 <= i <= |path| - 1
        invariant forall k :: 0 <= k < i ==> (path[k], path[k + 1]) in E()
      {
        EdgeIff(adjMatrix, vCount, path[i], path[i + 1]);
        if (path[i], path[i + 1], adjMatrix[path[i]][path[i + 1]]) !in edges {
          return false;
        }
        i := i + 1;
      }
      return true;
    }

    /** Python's `v_end`, dropped when it is not a vertex. */
    function Target(vEnd: Option<int>): Option<int>
      reads this
    {
      if vEnd.Some? && 0 <= vEnd.value < vCount then vEnd else None
    }

    /** The inner loop of `dfs`: push the successors of `v`, highest index
        first, so that the lowest is on top. */
    method PushSuccessors(stack: seq<int>, v: int) returns (pushed: seq<int>)
      requires Valid() && 0 <= v < vCount
      ensures pushed == stack + Reverse(Succ(adjMatrix, v))
    {
      pushed := stack;
      var row := adjMatrix[v];
      var col := |row| - 1;
      while col >= 0
        invariant -1 <= col < vCount && |row| == vCount
        invariant pushed == stack + Reverse(Positives(row, col + 1, vCount))
      {
        var P := Positives(row, col + 1, vCount);
        PositivesCons(row, col, vCount);
        if row[col] > 0 {
          ReverseCons(col, P);
          assert Reverse(Positives(row, col, vCount)) == Reverse(P) + [col];
          assert (stack + Reverse(P)) + [col] == stack + (Reverse(P) + [col]);
          pushed := pushed + [col];
        } else {
          assert Positives(row, col, vCount) == P;
        }
        col := col - 1;
      }
      assert Succ(adjMatrix, v) == Positives(row, 0, vCount);
    }

    /** Depth-first search from `vStart` with a stack, taking the lowest
        numbered successor first. The result is the depth-first visiting
        order; it stops at `Target(vEnd)` when that is reached and otherwise
        lists everything reachable. */
    method Dfs(vStart: int, vEnd: Option<int>) returns (visited: seq<int>)
      requires Valid()
      ensures !(0 <= vStart < vCount) ==> visited == []
      ensures 0 <= vStart < vCount ==>
        && |visited| >= 1 && visited[0] == vStart
        && IsDfsOrder(Nbrs(), visited)
        && IsTraversal(E(), vStart, visited)
        && InRange(visited, vCount)
      ensures 0 <= vStart < vCount && (Target(vEnd).None? || !Reachable(E(), vStart, Target(vEnd).value)) ==>
        NextDfs(Nbrs(), visited) == None && CoversReachable(E(), vStart, visited)
      ensures 0 <= vStart < vCount && Target(vEnd).Some? && Reachable(E(), vStart, Target(vEnd).value) ==>
        visited[|visited| - 1] == Target(vEnd).value
    {
      if !(0 <= vStart < vCount) {
        return [];
      }
      var target := Target(vEnd);
      ghost var N := SuccFunction(adjMatrix);
      visited := DfsFrom(N, vStart, target);
      DfsOutcome(N, adjMatrix, vCount, vStart, target, visited);
    }

    /** The search loop of `dfs`, against an abstract copy `N` of the
        successor lists: the visiting order is depth-first; it ends with the
        target when the target was visited, and otherwise only once no
        visited vertex has an unvisited successor. */
    method DfsFrom(ghost N: int -> seq<int>, vStart: int, target: Option<int>) returns (visited: seq<int>)
      requires Valid() && ListsSucc(N, adjMatrix) && 0 <= vStart < vCount
      ensures |visited| >= 1 && visited[0] == vStart && IsDfsOrder(N, visited) && InRange(visited, vCount)
      ensures target.Some? && target.value in visited ==> visited[|visited| - 1] == target.value
      ensures target.None? || target.value !in visited ==> NextDfs(N, visited) == None
    {
      visited := [];
      var stack := [vStart];
      ghost var cut: seq<nat> := [];
      ghost var V := Elems(AllVertices(vCount));
      while |stack| != 0
        invariant DfsSearchInv(N, vCount, vStart, target, visited, cut, stack)
        decreases V - Elems(visited), |stack|
      {
        var v := stack[|stack| - 1];
        ghost var before := visited;
        if v !in visited {
          cut := DfsVisitRound(N, adjMatrix, vCount, vStart, visited, cut, stack);
          UnvisitedShrinks(vCount, visited, v);
          stack := stack[..|stack| - 1];
          visited := visited + [v];
          stack := PushSuccessors(stack, v);
        } else {
          cut := DfsLoopSkip(N, vStart, visited, cut, stack);
          stack := stack[..|stack| - 1];
        }
        if target.Some? && v == target.value {
          assert visited == before + [v];
          return;
        }
      }
      DfsLoopExhausted(N, vStart, visited, cut);
    }

    /** The inner loop of `bfs`: enqueue, lowest index first, every
        successor of `v` not visited yet. */
    method EnqueueFresh(queue: seq<int>, visited: seq<int>, v: int) returns (enqueued: seq<int>)
      requires Valid() && 0 <= v < vCount
      ensures enqueued == queue + Fresh(Succ(adjMatrix, v), visited)
    {
      enqueued := queue;
      var row := adjMatrix[v];
      var i := 0;
      while i < |row|
        invariant 0 <= i <= vCount
        invariant enqueued == queue + Fresh(Positives(row, 0, i), visited)
      {
        var P := Positives(row, 0, i);
        var last := if row[i] > 0 then [i] else [];
        FreshAppend(P, last, visited);
        assert Positives(row, 0, i + 1) == P + last;
        if i !in visited && row[i] > 0 {
          assert Fresh(last, visited) == [i];
          enqueued := enqueued + [i];
        } else {
          assert Fresh(last, visited) == [];
        }
        i := i + 1;
      }
    }

    /** Breadth-first search from `vStart` with a queue, enqueuing the
        successors of each newly visited vertex in ascending order. The
        result is the breadth-first visiting order; it stops at
        `Target(vEnd)` when that is reached and otherwise lists everything
        reachable. */
    method Bfs(vStart: int, vEnd: Option<int>) returns (visited: seq<int>)
      requires Valid()
      ensures !(0 <= vStart < vCount) ==> visited == []
      ensures 0 <= vStart < vCount ==>
        && |visited| >= 1 && visited[0] == vStart
        && IsBfsOrder(Nbrs(), visited)
        && IsTraversal(E(), vStart, visited)
        && InRange(visited, vCount)
      ensures 0 <= vStart < vCount && (Target(vEnd).None? || !Reachable(E(), vStart, Target(vEnd).value)) ==>
        NextBfs(Nbrs(), visited) == None && CoversReachable(E(), vStart, visited)
      ensures 0 <= vStart < vCount && Target(vEnd).Some? && Reachable(E(), vStart, Target(vEnd).value) ==>
        visited[|visited| - 1] == Target(vEnd).value
    {
      if !(0 <= vStart < vCount) {
        return [];
      }
      var target := Target(vEnd);
      ghost var N := SuccFunction(adjMatrix);
      visited := BfsFrom(N, vStart, target);
      BfsOutcome(N, adjMatrix, vCount, vStart, target, visited);
    }

    /** The search loop of `bfs`, against an abstract copy `N` of the
        successor lists. */
    method BfsFrom(ghost N: int -> seq<int>, vStart: int, target: Option<int>) returns (visited: seq<int>)
      requires Valid() && ListsSucc(N, adjMatrix) && 0 <= vStart < vCount
      ensures |visited| >= 1 && visited[0] == vStart && IsBfsOrder(N, visited) && InRange(visited, vCount)
      ensures target.Some? && target.value in visited ==> visited[|visited| - 1] == target.value
      ensures target.None? || target.value !in visited ==> NextBfs(N, visited) == None
    {
      visited := [];
      var queue := [vStart];
      ghost var cut: seq<nat> := [];
      ghost var V := Elems(AllVertices(vCount));
      while |queue| != 0
        invariant BfsSearchInv(N, vCount, vStart, target, visited, cut, queue)
        decreases V - Elems(visited), |queue|
      {
        var v := queue[0];
        if v !in visited {
          cut := BfsVisitRound(N, adjMatrix, vCount, vStart, visited, cut, queue);
          UnvisitedShrinks(vCount, visited, v);
          queue := queue[1..];
          visited := visited + [v];
          if target.Some? && v == target.value {
            return;
          }
          queue := EnqueueFresh(queue, visited, v);
        } else {
          cut := BfsLoopSkip(N, vStart, visited, cut, queue);
          queue := queue[1..];
        }
      }
      BfsLoopExhausted(N, vStart, visited, cut);
    }

    /** True exactly when the graph has a directed cycle. A search is started
        from every vertex but the last, looking for a vertex it reaches that
        has an edge back to the start; a cycle through the last vertex also
        passes through a smaller one, so this misses none. */
    method HasCycle() returns (found: bool)
      requires Valid()
      ensures found <==> HasDirectedCycle(E())
    {
      var i := 0;
      while i < vCount - 1
        invariant 0 <= i && (vCount >= 1 ==> i <= vCount - 1)
        invariant forall v, w :: 0 <= v < i && Reachable(E(), v, w) ==> (w, v) !in E()
      {
        var back := CycleThrough(i);
        if back {
          return true;
        }
        i := i + 1;
      }
      if HasDirectedCycle(E()) {
        CycleAvoidsLastVertex(adjMatrix, vCount);
        assert false;
      }
      return false;
    }

    /** One round of `has_cycle`: search from `i`, then look for an edge from
        a vertex found back into `i`. It succeeds exactly when a cycle passes
        through `i`. */
    method CycleThrough(i: int) returns (back: bool)
      requires Valid() && 0 <= i < vCount
      ensures back ==> HasDirectedCycle(E())
      ensures !back ==> forall w :: Reachable(E(), i, w) ==> (w, i) !in E()
    {
      var order := Dfs(i, None);
      back := BackEdgeInto(order, i);
      BackEdgeCycle(E(), i, order);
    }

    /** The inner loop of `has_cycle`: whether some vertex of `order` has an
        edge into `i`. */
    method BackEdgeInto(order: seq<int>, i: int) returns (found: bool)
      requires Valid() && 0 <= i < vCount && InRange(order, vCount)
      ensures found <==> exists k :: 0 <= k < |order| && (order[k], i) in E()
    {
      var k := 0;
      while k < |order|
        invariant 0 <= k <= |order|
        invariant forall j :: 0 <= j < k ==> (order[j], i) !in E()
      {
        EdgeIff(adjMatrix, vCount, order[k], i);
        if adjMatrix[order[k]][i] > 0 {
          return true;
        }
        k := k + 1;
      }
      return false;
    }

    /** The `neighbors` table of `dijkstra`: for every vertex, its
        successors in ascending order. */
    method SuccessorLists() returns (nbrs: seq<seq<int>>)
      requires Valid()
      ensures |nbrs| == vCount
      ensures forall x :: 0 <= x < vCount ==> nbrs[x] == Succ(adjMatrix, x)
    {
      nbrs := [];
      var x := 0;
      while x < vCount
        invariant 0 <= x <= vCount && |nbrs| == x
        invariant forall u :: 0 <= u < x ==> nbrs[u] == Succ(adjMatrix, u)
      {
        var row := adjMatrix[x];
        var list := [];
        var y := 0;
        while y < |row|
          invariant 0 <= y <= |row| && list == Positives(row, 0, y)
        {
          if row[y] > 0 {
            list := list + [y];
          }
          y := y + 1;
        }
        nbrs := nbrs + [list];
        x := x + 1;
      }
    }

    /** The selection loop of `dijkstra`: starting from `v0`, move to any
        vertex strictly closer, ending at an unsettled vertex of minimum
        tentative distance. */
    method SelectClosest(vertices: seq<int>, distance: seq<Dist>, v0: int) returns (v: int)
      requires v0 in vertices && forall j :: 0 <= j < |vertices| ==> 0 <= vertices[j] < |distance|
      ensures v in vertices && forall x :: x in vertices ==> Le(distance[v], distance[x])
      ensures (forall x :: x in vertices ==> Le(distance[v0], distance[x])) ==> v == v0
      ensures v != v0 ==> FirstMinimum(vertices, distance, v)
      ensures Ascending(vertices) && v != v0 ==> forall x :: x in vertices && x < v ==> Lt(distance[v], distance[x])
    {
      v := v0;
      ghost var at := -1;
      var i := 0;
      while i < |vertices|
        invariant 0 <= i <= |vertices| && v in vertices && 0 <= v < |distance|
        invariant forall j :: 0 <= j < i ==> Le(distance[v], distance[vertices[j]])
        invariant -1 <= at < i && (at == -1 ==> v == v0)
        invariant at >= 0 ==> vertices[at] == v && Lt(distance[v], distance[v0])
        invariant at >= 0 ==> forall j :: 0 <= j < at ==> Lt(distance[v], distance[vertices[j]])
      {
        var k := vertices[i];
        if Lt(distance[k], distance[v]) {
          v := k;
          at := i;
        }
        i := i + 1;
      }
      if v != v0 {
        FirstMinimumLowest(vertices, distance, v, at);
      }
    }

    /** The relaxation loop of `dijkstra`: for each successor `z` of `u`
        still unsettled, keep the shorter of its tentative distance and the
        route through `u`. */
    method RelaxSuccessors(distance: seq<Dist>, u: int, nbrs: seq<int>, vertices: seq<int>) returns (relaxed: seq<Dist>)
      requires Valid() && 0 <= u < vCount && |distance| == vCount && u !in vertices
      requires nbrs == Succ(adjMatrix, u)
      ensures RelaxedFrom(adjMatrix, vCount, distance, relaxed, u, Elems(vertices))
    {
      PositivesSpec(adjMatrix[u], 0, vCount);
      relaxed := distance;
      var t := 0;
      while t < |nbrs|
        invariant 0 <= t <= |nbrs| && |relaxed| == vCount
        invariant forall k :: 0 <= k < vCount ==>
          relaxed[k] == if k in vertices && k in nbrs[..t] then Relax(distance[k], Plus(distance[u], adjMatrix[u][k])) else distance[k]
      {
        var z := nbrs[t];
        assert z in nbrs;
        assert z !in nbrs[..t] by {
          forall j | 0 <= j < t ensures nbrs[j] != z { assert nbrs[j] < nbrs[t]; }
        }
        assert nbrs[..t + 1] == nbrs[..t] + [z];
        if z in vertices {
          var route := Plus(relaxed[u], adjMatrix[u][z]);
          if Lt(route, relaxed[z]) {
            relaxed := relaxed[z := route];
          }
        }
        t := t + 1;
      }
      assert nbrs[..|nbrs|] == nbrs;
    }

    /** One round of `dijkstra`'s main loop: settle the closest unsettled
        vertex, relax its edges into the unsettled ones and pick the next
        starting candidate. The loop invariant is kept and one vertex
        fewer is unsettled. */
    method SettleClosest(src: int, vertices: seq<int>, distance: seq<Dist>, v0: int, neighbors: seq<seq<int>>)
      returns (vertices': seq<int>, distance': seq<Dist>, v: int)
      requires Valid() && DijkstraInv(adjMatrix, vCount, src, distance, Elems(vertices))
      requires Distinct(vertices) && v0 in vertices
      requires |neighbors| == vCount && forall x :: 0 <= x < vCount ==> neighbors[x] == Succ(adjMatrix, x)
      ensures DijkstraInv(adjMatrix, vCount, src, distance', Elems(vertices'))
      ensures Distinct(vertices') && |vertices'| == |vertices| - 1 && (vertices' != [] ==> v in vertices')
    {
      assert forall j :: 0 <= j < |vertices| ==> vertices[j] in Elems(vertices);
      v := SelectClosest(vertices, distance, v0);
      RemoveFirstDistinct(vertices, v);
      vertices' := RemoveFirst(vertices, v);
      assert Elems(vertices') == Elems(vertices) - {v};
      distance' := RelaxSuccessors(distance, v, neighbors[v], vertices');
      SettleAndRelax(adjMatrix, vCount, src, distance, Elems(vertices), v, distance');
      if |vertices'| > 0 {
        v := vertices'[0];
      }
    }

    /** Dijkstra's algorithm from `src`: the result lists, for every vertex,
        its shortest distance from `src`, infinity when it is unreachable.
        On a graph without vertices the distance dictionary holds only the
        key `src`, the main loop never runs, and the result is `[0]`. */
    method Dijkstra(src: int) returns (result: seq<Dist>)
      requires Valid() && (vCount == 0 || 0 <= src < vCount)
      ensures vCount == 0 ==> result == [Fin(0)]
      ensures vCount > 0 ==> |result| == vCount
      ensures forall k :: 0 <= k < vCount ==> IsShortestDistance(adjMatrix, src, k, result[k])
    {
      if vCount == 0 {
        return [Fin(0)];
      }
      var distance: seq<Dist> := [];
      var vertices := GetVertices();
      var i := 0;
      while i < vCount
        invariant 0 <= i <= vCount && |distance| == i && forall k :: 0 <= k < i ==> distance[k] == Inf
      {
        distance := distance + [Inf];
        i := i + 1;
      }
      distance := distance[src := Fin(0)];
      assert distance == InitialDistances(vCount, src);
      var neighbors := SuccessorLists();
      var v := src;
      DijkstraInit(adjMatrix, vCount, src);
      while |vertices| != 0
        invariant DijkstraInv(adjMatrix, vCount, src, distance, Elems(vertices))
        invariant Distinct(vertices) && (vertices != [] ==> v in vertices)
        decreases |vertices|
      {
        vertices, distance, v := SettleClosest(src, vertices, distance, v, neighbors);
      }
      DijkstraDone(adjMatrix, vCount, src, distance);
      result := [];
      var a := 0;
      while a < |distance|
        invariant 0 <= a <= |distance| && result == distance[..a]
      {
        result := result + [distance[a]];
        a := a + 1;
      }
      assert distance[..|distance|] == distance;
    }
  }
}
