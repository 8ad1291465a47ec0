/** The undirected graph of `undirected.py`: a dictionary from single-character
    labels to neighbour lists. `order` is the dictionary's key order, which
    is insertion order, as Python keeps it. */
module Undirected {
  import opened Lists
  import opened Walks
  import opened Traversal
  import opened UGraphSpec
  import opened UCycle

  /** The proof bookkeeping of one `dfs` round that pops a label not yet
      visited: the loop invariant holds for the grown visiting order and the
      stack with the sorted neighbours pushed in reverse, and everything on
      the stack and in the visiting order stays reachable from the start. */
  lemma DfsVisitRound(N: char -> seq<char>, adj: Adj, s: char, visited: seq<char>, cut: seq<nat>, stack: seq<char>)
    returns (cut': seq<nat>)
    requires ListsSorted(N, adj) && ReachKeys(adj, s)
    requires AllReach(Edges(adj), s, visited) && AllReach(Edges(adj), s, stack)
    requires DfsLoopInv(N, s, visited, cut, stack) && stack != [] && stack[|stack| - 1] !in visited
    ensures stack[|stack| - 1] in adj
    ensures var v := stack[|stack| - 1];
      DfsLoopInv(N, s, visited + [v], cut', stack[..|stack| - 1] + Reverse(SortedNbrs(adj, v)))
    ensures var v := stack[|stack| - 1];
      AllReach(Edges(adj), s, visited + [v]) && AllReach(Edges(adj), s, stack[..|stack| - 1] + Reverse(SortedNbrs(adj, v)))
  {
    var v := stack[|stack| - 1];
    assert Reachable(Edges(adj), s, v);
    cut' := DfsLoopVisit(N, s, visited, cut, stack);
    assert N(v) == SortedNbrs(adj, v);
    DfsRoundReach(adj, s, visited, stack);
  }

  lemma DfsRoundReach(adj: Adj, s: char, visited: seq<char>, stack: seq<char>)
    requires ReachKeys(adj, s) && AllReach(Edges(adj), s, visited) && AllReach(Edges(adj), s, stack) && stack != []
    ensures var v := stack[|stack| - 1];
      AllReach(Edges(adj), s, visited + [v]) && AllReach(Edges(adj), s, stack[..|stack| - 1] + Reverse(SortedNbrs(adj, v)))
  {
    var v := stack[|stack| - 1];
    assert Reachable(Edges(adj), s, v);
    NbrsReach(adj, s, v, visited);
    AllReachAppend(Edges(adj), s, visited, [v]);
    AllReachPrefix(Edges(adj), s, stack, |stack| - 1);
    AllReachAppend(Edges(adj), s, stack[..|stack| - 1], Reverse(SortChars(adj[v])));
  }

  /** The same for one `bfs` round that dequeues a label not yet visited. */
  lemma BfsVisitRound(N: char -> seq<char>, adj: Adj, s: char, visited: seq<char>, cut: seq<nat>, queue: seq<char>)
    returns (cut': seq<nat>)
    requires ListsSorted(N, adj) && ReachKeys(adj, s)
    requires AllReach(Edges(adj), s, visited) && AllReach(Edges(adj), s, queue)
    requires BfsLoopInv(N, s, visited, cut, queue) && queue != [] && queue[0] !in visited
    ensures queue[0] in adj
    ensures var v := queue[0];
      && IsBfsOrder(N, visited + [v]) && (visited + [v])[0] == s
      && BfsLoopInv(N, s, visited + [v], cut', queue[1..] + Fresh(SortedNbrs(adj, v), visited + [v]))
    ensures var v := queue[0];
      AllReach(Edges(adj), s, visited + [v]) && AllReach(Edges(adj), s, queue[1..] + Fresh(SortedNbrs(adj, v), visited + [v]))
  {
    var v := queue[0];
    assert Reachable(Edges(adj), s, v);
    cut' := BfsLoopVisit(N, s, visited, cut, queue);
    assert N(v) == SortedNbrs(adj, v);
    BfsRoundReach(adj, s, visited, queue);
  }

  lemma BfsRoundReach(adj: Adj, s: char, visited: seq<char>, queue: seq<char>)
    requires ReachKeys(adj, s) && AllReach(Edges(adj), s, visited) && AllReach(Edges(adj), s, queue) && queue != []
    ensures var v := queue[0];
      AllReach(Edges(adj), s, visited + [v]) && AllReach(Edges(adj), s, queue[1..] + Fresh(SortedNbrs(adj, v), visited + [v]))
  {
    var v := queue[0];
    assert Reachable(Edges(adj), s, v);
    NbrsReach(adj, s, v, visited + [v]);
    AllReachAppend(Edges(adj), s, visited, [v]);
    AllReachSuffix(Edges(adj), s, queue);
    AllReachAppend(Edges(adj), s, queue[1..], Fresh(SortChars(adj[v]), visited + [v]));
  }

  /** What the search loop leaves behind, restated over the lists: the
      depth-first order of the sorted lists, a traversal of the edges,
      complete unless the search stopped at a reachable target. */
  lemma DfsOutcome(N: char -> seq<char>, adj: Adj, s: char, target: Option<char>, visited: seq<char>)
    requires ListsSorted(N, adj)
    requires |visited| >= 1 && visited[0] == s && IsDfsOrder(N, visited)
    requires target.Some? && target.value in visited ==> visited[|visited| - 1] == target.value
    requires target.None? || target.value !in visited ==> NextDfs(N, visited) == None
    ensures IsDfsOrder(SortedNbrsOf(adj), visited) && IsTraversal(Edges(adj), s, visited)
    ensures target.None? || !Reachable(Edges(adj), s, target.value) ==>
      NextDfs(SortedNbrsOf(adj), visited) == None && CoversReachable(Edges(adj), s, visited)
    ensures target.Some? && Reachable(Edges(adj), s, target.value) ==> visited[|visited| - 1] == target.value
  {
    SortedListsEdges(N, adj);
    DfsOrderGrows(N, visited);
    GrowsIsTraversal(N, Edges(adj), s, visited);
    ListsSortedAgrees(N, adj);
    DfsOrderCongruent(N, SortedNbrsOf(adj), visited);
    if target.None? || target.value !in visited {
      DfsExhaustedCovers(N, Edges(adj), visited);
    }
  }

  /** The breadth-first counterpart of `DfsOutcome`. */
  lemma BfsOutcome(N: char -> seq<char>, adj: Adj, s: char, target: Option<char>, visited: seq<char>)
    requires ListsSorted(N, adj)
    requires |visited| >= 1 && visited[0] == s && IsBfsOrder(N, visited)
    requires target.Some? && target.value in visited ==> visited[|visited| - 1] == target.value
    requires target.None? || target.value !in visited ==> NextBfs(N, visited) == None
    ensures IsBfsOrder(SortedNbrsOf(adj), visited) && IsTraversal(Edges(adj), s, visited)
    ensures target.None? || !Reachable(Edges(adj), s, target.value) ==>
      NextBfs(SortedNbrsOf(adj), visited) == None && CoversReachable(Edges(adj), s, visited)
    ensures target.Some? && Reachable(Edges(adj), s, target.value) ==> visited[|visited| - 1] == target.value
  {
    SortedListsEdges(N, adj);
    BfsOrderGrows(N, visited);
    GrowsIsTraversal(N, Edges(adj), s, visited);
    ListsSortedAgrees(N, adj);
    BfsOrderCongruent(N, SortedNbrsOf(adj), visited);
    if target.None? || target.value !in visited {
      BfsExhaustedCovers(N, Edges(adj), visited);
    }
  }

  /** Visiting a new key shrinks the set of unvisited keys: the measure
      that makes both searches terminate. */
  lemma UnvisitedShrinks(keys: set<char>, visited: seq<char>, v: char)
    requires v in keys && v !in visited
    ensures keys - Elems(visited + [v]) < keys - Elems(visited)
  {
    assert Elems(visited + [v]) == Elems(visited) + {v};
  }

  class UndirectedGraph {
    var adj: Adj
    var order: seq<char>

    /** What every state has: the key order lists each key once, and no
        list names its own key. */
    ghost predicate Valid()
      reads this
    {
      Distinct(order) && Elems(order) == adj.Keys && NoSelfLoops(adj)
    }

    /** The adjacency invariant of a simple undirected graph. Every operation
        keeps it except `AddVertex` on an existing label with neighbours. */
    ghost predicate IsSimple()
      reads this
    {
      Valid() && IsSimpleGraph(adj)
    }

    ghost function E(): set<(char, char)>
      reads this
    {
      Edges(adj)
    }

    /** The neighbour lists both searches use: each list sorted. */
    function Nbrs(): char -> seq<char>
      reads this
    {
      SortedNbrsOf(adj)
    }

    /** Without an edge list the graph is empty. With one, the graph is what
        `add_edge` builds from the pairs in list order: simple, its labels
        the endpoints of the pairs that are not loops, in order of first
        appearance, and its edges those pairs, in both orientations. */
    constructor (startEdges: Option<seq<(char, char)>>)
      ensures IsSimple()
      ensures startEdges.None? ==> adj == map[] && order == []
      ensures startEdges.Some? ==> adj == BuildAdj(startEdges.value) && order == BuildOrder(startEdges.value)
      ensures startEdges.Some? ==> adj.Keys == PairEndpoints(startEdges.value) && E() == PairEdges(startEdges.value)
    {
      adj := map[];
      order := [];
      new;
      if startEdges.Some? {
        var es := startEdges.value;
        var k := 0;
        while k < |es|
          invariant Built(es, k)
        {
          k := AddPair(es, k);
        }
        assert es[..|es|] == es;
        BuildAdjSimple(es);
      }
    }

    /** The state after the constructor's loop has added the first `k`
        pairs. */
    ghost predicate Built(es: seq<(char, char)>, k: nat)
      reads this
    {
      k <= |es| && IsSimple() && adj == BuildAdj(es[..k]) && order == BuildOrder(es[..k])
    }

    /** One round of the constructor's loop: `add_edge` on the next pair. */
    method AddPair(es: seq<(char, char)>, k: nat) returns (next: nat)
      requires k < |es| && Built(es, k)
      modifies this
      ensures next == k + 1 && Built(es, next)
    {
      var (u, v) := es[k];
      assert es[..k + 1][..k] == es[..k] && es[..k + 1][k] == (u, v);
      AddEdge(u, v);
      next := k + 1;
    }

    /** Sets the list of `v` to empty, creating the key at the end of the
        key order when it is new. A new label keeps the graph simple and
        adds no edge; an existing label with neighbours loses them on its
        own side only, which leaves the lists asymmetric. */
    method AddVertex(v: char)
      requires Valid()
      modifies this
      ensures adj == old(adj)[v := []]
      ensures order == if v in old(adj) then old(order) else old(order) + [v]
      ensures Valid()
      ensures old(IsSimple()) && v !in old(adj) ==> IsSimple() && E() == old(E())
      ensures old(IsSimple()) && v in old(adj) && old(adj[v]) != [] ==> !IsSimple()
    {
      if v !in adj {
        DistinctAppend(order, v);
        order := order + [v];
      }
      if IsSimple() && v in adj && adj[v] != [] {
        ResetBreaksSymmetry(adj, v);
      }
      if IsSimple() && v !in adj {
        WithKeySimple(adj, v);
      }
      adj := adj[v := []];
    }

    /** Links `u` and `v` (creating either label that is missing) unless they
        are the same label or `u` is already in the list of `v`. In a simple
        graph this adds exactly the edge between them. */
    method AddEdge(u: char, v: char)
      requires Valid()
      modifies this
      ensures Valid()
      ensures u == v ==> adj == old(adj) && order == old(order)
      ensures u != v ==> adj == Linked(old(adj), u, v)
      ensures u != v ==> order == old(order) + (if u in old(adj) then [] else [u]) + (if v in old(adj) then [] else [v])
      ensures old(IsSimple()) ==> IsSimple() && E() == old(E()) + (if u != v then {(u, v), (v, u)} else {})
    {
      if u != v {
        if IsSimple() {
          LinkedSimple(adj, u, v);
        }
        AddEndpoints(u, v);
        if u !in adj[v] {
          Link(u, v);
        }
      }
    }

    /** The first half of `add_edge`: each missing endpoint becomes a key with
        an empty list, appended to the key order. */
    method AddEndpoints(u: char, v: char)
      requires Valid()
      modifies this
      ensures Valid() && u in adj && v in adj
      ensures adj == WithKey(WithKey(old(adj), u), v)
      ensures order == old(order) + (if u in old(adj) then [] else [u]) + (if v in old(adj) || v == u then [] else [v])
    {
      ghost var adj0, order0 := adj, order;
      if u !in adj {
        AddVertex(u);
      }
      ghost var order1 := order;
      assert order1 == order0 + (if u in adj0 then [] else [u]);
      if v !in adj {
        AddVertex(v);
      }
    }

    /** The two appends of `add_edge`. */
    method Link(u: char, v: char)
      requires Valid() && u != v && u in adj && v in adj
      modifies this
      ensures Valid() && order == old(order)
      ensures adj == old(adj)[v := old(adj[v]) + [u]][u := old(adj[u]) + [v]]
    {
      AppendBothNoSelfLoops(adj, u, v);
      adj := adj[v := adj[v] + [u]];
      adj := adj[u := adj[u] + [v]];
    }

    /** Unlinks `v` and `u` when `v` is in the list of `u`; otherwise does
        nothing. In a simple graph this removes exactly the edge between
        them. */
    method RemoveEdge(v: char, u: char)
      requires Valid()
      requires u in adj && v in adj[u] ==> v in adj && u in adj[v]
      modifies this
      ensures Valid() && order == old(order)
      ensures adj == if u in old(adj) && v in old(adj[u]) then Unlinked(old(adj), v, u) else old(adj)
      ensures old(IsSimple()) ==> IsSimple() && E() == old(E()) - {(u, v), (v, u)}
    {
      if IsSimple() && u in adj && v in adj[u] {
        UnlinkedSimple(adj, v, u);
      }
      if u in adj && v in adj[u] {
        UnlinkedNoSelfLoops(adj, v, u);
        adj := adj[v := RemoveFirst(adj[v], u)];
        adj := adj[u := RemoveFirst(adj[u], v)];
      }
    }

    /** Removes the label `v` with all its links; does nothing for an
        unknown label. Other lists lose occurrences of `v` and nothing else;
        in a simple graph, exactly the edges at `v` disappear. */
    method RemoveVertex(v: char)
      requires Valid()
      modifies this
      ensures Valid()
      ensures v !in old(adj) ==> adj == old(adj) && order == old(order)
      ensures v in old(adj) ==> order == RemoveFirst(old(order), v)
      ensures adj.Keys == old(adj.Keys) - {v}
      ensures forall k, x :: k in adj && x != v ==> multiset(adj[k])[x] == multiset(old(adj[k]))[x]
      ensures old(IsSimple()) ==> IsSimple() && adj == Detached(old(adj), v)
      ensures old(IsSimple()) ==> E() == old(E()) - Touching(old(E()), v)
    {
      if v !in adj {
        return;
      }
      ghost var simple := IsSimple();
      ghost var adj0 := adj;
      var vertices := [];
      var t := 0;
      while t < |adj[v]|
        invariant 0 <= t <= |adj[v]| && vertices == adj[v][..t]
      {
        vertices := vertices + [adj[v][t]];
        t := t + 1;
      }
      assert vertices == adj0[v];
      UnlinkNeighbours(v, vertices);
      if simple {
        DetachedSimple(adj0, v);
      }
      RemoveFirstDistinct(order, v);
      adj := adj - {v};
      order := RemoveFirst(order, v);
    }

    /** The second loop of `remove_vertex`: `remove_edge(v, j)` for each `j`
        of the copied list. In a simple graph, with the copy equal to the list
        of `v`, it leaves `v` linked to nothing. */
    method UnlinkNeighbours(v: char, vertices: seq<char>)
      requires Valid() && v in adj && multiset(vertices) <= multiset(adj[v])
      modifies this
      ensures Valid() && order == old(order) && v in adj && adj.Keys == old(adj.Keys)
      ensures forall key, x :: key in adj && key != v && x != v ==> multiset(adj[key])[x] == multiset(old(adj[key]))[x]
      ensures old(IsSimple()) && vertices == old(adj[v]) ==> adj - {v} == Detached(old(adj), v)
    {
      ghost var adj0 := adj;
      ghost var simple := IsSimple() && vertices == adj[v];
      var k := 0;
      while k < |vertices|
        invariant 0 <= k <= |vertices| && Valid() && order == old(order)
        invariant UnlinkLoopInv(adj0, adj, v, vertices, k)
        invariant simple ==> IsSimpleGraph(adj0) && vertices == adj0[v] && DetachedUpTo(adj0, v, k, adj)
      {
        k := UnlinkNext(v, vertices, k, adj0, simple);
      }
      if simple {
        DetachEnd(adj0, v, adj);
      }
    }

    /** The body of that loop: `remove_edge(v, j)` for the entry `j` at
        index `k` of the copy. */
    method UnlinkNext(v: char, vertices: seq<char>, k: nat, ghost adj0: Adj, ghost simple: bool) returns (next: nat)
      requires Valid() && k < |vertices| && UnlinkLoopInv(adj0, adj, v, vertices, k)
      requires simple ==> IsSimpleGraph(adj0) && vertices == adj0[v] && DetachedUpTo(adj0, v, k, adj)
      modifies this
      ensures next == k + 1 && Valid() && order == old(order)
      ensures UnlinkLoopInv(adj0, adj, v, vertices, next)
      ensures simple ==> DetachedUpTo(adj0, v, next, adj)
    {
      var j := vertices[k];
      if simple {
        DetachStep(adj0, v, k, adj);
      }
      NextInList(adj0, adj, v, vertices, k);
      ghost var before := adj;
      RemoveEdge(v, j);
      UnlinkRound(adj0, before, adj, v, vertices, k);
      next := k + 1;
    }

    /** The labels, in insertion order. */
    method GetVertices() returns (keys: seq<char>)
      requires Valid()
      ensures keys == order && Distinct(keys) && Elems(keys) == adj.Keys
    {
      keys := [];
      var t := 0;
      while t < |order|
        invariant 0 <= t <= |order| && keys == order[..t]
      {
        keys := keys + [order[t]];
        t := t + 1;
      }
      assert order[..|order|] == order;
    }

    /** The pairs `(key, value)` for `value` in the list of `key` that are in
        `keys`, in list order. */
    method PairsInto(key: char, keys: seq<char>) returns (pairs: seq<(char, char)>)
      requires key in adj
      ensures forall a, b :: (a, b) in pairs <==> a == key && b in adj[key] && b in keys
      ensures Distinct(adj[key]) ==> Distinct(pairs)
    {
      pairs := [];
      var list := adj[key];
      var j := 0;
      while j < |list|
        invariant 0 <= j <= |list|
        invariant forall a, b :: (a, b) in pairs <==> a == key && b in list[..j] && b in keys
        invariant Distinct(list) ==> Distinct(pairs)
      {
        var value := list[j];
        assert list[..j + 1] == list[..j] + [value];
        if value in keys {
          if Distinct(list) {
            assert value !in list[..j];
            DistinctAppend(pairs, (key, value));
          }
          pairs := pairs + [(key, value)];
        }
        j := j + 1;
      }
      assert list[..|list|] == list;
    }

    /** Every pair `get_edges` reports: `(a, b)` with `b` in the list of
        `a` and inserted no earlier than `a`. In a simple graph no pair is
        reported twice and each edge is reported in exactly one orientation. */
    method GetEdges() returns (edges: seq<(char, char)>)
      requires Valid()
      ensures forall a, b :: (a, b) in edges <==> Listed(order, adj, a, b)
      ensures IsSimple() ==> Distinct(edges)
      ensures IsSimple() ==> forall a, b :: (a, b) in E() <==> ((a, b) in edges || (b, a) in edges)
      ensures IsSimple() ==> forall a, b :: !((a, b) in edges && (b, a) in edges)
    {
      edges := [];
      var keys := GetVertices();
      var i := 0;
      while i < |order|
        invariant 0 <= i <= |order| && keys == order[i..]
        invariant forall a, b :: (a, b) in edges <==> a in order[..i] && Listed(order, adj, a, b)
        invariant IsSimple() ==> Distinct(edges)
      {
        var key := order[i];
        assert key in Elems(order);
        var pairs := PairsInto(key, keys);
        SnapshotStep(order, adj, i, edges, pairs);
        if IsSimple() {
          DistinctConcat(edges, pairs);
        }
        edges := edges + pairs;
        assert keys[0] == key && RemoveFirst(keys, key) == keys[1..];
        keys := RemoveFirst(keys, key);
        i := i + 1;
      }
      assert order[..|order|] == order;
      if IsSimple() {
        forall a, b ensures ((a, b) in E() <==> Listed(order, adj, a, b) || Listed(order, adj, b, a))
          && !(Listed(order, adj, a, b) && Listed(order, adj, b, a))
        {
          ListedOnce(order, adj, a, b);
        }
      }
    }

    /** The empty path is valid; a one-label path is valid when the label is
        a key; a longer path is valid when every step is reported by
        `GetEdges` in one orientation or the other, which in a simple graph
        means exactly that the path is a walk. */
    method IsValidPath(path: seq<char>) returns (ok: bool)
      requires Valid()
      ensures ok <==> (|path| == 0 || (|path| == 1 && path[0] in adj) ||
        (|path| >= 2 && forall i :: 0 <= i < |path| - 1 ==>
          Listed(order, adj, path[i], path[i + 1]) || Listed(order, adj, path[i + 1], path[i])))
      ensures IsSimple() ==> (ok <==> |path| == 0 || (|path| == 1 && path[0] in adj) || (|path| >= 2 && IsWalk(E(), path)))
    {
      if |path| == 0 {
        return true;
      }
      if |path| == 1 {
        return path[0] in adj;
      }
      var edges := GetEdges();
      var i := 0;
      while i < |path| - 1
        invariant 0 <= i <= |path| - 1
        invariant forall k :: 0 <= k < i ==> (path[k], path[k + 1]) in edges || (path[k + 1], path[k]) in edges
      {
        if (path[i], path[i + 1]) !in edges && (path[i + 1], path[i]) !in edges {
          return false;
        }
        i := i + 1;
      }
      return true;
    }

    /** Python's `v_end`, dropped when it is not a key. */
    function Target(vEnd: Option<char>): Option<char>
      reads this
    {
      if vEnd.Some? && vEnd.value in adj then vEnd else None
    }

    /** The inner loop of `dfs`: push the sorted neighbours of `v` in
        reverse, so that the smallest is on top. */
    method PushSorted(stack: seq<char>, v: char) returns (pushed: seq<char>)
      requires v in adj
      ensures pushed == stack + Reverse(SortChars(adj[v]))
    {
      pushed := stack;
      var list := SortChars(adj[v]);
      var i := |list|;
      while i > 0
        invariant 0 <= i <= |list|
        invariant pushed == stack + Reverse(list[i..])
      {
        i := i - 1;
        assert list[i..] == [list[i]] + list[i + 1..];
        ReverseCons(list[i], list[i + 1..]);
        pushed := pushed + [list[i]];
      }
    }

    /** Depth-first search from `vStart` with a stack, taking neighbours in
        alphabetical order. The result is the depth-first visiting order; it
        stops at `Target(vEnd)` when that is reached and otherwise lists
        everything reachable. Every label the search can reach must be a key
        (Python raises `KeyError` otherwise); a simple graph has this. */
    method Dfs(vStart: char, vEnd: Option<char>) returns (visited: seq<char>)
      requires Valid() && (vStart in adj ==> ReachKeys(adj, vStart))
      ensures vStart !in adj ==> visited == []
      ensures vStart in adj ==>
        && |visited| >= 1 && visited[0] == vStart
        && IsDfsOrder(Nbrs(), visited)
        && IsTraversal(E(), vStart, visited)
      ensures vStart in adj && (Target(vEnd).None? || !Reachable(E(), vStart, Target(vEnd).value)) ==>
        NextDfs(Nbrs(), visited) == None && CoversReachable(E(), vStart, visited)
      ensures vStart in adj && Target(vEnd).Some? && Reachable(E(), vStart, Target(vEnd).value) ==>
        visited[|visited| - 1] == Target(vEnd).value
    {
      if vStart !in adj {
        return [];
      }
      var target := Target(vEnd);
      ghost var N := SortedFunction(adj);
      visited := DfsFrom(N, vStart, target);
      DfsOutcome(N, adj, vStart, target, visited);
    }

    /** The search loop of `dfs`, against an abstract copy `N` of the sorted
        lists: the visiting order is depth-first; it ends with the target
        when the target was visited, and otherwise only once no visited label
        has an unvisited neighbour. */
    method DfsFrom(ghost N: char -> seq<char>, vStart: char, target: Option<char>) returns (visited: seq<char>)
      requires ListsSorted(N, adj) && vStart in adj && ReachKeys(adj, vStart)
      ensures |visited| >= 1 && visited[0] == vStart && IsDfsOrder(N, visited)
      ensures target.Some? && target.value in visited ==> visited[|visited| - 1] == target.value
      ensures target.None? || target.value !in visited ==> NextDfs(N, visited) == None
    {
      visited := [];
      var stack := [vStart];
      ghost var cut: seq<nat> := [];
      ReachableSelf(E(), vStart);
      while |stack| != 0
        invariant DfsLoopInv(N, vStart, visited, cut, stack)
        invariant AllReach(E(), vStart, stack) && AllReach(E(), vStart, visited)
        invariant target.Some? ==> target.value !in visited
        decreases adj.Keys - Elems(visited), |stack|
      {
        var v := stack[|stack| - 1];
        ghost var before := visited;
        if v !in visited {
          cut := DfsVisitRound(N, adj, vStart, visited, cut, stack);
          UnvisitedShrinks(adj.Keys, visited, v);
          stack := stack[..|stack| - 1];
          visited := visited + [v];
          stack := PushSorted(stack, v);
        } else {
          cut := DfsLoopSkip(N, vStart, visited, cut, stack);
          AllReachPrefix(E(), vStart, stack, |stack| - 1);
          stack := stack[..|stack| - 1];
        }
        if target.Some? && v == target.value {
          assert visited == before + [v];
          return;
        }
      }
      DfsLoopExhausted(N, vStart, visited, cut);
    }

    /** The inner loop of `bfs`: enqueue, in alphabetical order, every
        neighbour of `v` not visited yet. */
    method EnqueueFresh(queue: seq<char>, visited: seq<char>, v: char) returns (enqueued: seq<char>)
      requires v in adj
      ensures enqueued == queue + Fresh(SortChars(adj[v]), visited)
    {
      enqueued := queue;
      var list := SortChars(adj[v]);
      var i := 0;
      while i < |list|
        invariant 0 <= i <= |list|
        invariant enqueued == queue + Fresh(list[..i], visited)
      {
        FreshAppend(list[..i], [list[i]], visited);
        assert list[..i + 1] == list[..i] + [list[i]];
        if list[i] !in visited {
          assert Fresh([list[i]], visited) == [list[i]];
          enqueued := enqueued + [list[i]];
        } else {
          assert Fresh([list[i]], visited) == [];
        }
        i := i + 1;
      }
      assert list[..|list|] == list;
    }

    /** Breadth-first search from `vStart` with a queue, enqueuing the
        unvisited neighbours of each newly visited label in alphabetical
        order. The result is the breadth-first visiting order; it stops at
        `Target(vEnd)` when that is reached and otherwise lists everything
        reachable. */
    method Bfs(vStart: char, vEnd: Option<char>) returns (visited: seq<char>)
      requires Valid() && (vStart in adj ==> ReachKeys(adj, vStart))
      ensures vStart !in adj ==> visited == []
      ensures vStart in adj ==>
        && |visited| >= 1 && visited[0] == vStart
        && IsBfsOrder(Nbrs(), visited)
        && IsTraversal(E(), vStart, visited)
      ensures vStart in adj && (Target(vEnd).None? || !Reachable(E(), vStart, Target(vEnd).value)) ==>
        NextBfs(Nbrs(), visited) == None && CoversReachable(E(), vStart, visited)
      ensures vStart in adj && Target(vEnd).Some? && Reachable(E(), vStart, Target(vEnd).value) ==>
        visited[|visited| - 1] == Target(vEnd).value
    {
      if vStart !in adj {
        return [];
      }
      var target := Target(vEnd);
      ghost var N := SortedFunction(adj);
      visited := BfsFrom(N, vStart, target);
      BfsOutcome(N, adj, vStart, target, visited);
    }

    /** The search loop of `bfs`, against an abstract copy `N` of the sorted
        lists. */
    method BfsFrom(ghost N: char -> seq<char>, vStart: char, target: Option<char>) returns (visited: seq<char>)
      requires ListsSorted(N, adj) && vStart in adj && ReachKeys(adj, vStart)
      ensures |visited| >= 1 && visited[0] == vStart && IsBfsOrder(N, visited)
      ensures target.Some? && target.value in visited ==> visited[|visited| - 1] == target.value
      ensures target.None? || target.value !in visited ==> NextBfs(N, visited) == None
    {
      visited := [];
      var queue := [vStart];
      ghost var cut: seq<nat> := [];
      ReachableSelf(E(), vStart);
      while |queue| != 0
        invariant BfsLoopInv(N, vStart, visited, cut, queue)
        invariant AllReach(E(), vStart, queue) && AllReach(E(), vStart, visited)
        invariant target.Some? ==> target.value !in visited
        decreases adj.Keys - Elems(visited), |queue|
      {
        var v := queue[0];
        if v !in visited {
          cut := BfsVisitRound(N, adj, vStart, visited, cut, queue);
          UnvisitedShrinks(adj.Keys, visited, v);
          queue := queue[1..];
          visited := visited + [v];
          if target.Some? && v == target.value {
            return;
          }
          queue := EnqueueFresh(queue, visited, v);
        } else {
          cut := BfsLoopSkip(N, vStart, visited, cut, queue);
          AllReachSuffix(E(), vStart, queue);
          queue := queue[1..];
        }
      }
      BfsLoopExhausted(N, vStart, visited, cut);
    }

    /** The number of connected components: one search per key not yet
        covered, each removing the component it visits from the keys left. */
    method CountConnectedComponents() returns (count: nat)
      requires IsSimple()
      ensures count == |Components(adj)|
    {
      count := 0;
      var vertices := GetVertices();
      ghost var R: set<char> := {};
      while |vertices| != 0
        invariant CountInv(vertices, R, count)
        decreases |vertices|
      {
        vertices, R, count := CountNext(vertices, R, count);
      }
      CountDone(vertices, R, count);
    }

    /** When no key is left, every key is covered and `count` is the number
        of components. */
    lemma CountDone(vertices: seq<char>, R: set<char>, count: nat)
      requires CountInv(vertices, R, count) && vertices == []
      ensures count == |Components(adj)|
    {
      assert adj.Keys - R == Elems(vertices) == {};
      assert R <= adj.Keys;
      forall k | k in adj ensures k in R {
        assert k !in adj.Keys - R;
      }
      assert R == adj.Keys;
      assert ComponentsOf(adj, R) == Components(adj);
    }

    /** The invariant of the loop of `count_connected_components`: the keys
        left are the keys outside the set `R` of keys already covered, no
        edge leaves `R`, and `count` is the number of components in `R`. */
    ghost predicate CountInv(vertices: seq<char>, R: set<char>, count: nat)
      reads this
    {
      && Distinct(vertices) && Elems(vertices) == adj.Keys - R
      && R <= adj.Keys && Closed(E(), R)
      && count == |ComponentsOf(adj, R)|
    }

    /** One round of that loop: search from the first key left, count its
        component, and drop the visited keys. */
    method CountNext(vertices: seq<char>, ghost R: set<char>, count: nat)
      returns (vertices': seq<char>, ghost R': set<char>, count': nat)
      requires IsSimple() && CountInv(vertices, R, count) && vertices != []
      ensures CountInv(vertices', R', count') && |vertices'| < |vertices|
      ensures count' == count + 1
    {
      var s := vertices[0];
      assert s in Elems(vertices);
      var visited := ComponentSearch(s);
      CoverComponent(adj, R, s);
      count' := count + 1;
      vertices' := RemoveVisited(vertices, visited);
      R' := R + Component(adj, s);
    }

    /** `dfs(s)` with no target, as `count_connected_components` calls it:
        it visits the component of `s`, each key once. */
    method ComponentSearch(s: char) returns (visited: seq<char>)
      requires IsSimple() && s in adj
      ensures Elems(visited) == Component(adj, s) && Distinct(visited) && |visited| >= 1
    {
      ClosedReachKeys(adj, s);
      visited := Dfs(s, None);
      SearchIsComponent(adj, s, visited);
    }

    /** The inner loop of `count_connected_components`: `remove` every
        visited label from the keys left. */
    method RemoveVisited(vertices: seq<char>, visited: seq<char>) returns (rest: seq<char>)
      requires Distinct(vertices) && Distinct(visited) && Elems(visited) <= Elems(vertices)
      ensures Distinct(rest) && Elems(rest) == Elems(vertices) - Elems(visited)
      ensures |rest| == |vertices| - |visited|
    {
      rest := vertices;
      var j := 0;
      while j < |visited|
        invariant 0 <= j <= |visited| && Distinct(rest)
        invariant Elems(rest) == Elems(vertices) - Elems(visited[..j])
        invariant |rest| == |vertices| - j
      {
        var i := visited[j];
        assert visited[..j + 1] == visited[..j] + [i];
        if i in visited {
          assert Distinct(visited) && visited[j..j + 1] == [i];
          assert i !in visited[..j];
          assert i in Elems(vertices) - Elems(visited[..j]);
          assert i in Elems(rest);
          RemoveFirstDistinct(rest, i);
          assert Elems(RemoveFirst(rest, i)) == Elems(rest) - {i};
          assert Elems(visited[..j + 1]) == Elems(visited[..j]) + {i};
          rest := RemoveFirst(rest, i);
        }
        j := j + 1;
      }
      assert visited[..|visited|] == visited;
    }

    /** The `for` loop at the start of `has_cycle`: the first label, in
        insertion order, whose list is not empty. When there is none Python
        leaves the start vertex unbound and raises; that is `None` here. */
    method FirstNonIsolated(vertices: seq<char>) returns (start: Option<char>)
      requires Valid() && vertices == order
      ensures start.None? <==> forall u :: u in adj ==> adj[u] == []
      ensures start.Some? ==> exists x :: 0 <= x < |order| && order[x] == start.value && adj[start.value] != []
                                          && forall j :: 0 <= j < x ==> adj[order[j]] == []
    {
      DistinctCard(order);
      assert |adj| == |order|;
      var x := 0;
      while x < |adj|
        invariant 0 <= x <= |adj|
        invariant forall j :: 0 <= j < x ==> adj[vertices[j]] == []
      {
        if |adj[vertices[x]]| > 0 {
          return Some(vertices[x]);
        }
        x := x + 1;
      }
      forall u | u in adj ensures adj[u] == [] {
        assert u in Elems(order);
      }
      return None;
    }

    /** `has_cycle`: a depth-first search that records the parent of each
        vertex it reaches and reports a cycle as soon as the vertex being
        explored has a visited neighbour other than its parent. Whenever the
        stack runs empty the first label not yet popped is pushed, so every
        tree of the spanning forest is searched. The answer is exact on a
        simple graph; with no label of positive degree Python raises, which
        is `None` here. */
    method HasCycle() returns (found: Option<bool>)
      requires IsSimple()
      ensures found.None? <==> forall u :: u in adj ==> adj[u] == []
      ensures found.Some? ==> (found.value <==> HasUndirectedCycle(E()))
    {
      var vertices := GetVertices();
      var start := FirstNonIsolated(vertices);
      if start.None? {
        return None;
      }
      var v := start.value;
      var visited := [v];
      var stack := [v];
      var parent: map<char, char> := map[];
      ghost var tree: set<(char, char)> := {};
      ghost var root := map[v := v];
      ghost var cur := v;
      ghost var done: set<char> := {};
      CycleInit(adj, vertices, v);
      while |stack| != 0
        invariant CycleInv(adj, visited, vertices, stack, parent, tree, root, cur, done)
        decreases |vertices|
      {
        EnterExplore(adj, visited, vertices, stack, parent, tree, root, cur, done);
        var v1 := stack[|stack| - 1];
        stack := stack[..|stack| - 1];
        if v1 !in visited {
          visited := visited + [v1];
          root := root[v1 := v1];
        }
        var nbrs := adj[v1];
        var k := 0;
        while k < |nbrs|
          invariant nbrs == adj[v1]
          invariant ExploreInv(adj, v1, k, visited, vertices, stack, parent, tree, root, cur, done)
        {
          var i := nbrs[k];
          if i !in visited {
            ExploreFresh(adj, v1, k, visited, vertices, stack, parent, tree, root, cur, done);
            visited := visited + [i];
            stack := stack + [i];
            parent := parent[i := v1];
            tree := tree + {(i, v1), (v1, i)};
            root := root[i := root[v1]];
          } else {
            VisitedNeighbourHasParent(adj, v1, k, visited, vertices, stack, parent, tree, root, cur, done);
            if parent[v1] != i {
              ExploreCycle(adj, v1, k, visited, vertices, stack, parent, tree, root, cur, done);
              return Some(true);
            }
            ExploreParent(adj, v1, k, visited, vertices, stack, parent, tree, root, cur, done);
          }
          k := k + 1;
        }
        LeaveExplore(adj, v1, visited, vertices, stack, parent, tree, root, cur, done);
        if v1 in vertices {
          vertices := RemoveFirst(vertices, v1);
        }
        if |stack| == 0 && |vertices| > 0 {
          done := adj.Keys - Elems(vertices);
          cur := vertices[0];
          stack := stack + [vertices[0]];
        }
      }
      CycleFinish(adj, visited, parent, tree, root, cur, done);
      return Some(false);
    }
  }
}
