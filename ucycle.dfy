/** Undirected cycles, and the spanning forest `has_cycle` grows while it
    searches: the forest the `parent` links describe, the invariant of its
    search loop, and the lemmas that carry that invariant through one round. */
module UCycle {
  import opened Lists
  import opened Walks
  import opened UGraphSpec

  /** An undirected graph (a symmetric edge relation) has a cycle exactly
      when some edge can be removed, in both orientations, while its
      endpoints stay connected. */
  ghost predicate HasUndirectedCycle(E: set<(char, char)>)
  {
    exists a, b :: (a, b) in E && Reachable(E - {(a, b), (b, a)}, a, b)
  }

  /** A triangle is a cycle: the edge `a`–`b` can go, `c` still joins them. */
  lemma TriangleHasCycle(E: set<(char, char)>, a: char, b: char, c: char)
    requires (a, b) in E && (a, c) in E && (c, b) in E && c != a && c != b
    ensures HasUndirectedCycle(E)
  {
    assert IsWalkFromTo(E - {(a, b), (b, a)}, [a, c, b], a, b);
  }

  /** No edge of `T` touches `b`. */
  ghost predicate Untouched(T: set<(char, char)>, b: char)
  {
    forall e :: e in T ==> e.0 != b && e.1 != b
  }

  /** A walk between two vertices other than `b`, in `T` plus a new leaf
      edge to `b`, only ever enters `b` to come straight back; dropping those
      detours leaves a walk in `T`. */
  lemma {:induction false} SkipLeaf(T: set<(char, char)>, a: char, b: char, F: set<(char, char)>, p: seq<char>)
    returns (q: seq<char>)
    requires a != b && Untouched(T, b)
    requires IsWalk(T + {(a, b), (b, a)} - F, p) && p[0] != b && p[|p| - 1] != b
    ensures IsWalk(T - F, q) && q[0] == p[0] && q[|q| - 1] == p[|p| - 1]
    decreases |p|
  {
    var L := T + {(a, b), (b, a)} - F;
    if b !in p {
      forall i | 0 <= i < |p| - 1 ensures (p[i], p[i + 1]) in T - F {
        assert p[i] in p && p[i + 1] in p;
      }
      q := p;
    } else {
      var k :| 0 <= k < |p| && p[k] == b;
      assert 0 < k < |p| - 1;
      assert (p[k - 1], p[k]) in L && (p[k], p[k + 1]) in L;
      assert p[k - 1] == a && p[k + 1] == a;
      var left := p[..k];
      var right := p[k + 1..];
      WalkPrefix(L, p, k);
      forall i | 0 <= i < |right| - 1 ensures (right[i], right[i + 1]) in L {
        assert right[i] == p[k + 1 + i] && right[i + 1] == p[k + 2 + i];
      }
      WalkConcat(L, left, right);
      var shorter := left + right[1..];
      assert shorter[0] == p[0];
      assert shorter[|shorter| - 1] == p[|p| - 1];
      q := SkipLeaf(T, a, b, F, shorter);
    }
  }

  /** Hanging a new leaf `b` off `a` creates no cycle. */
  lemma AddLeafAcyclic(T: set<(char, char)>, a: char, b: char)
    requires !HasUndirectedCycle(T) && a != b && Untouched(T, b)
    ensures !HasUndirectedCycle(T + {(a, b), (b, a)})
  {
    var T' := T + {(a, b), (b, a)};
    assert (a, b) !in T && (b, a) !in T;
    forall x, y | (x, y) in T' ensures !Reachable(T' - {(x, y), (y, x)}, x, y) {
      var F := {(x, y), (y, x)};
      if (x, y) in T {
        assert x != b && y != b;
        if Reachable(T' - F, x, y) {
          var p :| IsWalkFromTo(T' - F, p, x, y);
          var q := SkipLeaf(T, a, b, F, p);
          assert IsWalkFromTo(T - F, q, x, y);
          assert Reachable(T - F, x, y);
        }
      } else {
        assert T' - F == T;
        if Reachable(T, x, y) {
          var p :| IsWalkFromTo(T, p, x, y);
          WalkEndEdges(T, p);
        }
      }
    }
  }

  // ---------------------------------------------------------------------
  // The search of `has_cycle`

  /** The `parent` links and the forest: each link is a forest edge in both
      orientations, and every forest edge is a link in one of them. */
  ghost predicate ParentTree(parent: map<char, char>, tree: set<(char, char)>)
  {
    && (forall x :: x in parent ==> (x, parent[x]) in tree && (parent[x], x) in tree)
    && (forall a, b :: (a, b) in tree ==> (a in parent && parent[a] == b) || (b in parent && parent[b] == a))
  }

  lemma ParentTreeSymmetric(parent: map<char, char>, tree: set<(char, char)>)
    requires ParentTree(parent, tree)
    ensures Symmetric(tree)
  {
  }

  /** Every visited vertex has a forest path to the root of its tree. */
  ghost predicate Rooted(tree: set<(char, char)>, root: map<char, char>, D: set<char>)
  {
    root.Keys == D && forall x :: x in D ==> Reachable(tree, x, root[x])
  }

  /** Every edge out of a popped vertex is a forest edge. */
  ghost predicate Explored(adj: Adj, P: set<char>, tree: set<(char, char)>)
  {
    forall u, i :: u in P && u in adj && i in adj[u] ==> (u, i) in tree
  }

  /** What the forest satisfies at every point of the search, given the
      visited set `D`, the popped set `P`, the root `cur` of the current
      tree and the set `done` of vertices of the finished trees. */
  ghost predicate Forest(adj: Adj, parent: map<char, char>, tree: set<(char, char)>, root: map<char, char>,
                         D: set<char>, P: set<char>, cur: char, done: set<char>)
  {
    && parent.Keys <= D
    && ParentTree(parent, tree) && tree <= Edges(adj) && !HasUndirectedCycle(tree)
    && Rooted(tree, root, D)
    && done <= P && Closed(Edges(adj), done)
    && (forall x :: x in D && x !in done ==> root[x] == cur)
    && Explored(adj, P, tree)
  }

  /** The invariant of the `while` loop of `has_cycle`. The popped vertices
      are the keys no longer in `vertices`; every visited vertex is popped
      or on the stack; only a root sits on the stack without a parent, and
      then alone. */
  ghost predicate CycleInv(adj: Adj, visited: seq<char>, vertices: seq<char>, stack: seq<char>, parent: map<char, char>,
                           tree: set<(char, char)>, root: map<char, char>, cur: char, done: set<char>)
  {
    var D := Elems(visited);
    var P := adj.Keys - Elems(vertices);
    && Distinct(visited) && D <= adj.Keys
    && Distinct(vertices) && Elems(vertices) <= adj.Keys
    && Distinct(stack) && Elems(stack) <= Elems(vertices)
    && P <= D && D <= P + Elems(stack)
    && (forall x :: x in parent ==> parent[x] in P)
    && (forall x :: x in stack ==> x in parent || (stack == [x] && x == cur && D <= P + {x}))
    && (stack == [] ==> vertices == [])
    && Forest(adj, parent, tree, root, D, P, cur, done)
  }

  /** The invariant of the `for` loop over the list of the popped vertex
      `v1`, after its first `k` neighbours. */
  ghost predicate ExploreInv(adj: Adj, v1: char, k: nat, visited: seq<char>, vertices: seq<char>, stack: seq<char>,
                             parent: map<char, char>, tree: set<(char, char)>, root: map<char, char>, cur: char, done: set<char>)
  {
    && ExploreSets(adj, v1, visited, vertices, stack, parent)
    && Forest(adj, parent, tree, root, Elems(visited), adj.Keys - Elems(vertices), cur, done)
    && ExploreScan(adj, v1, k, visited, parent, tree)
  }

  /** The bookkeeping part of `ExploreInv`: `v1` is visited but not yet
      counted as popped, and every vertex on the stack has a parent. */
  ghost predicate ExploreSets(adj: Adj, v1: char, visited: seq<char>, vertices: seq<char>, stack: seq<char>,
                              parent: map<char, char>)
  {
    var D := Elems(visited);
    var P := adj.Keys - Elems(vertices);
    && v1 in adj
    && Distinct(visited) && D <= adj.Keys
    && Distinct(vertices) && Elems(vertices) <= adj.Keys
    && Distinct(stack) && Elems(stack) <= Elems(vertices) - {v1}
    && v1 in D && v1 in vertices
    && P <= D && D <= P + Elems(stack) + {v1}
    && (forall x :: x in parent ==> parent[x] in P + {v1})
    && (forall x :: x in stack ==> x in parent)
  }

  /** The scan part of `ExploreInv`: the first `k` neighbours of `v1` are
      linked to it by forest edges, its children are among them, and a root
      has no visited neighbour left to scan. */
  ghost predicate ExploreScan(adj: Adj, v1: char, k: nat, visited: seq<char>, parent: map<char, char>,
                              tree: set<(char, char)>)
  {
    && v1 in adj && k <= |adj[v1]|
    && (forall j :: 0 <= j < k ==> (v1, adj[v1][j]) in tree)
    && (forall x :: x in parent && parent[x] == v1 ==> x in adj[v1][..k])
    && (v1 !in parent ==> forall j :: k <= j < |adj[v1]| ==> adj[v1][j] !in visited)
  }

  /** The state after the first vertex with neighbours is visited and pushed. */
  lemma CycleInit(adj: Adj, order: seq<char>, v: char)
    requires IsSimpleGraph(adj) && Distinct(order) && Elems(order) == adj.Keys && v in adj
    ensures CycleInv(adj, [v], order, [v], map[], {}, map[v := v], v, {})
  {
    ReachableSelf({}, v);
    assert Elems([v]) == {v};
    assert adj.Keys - Elems(order) == {};
  }

  /** Popping `v1` (and visiting it, if it is a new root) starts the `for`
      loop over its list. A root's neighbours are all unvisited: every
      visited vertex is popped, and an edge from a popped vertex to the
      root would be a forest edge, which needs a link the root does not
      have. */
  lemma EnterExplore(adj: Adj, visited: seq<char>, vertices: seq<char>, stack: seq<char>, parent: map<char, char>,
                     tree: set<(char, char)>, root: map<char, char>, cur: char, done: set<char>)
    requires IsSimpleGraph(adj) && CycleInv(adj, visited, vertices, stack, parent, tree, root, cur, done) && stack != []
    ensures var v1 := stack[|stack| - 1];
      ExploreInv(adj, v1, 0, if v1 in visited then visited else visited + [v1], vertices, stack[..|stack| - 1],
                 parent, tree, if v1 in visited then root else root[v1 := v1], cur, done)
  {
    var v1 := stack[|stack| - 1];
    var visited' := if v1 in visited then visited else visited + [v1];
    var root' := if v1 in visited then root else root[v1 := v1];
    EnterSets(adj, visited, vertices, stack, parent, cur);
    EnterForest(adj, visited, vertices, stack, parent, tree, root, cur, done);
    EnterScan(adj, visited, vertices, stack, parent, tree, root, cur, done);
  }

  lemma EnterSets(adj: Adj, visited: seq<char>, vertices: seq<char>, stack: seq<char>, parent: map<char, char>, cur: char)
    requires stack != []
    requires var D := Elems(visited); var P := adj.Keys - Elems(vertices);
      && Distinct(visited) && D <= adj.Keys
      && Distinct(vertices) && Elems(vertices) <= adj.Keys
      && Distinct(stack) && Elems(stack) <= Elems(vertices)
      && P <= D && D <= P + Elems(stack)
      && (forall x :: x in parent ==> parent[x] in P)
      && (forall x :: x in stack ==> x in parent || (stack == [x] && x == cur && D <= P + {x}))
    ensures var v1 := stack[|stack| - 1];
      ExploreSets(adj, v1, if v1 in visited then visited else visited + [v1], vertices, stack[..|stack| - 1], parent)
  {
    var v1 := stack[|stack| - 1];
    var D := Elems(visited);
    var visited' := if v1 in visited then visited else visited + [v1];
    var stack' := stack[..|stack| - 1];
    assert v1 in Elems(stack) && stack == stack' + [v1];
    if v1 !in visited {
      DistinctAppend(visited, v1);
    }
    assert Elems(visited') == D + {v1};
    assert Distinct(stack') && v1 !in stack';
    forall x | x in stack' ensures x in parent {
      assert x in stack && stack != [x];
    }
  }

  lemma EnterForest(adj: Adj, visited: seq<char>, vertices: seq<char>, stack: seq<char>, parent: map<char, char>,
                    tree: set<(char, char)>, root: map<char, char>, cur: char, done: set<char>)
    requires CycleInv(adj, visited, vertices, stack, parent, tree, root, cur, done) && stack != []
    ensures var v1 := stack[|stack| - 1];
      Forest(adj, parent, tree, if v1 in visited then root else root[v1 := v1],
             Elems(if v1 in visited then visited else visited + [v1]), adj.Keys - Elems(vertices), cur, done)
  {
    var v1 := stack[|stack| - 1];
    assert v1 in stack && v1 in vertices;
    if v1 !in visited {
      ReachableSelf(tree, v1);
      assert Elems(visited + [v1]) == Elems(visited) + {v1};
      assert v1 !in parent;
    }
  }

  lemma EnterScan(adj: Adj, visited: seq<char>, vertices: seq<char>, stack: seq<char>, parent: map<char, char>,
                  tree: set<(char, char)>, root: map<char, char>, cur: char, done: set<char>)
    requires IsSimpleGraph(adj) && CycleInv(adj, visited, vertices, stack, parent, tree, root, cur, done) && stack != []
    ensures var v1 := stack[|stack| - 1];
      ExploreScan(adj, v1, 0, if v1 in visited then visited else visited + [v1], parent, tree)
  {
    var v1 := stack[|stack| - 1];
    var D := Elems(visited);
    var P := adj.Keys - Elems(vertices);
    var visited' := if v1 in visited then visited else visited + [v1];
    assert v1 in stack && v1 in vertices && v1 !in P;
    assert Elems(visited') <= D + {v1};
    if v1 !in parent {
      assert stack == [v1] && D <= P + {v1};
      forall j | 0 <= j < |adj[v1]| ensures adj[v1][j] !in visited' {
        var i := adj[v1][j];
        assert i in adj[v1] && i != v1;
        RootNeighbourUnpopped(adj, parent, tree, P, v1, i);
      }
    }
  }

  /** A neighbour of a root is not popped: its edge to the root would be a
      forest edge, so one of the two would be the parent of the other. */
  lemma RootNeighbourUnpopped(adj: Adj, parent: map<char, char>, tree: set<(char, char)>, P: set<char>, v1: char, i: char)
    requires SymmetricLists(adj) && Explored(adj, P, tree) && ParentTree(parent, tree)
    requires forall x :: x in parent ==> parent[x] in P
    requires v1 in adj && v1 !in P && v1 !in parent && i in adj[v1]
    ensures i !in P
  {
    assert i in adj && v1 in adj[i];
  }

  /** The forest gains the leaf `i`, linked to `v1`. */
  lemma ForestAddLeaf(adj: Adj, parent: map<char, char>, tree: set<(char, char)>, root: map<char, char>,
                      D: set<char>, P: set<char>, cur: char, done: set<char>, v1: char, i: char)
    requires Forest(adj, parent, tree, root, D, P, cur, done)
    requires forall x :: x in parent ==> parent[x] in D
    requires v1 in D && v1 !in done && i !in D && (v1, i) in Edges(adj) && (i, v1) in Edges(adj)
    ensures Forest(adj, parent[i := v1], tree + {(i, v1), (v1, i)}, root[i := root[v1]], D + {i}, P, cur, done)
  {
    var tree' := tree + {(i, v1), (v1, i)};
    var root' := root[i := root[v1]];
    assert Untouched(tree, i);
    AddLeafAcyclic(tree, v1, i);
    assert tree + {(v1, i), (i, v1)} == tree';
    forall x | x in D + {i} ensures Reachable(tree', x, root'[x]) {
      if x == i {
        ReachableMonotone(tree, tree', v1, root[v1]);
        assert IsWalkFromTo(tree', [i, v1], i, v1);
        ReachableTrans(tree', i, v1, root[v1]);
      } else {
        assert x in root;
        ReachableMonotone(tree, tree', x, root[x]);
      }
    }
  }

  /** A new neighbour is visited, pushed and linked to `v1`. */
  lemma ExploreFresh(adj: Adj, v1: char, k: nat, visited: seq<char>, vertices: seq<char>, stack: seq<char>,
                     parent: map<char, char>, tree: set<(char, char)>, root: map<char, char>, cur: char, done: set<char>)
    requires IsSimpleGraph(adj) && ExploreInv(adj, v1, k, visited, vertices, stack, parent, tree, root, cur, done)
    requires k < |adj[v1]| && adj[v1][k] !in visited
    ensures var i := adj[v1][k];
      ExploreInv(adj, v1, k + 1, visited + [i], vertices, stack + [i], parent[i := v1],
                 tree + {(i, v1), (v1, i)}, root[i := root[v1]], cur, done)
  {
    var i := adj[v1][k];
    var D := Elems(visited);
    var P := adj.Keys - Elems(vertices);
    assert i in adj[v1] && i != v1 && i in adj && v1 in adj[i];
    assert Elems(visited + [i]) == D + {i};
    FreshSets(adj, v1, i, visited, vertices, stack, parent);
    assert v1 in D && v1 !in done;
    ForestAddLeaf(adj, parent, tree, root, D, P, cur, done, v1, i);
    FreshScan(adj, v1, k, visited, parent, tree);
  }

  lemma FreshSets(adj: Adj, v1: char, i: char, visited: seq<char>, vertices: seq<char>, stack: seq<char>,
                  parent: map<char, char>)
    requires ExploreSets(adj, v1, visited, vertices, stack, parent) && parent.Keys <= Elems(visited)
    requires i in adj[v1] && i in adj && i != v1 && i !in visited
    ensures ExploreSets(adj, v1, visited + [i], vertices, stack + [i], parent[i := v1])
  {
    var D := Elems(visited);
    var P := adj.Keys - Elems(vertices);
    assert i !in P && i in vertices && i !in stack;
    DistinctAppend(visited, i);
    DistinctAppend(stack, i);
    assert Elems(visited + [i]) == D + {i};
    assert Elems(stack + [i]) == Elems(stack) + {i};
  }

  lemma FreshScan(adj: Adj, v1: char, k: nat, visited: seq<char>, parent: map<char, char>, tree: set<(char, char)>)
    requires IsSimpleGraph(adj) && ExploreScan(adj, v1, k, visited, parent, tree) && parent.Keys <= Elems(visited)
    requires k < |adj[v1]| && adj[v1][k] !in visited
    ensures var i := adj[v1][k];
      ExploreScan(adj, v1, k + 1, visited + [i], parent[i := v1], tree + {(i, v1), (v1, i)})
  {
    var i := adj[v1][k];
    assert adj[v1][..k + 1] == adj[v1][..k] + [i];
    if v1 !in parent {
      forall j | k + 1 <= j < |adj[v1]| ensures adj[v1][j] !in visited + [i] {
        assert Distinct(adj[v1]);
      }
    }
  }

  /** A visited neighbour that is the parent of `v1` is just the link back. */
  lemma ExploreParent(adj: Adj, v1: char, k: nat, visited: seq<char>, vertices: seq<char>, stack: seq<char>,
                      parent: map<char, char>, tree: set<(char, char)>, root: map<char, char>, cur: char, done: set<char>)
    requires ExploreInv(adj, v1, k, visited, vertices, stack, parent, tree, root, cur, done)
    requires k < |adj[v1]| && v1 in parent && parent[v1] == adj[v1][k]
    ensures ExploreInv(adj, v1, k + 1, visited, vertices, stack, parent, tree, root, cur, done)
  {
    assert adj[v1][..k + 1] == adj[v1][..k] + [adj[v1][k]];
  }

  /** Only a vertex with a parent can meet a visited neighbour. */
  lemma VisitedNeighbourHasParent(adj: Adj, v1: char, k: nat, visited: seq<char>, vertices: seq<char>, stack: seq<char>,
                                  parent: map<char, char>, tree: set<(char, char)>, root: map<char, char>, cur: char, done: set<char>)
    requires ExploreInv(adj, v1, k, visited, vertices, stack, parent, tree, root, cur, done)
    requires k < |adj[v1]| && adj[v1][k] in visited
    ensures v1 in parent
  {
  }

  /** A visited neighbour other than the parent closes a cycle: both ends
      hang in the current tree, so a forest path joins them, and the edge
      between them is not a forest edge. */
  lemma ExploreCycle(adj: Adj, v1: char, k: nat, visited: seq<char>, vertices: seq<char>, stack: seq<char>,
                     parent: map<char, char>, tree: set<(char, char)>, root: map<char, char>, cur: char, done: set<char>)
    requires IsSimpleGraph(adj) && ExploreInv(adj, v1, k, visited, vertices, stack, parent, tree, root, cur, done)
    requires k < |adj[v1]| && adj[v1][k] in visited && v1 in parent && parent[v1] != adj[v1][k]
    ensures HasUndirectedCycle(Edges(adj))
  {
    var i := adj[v1][k];
    var E := Edges(adj);
    var D := Elems(visited);
    var P := adj.Keys - Elems(vertices);
    assert i in adj[v1] && i in adj && v1 in adj[i];
    assert (v1, i) in E && (i, v1) in E;
    assert v1 !in P;
    assert v1 !in done;
    assert i !in done;
    assert root[i] == cur && root[v1] == cur;
    ParentTreeSymmetric(parent, tree);
    ReachableSymmetric(tree, i, cur);
    ReachableTrans(tree, v1, cur, i);
    assert Distinct(adj[v1]) && i !in adj[v1][..k];
    assert !(i in parent && parent[i] == v1);
    assert (v1, i) !in tree && (i, v1) !in tree;
    ReachableMonotone(tree, E - {(v1, i), (i, v1)}, v1, i);
  }

  /** After the `for` loop `v1` counts as popped, and every edge out of it
      is a forest edge. */
  lemma LeaveExploreCommon(adj: Adj, v1: char, visited: seq<char>, vertices: seq<char>, stack: seq<char>,
                           parent: map<char, char>, tree: set<(char, char)>, root: map<char, char>, cur: char, done: set<char>)
    requires v1 in adj && ExploreInv(adj, v1, |adj[v1]|, visited, vertices, stack, parent, tree, root, cur, done)
    ensures var vs := RemoveFirst(vertices, v1); var P' := adj.Keys - Elems(vs);
      && Distinct(vs) && Elems(vs) == Elems(vertices) - {v1} && P' == (adj.Keys - Elems(vertices)) + {v1}
      && Elems(stack) <= Elems(vs) && P' <= Elems(visited) && Elems(visited) <= P' + Elems(stack)
      && (forall x :: x in parent ==> parent[x] in P')
      && Forest(adj, parent, tree, root, Elems(visited), P', cur, done)
  {
    var vs := RemoveFirst(vertices, v1);
    RemoveFirstDistinct(vertices, v1);
    assert Elems(vs) == Elems(vertices) - {v1};
    forall i | i in adj[v1] ensures (v1, i) in tree {
      var j :| 0 <= j < |adj[v1]| && adj[v1][j] == i;
    }
  }

  /** The end of a round: the invariant of the `while` loop holds again,
      with a new root pushed when the stack ran empty and keys are left.
      The popped vertices then form a closed set: the finished trees. */
  lemma LeaveExplore(adj: Adj, v1: char, visited: seq<char>, vertices: seq<char>, stack: seq<char>,
                     parent: map<char, char>, tree: set<(char, char)>, root: map<char, char>, cur: char, done: set<char>)
    requires v1 in adj && ExploreInv(adj, v1, |adj[v1]|, visited, vertices, stack, parent, tree, root, cur, done)
    ensures var vs := RemoveFirst(vertices, v1);
      && (stack == [] && vs != [] ==>
           CycleInv(adj, visited, vs, [vs[0]], parent, tree, root, vs[0], adj.Keys - Elems(vs)))
      && (!(stack == [] && vs != []) ==>
           CycleInv(adj, visited, vs, stack, parent, tree, root, cur, done))
  {
    LeaveExploreCommon(adj, v1, visited, vertices, stack, parent, tree, root, cur, done);
    var vs := RemoveFirst(vertices, v1);
    var P' := adj.Keys - Elems(vs);
    var D := Elems(visited);
    if stack == [] && vs != [] {
      assert D <= P';
      forall u, i | (u, i) in Edges(adj) && u in P' ensures i in P' {
        assert (u, i) in tree;
        assert i in D;
      }
      assert vs[0] in Elems(vs) && vs[0] !in P';
      assert Elems([vs[0]]) == {vs[0]};
    }
  }

  /** When the loop ends every key is popped, so every edge is a forest
      edge: the graph is its own spanning forest and has no cycle. */
  lemma CycleFinish(adj: Adj, visited: seq<char>, parent: map<char, char>,
                    tree: set<(char, char)>, root: map<char, char>, cur: char, done: set<char>)
    requires CycleInv(adj, visited, [], [], parent, tree, root, cur, done)
    ensures !HasUndirectedCycle(Edges(adj))
  {
    var none: seq<char> := [];
    assert Elems(none) == {};
    assert Edges(adj) == tree;
  }
}
