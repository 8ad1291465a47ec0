/** Definitions and lemmas about the undirected graph's adjacency map: its
    invariants, its edge relation, the alphabetical neighbour order of both
    searches, connected components, the edge snapshot, and undirected
    cycles (with the spanning-forest facts `has_cycle` relies on). */
module UGraphSpec {
  import opened Lists
  import opened Walks
  import opened Traversal

  /** `adj_list`: each single-character label maps to its neighbour list. */
  type Adj = map<char, seq<char>>

  /** The edge relation the lists stand for: `(u, v)` whenever `v` is in
      the list of key `u`. */
  ghost function Edges(adj: Adj): set<(char, char)>
  {
    set u, v | u in adj && v in adj[u] :: (u, v)
  }

  lemma EdgeIff(adj: Adj, u: char, v: char)
    ensures (u, v) in Edges(adj) <==> u in adj && v in adj[u]
  {
  }

  /** No list names its own key. `add_edge` never creates a loop, so every
      reachable state has this. */
  predicate NoSelfLoops(adj: Adj)
  {
    forall v :: v in adj ==> v !in adj[v]
  }

  /** Every neighbour is itself a key. */
  ghost predicate NeighboursAreKeys(adj: Adj)
  {
    forall u, v :: u in adj && v in adj[u] ==> v in adj
  }

  /** No list names a neighbour twice. */
  ghost predicate NoDuplicates(adj: Adj)
  {
    forall u :: u in adj ==> Distinct(adj[u])
  }

  /** `v` is in the list of `u` exactly when `u` is in the list of `v`. */
  ghost predicate SymmetricLists(adj: Adj)
  {
    forall u, v :: u in adj && v in adj[u] ==> v in adj && u in adj[v]
  }

  /** The adjacency invariant of a simple undirected graph. */
  ghost predicate IsSimpleGraph(adj: Adj)
  {
    NoSelfLoops(adj) && NeighboursAreKeys(adj) && NoDuplicates(adj) && SymmetricLists(adj)
  }

  lemma SimpleSymmetric(adj: Adj)
    requires IsSimpleGraph(adj)
    ensures Symmetric(Edges(adj))
  {
  }

  // ---------------------------------------------------------------------
  // The mutators, as functions of the map

  /** `add_vertex(x)` unless `x` is already a key. */
  function WithKey(adj: Adj, x: char): (a: Adj)
    ensures a.Keys == adj.Keys + {x}
  {
    if x in adj then adj else adj[x := []]
  }

  /** `add_edge(u, v)` for `u != v`: both endpoints become keys, and unless
      `u` is already in the list of `v`, each is appended to the other's list. */
  function Linked(adj: Adj, u: char, v: char): (a: Adj)
    ensures a.Keys == adj.Keys + {u, v}
  {
    var b := WithKey(WithKey(adj, u), v);
    if u in b[v] then b else b[v := b[v] + [u]][u := b[u] + [v]]
  }

  /** `remove_edge(v, u)` when `v` is in the list of `u`: one occurrence of
      each endpoint leaves the other's list. */
  function Unlinked(adj: Adj, v: char, u: char): (a: Adj)
    requires u in adj && v in adj && v in adj[u] && u in adj[v]
    ensures a.Keys == adj.Keys
  {
    adj[v := RemoveFirst(adj[v], u)][u := RemoveFirst(adj[u], v)]
  }

  /** The map after `remove_vertex(v)` in a simple graph: the key is gone,
      and so is `v` from every other list. */
  function Detached(adj: Adj, v: char): (a: Adj)
    ensures a.Keys == adj.Keys - {v}
  {
    map k | k in adj && k != v :: if v in adj[k] then RemoveFirst(adj[k], v) else adj[k]
  }

  /** The edges with `v` as an endpoint. */
  ghost function Touching(E: set<(char, char)>, v: char): set<(char, char)>
  {
    set e | e in E && (e.0 == v || e.1 == v)
  }

  lemma WithKeySimple(adj: Adj, x: char)
    requires IsSimpleGraph(adj)
    ensures IsSimpleGraph(WithKey(adj, x)) && Edges(WithKey(adj, x)) == Edges(adj)
  {
    var a := WithKey(adj, x);
    forall e | e in Edges(a) ensures e in Edges(adj) {
      assert e.0 in a && e.1 in a[e.0];
    }
  }

  /** Adding an edge to a simple graph keeps it simple and adds exactly
      that edge, in both orientations. */
  lemma LinkedSimple(adj: Adj, u: char, v: char)
    requires IsSimpleGraph(adj) && u != v
    ensures IsSimpleGraph(Linked(adj, u, v))
    ensures Edges(Linked(adj, u, v)) == Edges(adj) + {(u, v), (v, u)}
  {
    var b := WithKey(WithKey(adj, u), v);
    WithKeySimple(adj, u);
    WithKeySimple(WithKey(adj, u), v);
    if u !in b[v] {
      AppendBothSimple(b, u, v);
    } else {
      assert (u, v) in Edges(b) && (v, u) in Edges(b);
    }
  }

  lemma AppendBothSimple(b: Adj, u: char, v: char)
    requires IsSimpleGraph(b) && u != v && u in b && v in b && u !in b[v]
    ensures var a := b[v := b[v] + [u]][u := b[u] + [v]];
      IsSimpleGraph(a) && Edges(a) == Edges(b) + {(u, v), (v, u)}
  {
    assert v !in b[u];
    var a := b[v := b[v] + [u]][u := b[u] + [v]];
    assert forall k :: k in a && k != u && k != v ==> a[k] == b[k];
    assert forall k, x :: k in a && x in a[k] <==> k in b && (x in b[k] || (k == u && x == v) || (k == v && x == u));
    assert NoSelfLoops(a);
    assert NeighboursAreKeys(a);
    assert SymmetricLists(a);
    DistinctAppend(b[v], u);
    DistinctAppend(b[u], v);
    assert NoDuplicates(a);
    AppendBothEdges(b, u, v);
  }

  lemma AppendBothEdges(b: Adj, u: char, v: char)
    requires u != v && u in b && v in b
    ensures var a := b[v := b[v] + [u]][u := b[u] + [v]];
      Edges(a) == Edges(b) + {(u, v), (v, u)}
  {
    var a := b[v := b[v] + [u]][u := b[u] + [v]];
    forall e | e in Edges(a) ensures e in Edges(b) + {(u, v), (v, u)} {
      assert e.0 in a && e.1 in a[e.0];
    }
    forall e | e in Edges(b) + {(u, v), (v, u)} ensures e in Edges(a) {
      assert e.1 in a[e.0];
    }
  }

  /** Appending each endpoint to the other's list creates no loop. */
  lemma AppendBothNoSelfLoops(b: Adj, u: char, v: char)
    requires NoSelfLoops(b) && u != v && u in b && v in b
    ensures NoSelfLoops(b[v := b[v] + [u]][u := b[u] + [v]])
  {
  }

  /** Removing one occurrence from each of two lists creates no loop. */
  lemma UnlinkedNoSelfLoops(adj: Adj, v: char, u: char)
    requires NoSelfLoops(adj) && u in adj && v in adj && v in adj[u] && u in adj[v]
    ensures NoSelfLoops(Unlinked(adj, v, u))
  {
    var a := Unlinked(adj, v, u);
    forall k | k in a ensures k !in a[k] {
      if k == u {
        RemoveFirstIn(adj[u], v, u);
      } else if k == v {
        RemoveFirstIn(adj[v], u, v);
      }
    }
  }

  /** Removing an edge of a simple graph keeps it simple and removes exactly
      that edge, in both orientations. */
  lemma UnlinkedSimple(adj: Adj, v: char, u: char)
    requires IsSimpleGraph(adj) && u in adj && v in adj[u]
    ensures v in adj && u in adj[v]
    ensures IsSimpleGraph(Unlinked(adj, v, u))
    ensures Edges(Unlinked(adj, v, u)) == Edges(adj) - {(u, v), (v, u)}
  {
    var a := Unlinked(adj, v, u);
    forall k, x | k in a
      ensures Distinct(a[k]) && (x in a[k] <==> x in adj[k] && (k, x) != (u, v) && (k, x) != (v, u))
    {
      UnlinkedMembers(adj, v, u, k, x);
    }
    forall e | e in Edges(a) ensures e in Edges(adj) - {(u, v), (v, u)} {
      assert e.0 in a && e.1 in a[e.0];
    }
    forall e | e in Edges(adj) - {(u, v), (v, u)} ensures e in Edges(a) {
      assert e.0 in adj && e.1 in adj[e.0];
      assert e.1 in a[e.0];
    }
  }

  /** What each list holds once `u` and `v` are unlinked. */
  lemma UnlinkedMembers(adj: Adj, v: char, u: char, k: char, x: char)
    requires IsSimpleGraph(adj) && u in adj && v in adj[u] && k in adj
    ensures v in adj && u in adj[v]
    ensures Distinct(Unlinked(adj, v, u)[k])
    ensures x in Unlinked(adj, v, u)[k] <==> x in adj[k] && (k, x) != (u, v) && (k, x) != (v, u)
  {
    assert u != v;
    if k == u {
      RemoveFirstDistinct(adj[u], v);
    } else if k == v {
      RemoveFirstDistinct(adj[v], u);
    }
  }

  /** Removing a vertex from a simple graph keeps it simple and removes
      exactly the edges at that vertex. */
  lemma DetachedSimple(adj: Adj, v: char)
    requires IsSimpleGraph(adj)
    ensures IsSimpleGraph(Detached(adj, v))
    ensures Edges(Detached(adj, v)) == Edges(adj) - Touching(Edges(adj), v)
  {
    var a := Detached(adj, v);
    forall k | k in a ensures Distinct(a[k]) && (forall x :: x in a[k] <==> x in adj[k] && x != v) {
      if v in adj[k] { RemoveFirstDistinct(adj[k], v); }
    }
    forall e | e in Edges(a) ensures e in Edges(adj) - Touching(Edges(adj), v) {
      assert e.0 in a && e.1 in a[e.0];
    }
    forall e | e in Edges(adj) - Touching(Edges(adj), v) ensures e in Edges(a) {
      assert e.0 in adj && e.1 in adj[e.0];
      assert e.1 in a[e.0];
    }
  }

  /** The bookkeeping of the second loop of `remove_vertex(v)` after `k`
      rounds: the entries of the copied list still to come are in the list
      of `v`, and the other lists have lost occurrences of `v` only. */
  ghost predicate UnlinkLoopInv(adj0: Adj, adj: Adj, v: char, vertices: seq<char>, k: nat)
  {
    && v in adj && adj.Keys == adj0.Keys && k <= |vertices|
    && multiset(vertices[k..]) <= multiset(adj[v])
    && forall key, x :: key in adj && key != v && x != v ==> multiset(adj[key])[x] == multiset(adj0[key])[x]
  }

  /** One round of that loop: `remove_edge(v, j)` for the next entry `j`
      unlinks the two when `j` names `v`, and does nothing otherwise; either
      way the bookkeeping carries over to the next entry. */
  lemma UnlinkRound(adj0: Adj, adj: Adj, adj': Adj, v: char, vertices: seq<char>, k: nat)
    requires UnlinkLoopInv(adj0, adj, v, vertices, k) && k < |vertices| && v !in adj[v]
    requires vertices[k] in adj[v]
    requires var j := vertices[k];
      adj' == if j in adj && v in adj[j] then Unlinked(adj, v, j) else adj
    ensures UnlinkLoopInv(adj0, adj', v, vertices, k + 1)
  {
    var j := vertices[k];
    NextInList(adj0, adj, v, vertices, k);
    if j in adj && v in adj[j] {
      UnlinkCounts(adj0, adj, v, j, vertices[k + 1..]);
    } else {
      assert multiset(vertices[k..]) == multiset{j} + multiset(vertices[k + 1..]);
    }
  }

  /** The next entry of the copied list is a neighbour of `v`. */
  lemma NextInList(adj0: Adj, adj: Adj, v: char, vertices: seq<char>, k: nat)
    requires UnlinkLoopInv(adj0, adj, v, vertices, k) && k < |vertices| && v !in adj[v]
    ensures vertices[k] != v && vertices[k] in adj[v]
    ensures vertices[k..] == [vertices[k]] + vertices[k + 1..]
  {
    assert vertices[k..] == [vertices[k]] + vertices[k + 1..];
    assert vertices[k] in multiset(adj[v]);
  }

  /** Unlinking `v` from `j` takes one `j` from the list of `v` and changes
      no other list except by occurrences of `v`; so the counts the loop of
      `remove_vertex` keeps carry over. */
  lemma UnlinkCounts(adj0: Adj, adj: Adj, v: char, j: char, rest: seq<char>)
    requires j != v && j in adj && v in adj && v in adj[j] && j in adj[v] && adj.Keys == adj0.Keys
    requires multiset([j] + rest) <= multiset(adj[v])
    requires forall key, x :: key in adj && key != v && x != v ==> multiset(adj[key])[x] == multiset(adj0[key])[x]
    ensures multiset(rest) <= multiset(Unlinked(adj, v, j)[v])
    ensures forall key, x :: key in adj && key != v && x != v ==>
      multiset(Unlinked(adj, v, j)[key])[x] == multiset(adj0[key])[x]
  {
    var a := Unlinked(adj, v, j);
    assert multiset([j] + rest) == multiset{j} + multiset(rest);
    assert multiset(a[v]) == multiset(adj[v]) - multiset{j};
    UnlinkOthers(adj0, adj, v, j);
  }

  lemma UnlinkOthers(adj0: Adj, adj: Adj, v: char, j: char)
    requires j != v && j in adj && v in adj && v in adj[j] && j in adj[v] && adj.Keys == adj0.Keys
    requires forall key, x :: key in adj && key != v && x != v ==> multiset(adj[key])[x] == multiset(adj0[key])[x]
    ensures forall key, x :: key in adj && key != v && x != v ==>
      multiset(Unlinked(adj, v, j)[key])[x] == multiset(adj0[key])[x]
  {
    forall key, x | key in adj && key != v && x != v
      ensures multiset(Unlinked(adj, v, j)[key])[x] == multiset(adj0[key])[x]
    {
      UnlinkedKeepsOthers(adj, v, j, key, x);
    }
  }

  /** Unlinking `v` from `j` changes no list other than that of `v`, except
      by one occurrence of `v`. */
  lemma UnlinkedKeepsOthers(adj: Adj, v: char, j: char, key: char, x: char)
    requires j != v && j in adj && v in adj && v in adj[j] && j in adj[v]
    requires key in adj && key != v && x != v
    ensures multiset(Unlinked(adj, v, j)[key])[x] == multiset(adj[key])[x]
  {
    var a := Unlinked(adj, v, j);
    if key == j {
      assert a[key] == RemoveFirst(adj[j], v);
      RemoveFirstCount(adj[j], v, x);
    } else {
      assert a[key] == adj[key];
    }
  }

  /** The state of `remove_vertex(v)` in a simple graph after unlinking `v`
      from its first `k` neighbours: those are gone from the list of `v`,
      and each of them has lost `v`, while every other list is untouched. */
  ghost predicate DetachedUpTo(adj0: Adj, v: char, k: nat, adj: Adj)
    requires IsSimpleGraph(adj0) && v in adj0 && k <= |adj0[v]|
  {
    && v in adj && adj.Keys == adj0.Keys && adj[v] == adj0[v][k..]
    && forall key :: key in adj && key != v ==>
      adj[key] == if key in adj0[v][..k] then RemoveFirst(adj0[key], v) else adj0[key]
  }

  /** One round of `remove_vertex(v)` in a simple graph: the next neighbour
      `j` still names `v`, and unlinking it moves `j` to the done part. */
  lemma DetachStep(adj0: Adj, v: char, k: nat, adj: Adj)
    requires IsSimpleGraph(adj0) && v in adj0 && k < |adj0[v]|
    requires DetachedUpTo(adj0, v, k, adj)
    ensures var j := adj0[v][k];
      && j in adj && v in adj[j] && j in adj[v]
      && DetachedUpTo(adj0, v, k + 1, Unlinked(adj, v, j))
  {
    var vs := adj0[v];
    var j := vs[k];
    assert Distinct(vs) && vs[k..k + 1] == [j];
    assert j !in vs[..k];
    assert j in vs && j in adj0 && v in adj0[j] && j != v;
    assert vs[..k + 1] == vs[..k] + [j];
    assert adj[v] == [j] + vs[k + 1..];
    assert adj[j] == adj0[j];
    var a := Unlinked(adj, v, j);
    forall key | key in a && key != v
      ensures a[key] == if key in vs[..k + 1] then RemoveFirst(adj0[key], v) else adj0[key]
    {
      if key != j {
        assert a[key] == adj[key];
        assert key in vs[..k + 1] <==> key in vs[..k];
      }
    }
  }

  /** After `remove_vertex(v)` has unlinked `v` from each of its neighbours,
      deleting the key leaves the map `Detached` describes. */
  lemma DetachEnd(adj0: Adj, v: char, adj: Adj)
    requires IsSimpleGraph(adj0) && v in adj0
    requires DetachedUpTo(adj0, v, |adj0[v]|, adj)
    ensures adj - {v} == Detached(adj0, v)
  {
    assert adj0[v][..|adj0[v]|] == adj0[v];
    var a := adj - {v};
    var b := Detached(adj0, v);
    assert a.Keys == b.Keys;
    forall key | key in a ensures a[key] == b[key] {
      ListsAgree(adj0, v, key);
    }
  }

  /** In a simple graph, `u` names `v` exactly when `v` names `u`. */
  lemma ListsAgree(adj: Adj, v: char, u: char)
    requires IsSimpleGraph(adj) && v in adj && u in adj
    ensures u in adj[v] <==> v in adj[u]
  {
  }

  /** `add_vertex` on a key that has neighbours empties its list while the
      neighbours still name it, so the lists are no longer symmetric. */
  lemma ResetBreaksSymmetry(adj: Adj, v: char)
    requires IsSimpleGraph(adj) && v in adj && adj[v] != []
    ensures !IsSimpleGraph(adj[v := []])
  {
    var w := adj[v][0];
    assert w in adj[v] && w != v;
    assert v in adj[w];
    var a := adj[v := []];
    assert v in a[w] && w !in a[v];
  }

  // ---------------------------------------------------------------------
  // Building from an edge list

  /** The edges an edge list describes: both orientations of every pair
      with distinct endpoints. */
  ghost function PairEdges(es: seq<(char, char)>): set<(char, char)>
  {
    (set k | 0 <= k < |es| && es[k].0 != es[k].1 :: es[k])
      + (set k | 0 <= k < |es| && es[k].0 != es[k].1 :: (es[k].1, es[k].0))
  }

  /** The labels an edge list creates: the endpoints of its non-loop pairs. */
  ghost function PairEndpoints(es: seq<(char, char)>): set<char>
  {
    (set k | 0 <= k < |es| && es[k].0 != es[k].1 :: es[k].0)
      + (set k | 0 <= k < |es| && es[k].0 != es[k].1 :: es[k].1)
  }

  /** One more pair adds its edges and endpoints, unless it is a loop. */
  lemma PairsExtend(es: seq<(char, char)>, k: nat)
    requires k < |es|
    ensures var (u, v) := es[k];
      && PairEdges(es[..k + 1]) == PairEdges(es[..k]) + (if u != v then {(u, v), (v, u)} else {})
      && PairEndpoints(es[..k + 1]) == PairEndpoints(es[..k]) + (if u != v then {u, v} else {})
  {
    var p := es[..k + 1];
    assert forall j :: 0 <= j < k ==> p[j] == es[..k][j];
  }

  /** The adjacency map the constructor builds: `add_edge` on each pair in
      list order, where a loop changes nothing. */
  function BuildAdj(es: seq<(char, char)>): Adj
  {
    if es == [] then map[]
    else
      var a := BuildAdj(es[..|es| - 1]);
      var (u, v) := es[|es| - 1];
      if u == v then a else Linked(a, u, v)
  }

  /** The key order the constructor builds: each endpoint of a pair that is
      not a loop joins at the end the first time it appears, `u` before
      `v`. */
  function BuildOrder(es: seq<(char, char)>): seq<char>
  {
    if es == [] then []
    else
      var p := es[..|es| - 1];
      var a := BuildAdj(p);
      var (u, v) := es[|es| - 1];
      if u == v then BuildOrder(p)
      else BuildOrder(p) + (if u in a then [] else [u]) + (if v in a then [] else [v])
  }

  /** The built map is a simple graph whose labels are the endpoints and
      whose edges are the pairs, in both orientations. */
  lemma {:induction false} BuildAdjSimple(es: seq<(char, char)>)
    ensures IsSimpleGraph(BuildAdj(es))
    ensures BuildAdj(es).Keys == PairEndpoints(es) && Edges(BuildAdj(es)) == PairEdges(es)
  {
    if es != [] {
      var k := |es| - 1;
      var (u, v) := es[k];
      assert es[..k + 1] == es;
      BuildAdjSimple(es[..k]);
      PairsExtend(es, k);
      if u != v {
        LinkedSimple(BuildAdj(es[..k]), u, v);
      }
    } else {
      assert PairEndpoints(es) == {} && PairEdges(es) == {};
    }
  }

  /** The built order lists every built label once. */
  lemma {:induction false} BuildOrderKeys(es: seq<(char, char)>)
    ensures Distinct(BuildOrder(es)) && Elems(BuildOrder(es)) == BuildAdj(es).Keys
  {
    if es != [] {
      var p := es[..|es| - 1];
      var (u, v) := es[|es| - 1];
      BuildOrderKeys(p);
      if u != v {
        OrderStep(BuildOrder(p), BuildAdj(p), u, v);
      }
    }
  }

  /** One pair that is not a loop: appending its new endpoints keeps the
      order listing every label once. */
  lemma OrderStep(o: seq<char>, a: Adj, u: char, v: char)
    requires Distinct(o) && Elems(o) == a.Keys && u != v
    ensures var o' := o + (if u in a then [] else [u]) + (if v in a then [] else [v]);
      Distinct(o') && Elems(o') == Linked(a, u, v).Keys
  {
    AppendIfNew(o, a.Keys, u);
    var o1 := o + (if u in a then [] else [u]);
    AppendIfNew(o1, a.Keys + {u}, v);
    assert (v in a.Keys + {u}) == (v in a);
  }

  // ---------------------------------------------------------------------
  // The edge snapshot

  /** Where `x` sits in a list that holds it. */
  function IndexOf(s: seq<char>, x: char): (i: nat)
    requires x in s
    ensures i < |s| && s[i] == x && x !in s[..i]
  {
    if s[0] == x then 0
    else
      var i := 1 + IndexOf(s[1..], x);
      assert s[..i] == [s[0]] + s[1..][..i - 1];
      i
  }

  lemma IndexOfDistinct(s: seq<char>, i: nat)
    requires Distinct(s) && i < |s|
    ensures IndexOf(s, s[i]) == i
  {
  }

  /** In a duplicate-free list, `x` lies in the suffix from `k` exactly
      when its position is at least `k`. */
  lemma InSuffix(s: seq<char>, x: char, k: nat)
    requires Distinct(s) && x in s && k <= |s|
    ensures x in s[k..] <==> IndexOf(s, x) >= k
  {
    var i := IndexOf(s, x);
    if x in s[k..] {
      var t :| 0 <= t < |s[k..]| && s[k..][t] == x;
      assert s[k + t] == x;
    }
    if i >= k {
      assert s[k..][i - k] == x;
    }
  }

  /** `get_edges` reports `(a, b)`: `b` is in the list of key `a` and is a
      key inserted no earlier than `a`. */
  ghost predicate Listed(order: seq<char>, adj: Adj, a: char, b: char)
  {
    a in adj && a in order && b in adj[a] && b in order[IndexOf(order, a)..]
  }

  /** One key's pass of `get_edges`: the pairs it adds are exactly the
      `Listed` pairs from that key, and none was added before. */
  lemma SnapshotStep(order: seq<char>, adj: Adj, i: nat, edges: seq<(char, char)>, pairs: seq<(char, char)>)
    requires Distinct(order) && i < |order| && Elems(order) == adj.Keys
    requires forall a, b :: (a, b) in edges <==> a in order[..i] && Listed(order, adj, a, b)
    requires forall a, b :: (a, b) in pairs <==> a == order[i] && b in adj[order[i]] && b in order[i..]
    ensures forall a, b :: (a, b) in edges + pairs <==> a in order[..i + 1] && Listed(order, adj, a, b)
    ensures forall x :: x in edges ==> x !in pairs
  {
    var key := order[i];
    IndexOfDistinct(order, i);
    assert order[..i + 1] == order[..i] + [key];
    assert key !in order[..i];
    forall x | x in edges ensures x !in pairs {
      assert x.0 in order[..i];
    }
  }

  /** In a simple graph every edge is reported in exactly one orientation:
      from the endpoint inserted first. */
  lemma ListedOnce(order: seq<char>, adj: Adj, a: char, b: char)
    requires IsSimpleGraph(adj) && Distinct(order) && Elems(order) == adj.Keys
    ensures (a, b) in Edges(adj) <==> Listed(order, adj, a, b) || Listed(order, adj, b, a)
    ensures !(Listed(order, adj, a, b) && Listed(order, adj, b, a))
  {
    if (a, b) in Edges(adj) {
      assert a in Elems(order) && b in Elems(order);
      InSuffix(order, b, IndexOf(order, a));
      InSuffix(order, a, IndexOf(order, b));
    }
  }

  // ---------------------------------------------------------------------
  // Neighbour order of the searches

  /** `sorted(adj_list[v])`, and nothing for a label that is not a key. */
  function SortedNbrs(adj: Adj, v: char): seq<char>
  {
    if v in adj then SortChars(adj[v]) else []
  }

  function SortedNbrsOf(adj: Adj): char -> seq<char>
  {
    v => SortedNbrs(adj, v)
  }

  /** `N` maps every label to its sorted neighbour list (an abstract copy of
      `SortedNbrsOf(adj)` the searches are proved against). */
  ghost predicate ListsSorted(N: char -> seq<char>, adj: Adj)
  {
    forall v {:trigger SortedNbrs(adj, v)} :: N(v) == SortedNbrs(adj, v)
  }

  lemma SortedFunction(adj: Adj) returns (N: char -> seq<char>)
    ensures ListsSorted(N, adj)
  {
    N := SortedNbrsOf(adj);
    forall v ensures N(v) == SortedNbrs(adj, v) {
    }
  }

  lemma ListsSortedAgrees(N: char -> seq<char>, adj: Adj)
    requires ListsSorted(N, adj)
    ensures forall x :: N(x) == SortedNbrsOf(adj)(x)
  {
    forall x ensures N(x) == SortedNbrsOf(adj)(x) {
      assert SortedNbrsOf(adj)(x) == SortedNbrs(adj, x);
    }
  }

  /** Sorting a list keeps its members. */
  lemma SortedMembers(s: seq<char>)
    ensures forall x :: x in SortChars(s) <==> x in s
  {
    SortCharsSpec(s);
    forall x ensures x in SortChars(s) <==> x in s {
      assert x in SortChars(s) <==> x in multiset(SortChars(s));
    }
  }

  /** The sorted lists list exactly the edges. */
  lemma SortedListsEdges(N: char -> seq<char>, adj: Adj)
    requires ListsSorted(N, adj)
    ensures ListsEdges(N, Edges(adj)) && ListsAllEdges(N, Edges(adj))
  {
    forall u, v | v in N(u) ensures (u, v) in Edges(adj) {
      assert N(u) == SortedNbrs(adj, u);
      if u in adj { SortedMembers(adj[u]); }
    }
    forall u, v | (u, v) in Edges(adj) ensures v in N(u) {
      assert N(u) == SortedNbrs(adj, u);
      SortedMembers(adj[u]);
    }
  }

  /** Every vertex the search from `s` can reach is a key, so looking up
      its list cannot fail. */
  ghost predicate ReachKeys(adj: Adj, s: char)
  {
    forall t :: Reachable(Edges(adj), s, t) ==> t in adj
  }

  lemma ClosedReachKeys(adj: Adj, s: char)
    requires NeighboursAreKeys(adj) && s in adj
    ensures ReachKeys(adj, s)
  {
    forall t | Reachable(Edges(adj), s, t) ensures t in adj {
      ClosedContainsReachable(Edges(adj), adj.Keys, s, t);
    }
  }

  /** Every entry of `q` is reachable from `s`. */
  ghost predicate AllReach(E: set<(char, char)>, s: char, q: seq<char>)
  {
    forall k :: 0 <= k < |q| ==> Reachable(E, s, q[k])
  }

  lemma AllReachAppend(E: set<(char, char)>, s: char, a: seq<char>, b: seq<char>)
    requires AllReach(E, s, a) && AllReach(E, s, b)
    ensures AllReach(E, s, a + b)
  {
    forall k | 0 <= k < |a + b| ensures Reachable(E, s, (a + b)[k]) {
      if k >= |a| { assert (a + b)[k] == b[k - |a|]; }
    }
  }

  lemma AllReachPrefix(E: set<(char, char)>, s: char, q: seq<char>, n: nat)
    requires AllReach(E, s, q) && n <= |q|
    ensures AllReach(E, s, q[..n])
  {
    assert forall k :: 0 <= k < n ==> q[..n][k] == q[k];
  }

  lemma AllReachSuffix(E: set<(char, char)>, s: char, q: seq<char>)
    requires AllReach(E, s, q) && q != []
    ensures AllReach(E, s, q[1..])
  {
    assert forall k :: 0 <= k < |q| - 1 ==> q[1..][k] == q[k + 1];
  }

  /** The sorted neighbours of a reachable key are reachable, in either
      order and after dropping any of them. */
  lemma NbrsReach(adj: Adj, s: char, v: char, r: seq<char>)
    requires Reachable(Edges(adj), s, v) && v in adj
    ensures AllReach(Edges(adj), s, SortChars(adj[v]))
    ensures AllReach(Edges(adj), s, Reverse(SortChars(adj[v])))
    ensures AllReach(Edges(adj), s, Fresh(SortChars(adj[v]), r))
  {
    var L := SortChars(adj[v]);
    SortedMembers(adj[v]);
    forall x | x in L ensures Reachable(Edges(adj), s, x) {
      ReachableStep(Edges(adj), s, v, x);
    }
    assert forall k :: 0 <= k < |L| ==> L[k] in L;
    ReverseElems(L);
    var R := Reverse(L);
    assert forall k :: 0 <= k < |R| ==> R[k] in R;
    var F := Fresh(L, r);
    FreshMembers(L, r);
    assert forall k :: 0 <= k < |F| ==> F[k] in F;
  }

  // ---------------------------------------------------------------------
  // Connected components

  /** The keys reachable from `s`. */
  ghost function Component(adj: Adj, s: char): set<char>
  {
    set t | t in adj && Reachable(Edges(adj), s, t)
  }

  /** The connected components: one set per class of mutually reachable keys. */
  ghost function Components(adj: Adj): set<set<char>>
  {
    set s | s in adj :: Component(adj, s)
  }

  /** In a simple graph two keys share a component exactly when one
      reaches the other. */
  lemma SameComponent(adj: Adj, a: char, b: char)
    requires IsSimpleGraph(adj) && a in adj && b in adj
    ensures Component(adj, a) == Component(adj, b) <==> Reachable(Edges(adj), a, b)
  {
    var E := Edges(adj);
    SimpleSymmetric(adj);
    if Reachable(E, a, b) {
      ReachableSymmetric(E, a, b);
      forall t | t in Component(adj, a) ensures t in Component(adj, b) {
        ReachableTrans(E, b, a, t);
      }
      forall t | t in Component(adj, b) ensures t in Component(adj, a) {
        ReachableTrans(E, a, b, t);
      }
    }
    if Component(adj, a) == Component(adj, b) {
      ReachableSelf(E, b);
      assert b in Component(adj, b);
    }
  }

  /** A set of keys no edge leaves holds the whole component of each of its
      members. */
  lemma ClosedHoldsComponent(adj: Adj, S: set<char>, s: char)
    requires Closed(Edges(adj), S) && s in S
    ensures Component(adj, s) <= S
  {
    forall t | t in Component(adj, s) ensures t in S {
      ClosedContainsReachable(Edges(adj), S, s, t);
    }
  }

  /** A key with an empty list is a component on its own. */
  lemma IsolatedComponent(adj: Adj, v: char)
    requires v in adj && adj[v] == []
    ensures Component(adj, v) == {v}
  {
    ReachableSelf(Edges(adj), v);
    forall t | t in Component(adj, v) ensures t == v {
      var p :| IsWalkFromTo(Edges(adj), p, v, t);
      WalkFromIsolated(adj, p);
    }
  }

  lemma WalkFromIsolated(adj: Adj, p: seq<char>)
    requires IsWalk(Edges(adj), p) && p[0] in adj && adj[p[0]] == []
    ensures |p| == 1
  {
    if |p| > 1 {
      WalkEndEdges(Edges(adj), p);
    }
  }

  /** A graph without keys has no components. */
  lemma NoKeysNoComponents(adj: Adj)
    requires adj == map[]
    ensures Components(adj) == {}
  {
  }

  /** The components of the keys in `S`. */
  ghost function ComponentsOf(adj: Adj, S: set<char>): set<set<char>>
  {
    set s | s in S && s in adj :: Component(adj, s)
  }

  /** A component starting outside a closed set of keys does not meet it
      (the graph being symmetric, it would otherwise lead back into it). */
  lemma ComponentAvoidsClosed(adj: Adj, R: set<char>, s: char)
    requires IsSimpleGraph(adj) && Closed(Edges(adj), R) && s in adj && s !in R
    ensures Component(adj, s) !! R
  {
    SimpleSymmetric(adj);
    forall t | t in Component(adj, s) && t in R ensures false {
      ReachableSymmetric(Edges(adj), s, t);
      ClosedContainsReachable(Edges(adj), R, t, s);
    }
  }

  /** A closed set of keys grows by a whole component into a closed set. */
  lemma ClosedAddComponent(adj: Adj, R: set<char>, s: char)
    requires IsSimpleGraph(adj) && Closed(Edges(adj), R) && s in adj
    ensures Closed(Edges(adj), R + Component(adj, s))
  {
    var C := Component(adj, s);
    forall u, v | (u, v) in Edges(adj) && u in R + C ensures v in R + C {
      if u in C {
        ReachableStep(Edges(adj), s, u, v);
      }
    }
  }

  /** Adding the component of a key outside a closed set adds exactly one
      new component to those of the set. */
  lemma ComponentsOfAdd(adj: Adj, R: set<char>, s: char)
    requires IsSimpleGraph(adj) && R <= adj.Keys && Closed(Edges(adj), R) && s in adj && s !in R
    ensures ComponentsOf(adj, R + Component(adj, s)) == ComponentsOf(adj, R) + {Component(adj, s)}
    ensures Component(adj, s) !in ComponentsOf(adj, R)
  {
    var C := Component(adj, s);
    ReachableSelf(Edges(adj), s);
    assert s in C;
    forall t | t in C ensures Component(adj, t) == C {
      SameComponent(adj, s, t);
    }
    assert C in ComponentsOf(adj, R + C);
    ComponentAvoidsClosed(adj, R, s);
    forall t | t in R ensures Component(adj, t) != C {
      ReachableSelf(Edges(adj), t);
      assert t in Component(adj, t);
    }
  }

  /** A complete search from `s` visits exactly the component of `s`, each
      key once. */
  lemma SearchIsComponent(adj: Adj, s: char, visited: seq<char>)
    requires ReachKeys(adj, s) && IsTraversal(Edges(adj), s, visited) && CoversReachable(Edges(adj), s, visited)
    ensures Elems(visited) == Component(adj, s) && Distinct(visited)
  {
    forall t | t in visited ensures t in Component(adj, s) {
      var k :| 0 <= k < |visited| && visited[k] == t;
    }
  }

  /** One round of `count_connected_components`: the keys covered so far
      form a closed set; the next key's component lies outside it, and
      covering it too counts exactly one more component. */
  lemma CoverComponent(adj: Adj, R: set<char>, s: char)
    requires IsSimpleGraph(adj) && R <= adj.Keys && Closed(Edges(adj), R) && s in adj && s !in R
    ensures Component(adj, s) <= adj.Keys - R
    ensures R + Component(adj, s) <= adj.Keys && Closed(Edges(adj), R + Component(adj, s))
    ensures |ComponentsOf(adj, R + Component(adj, s))| == |ComponentsOf(adj, R)| + 1
  {
    ComponentAvoidsClosed(adj, R, s);
    ComponentsOfAdd(adj, R, s);
    ClosedAddComponent(adj, R, s);
  }
}
