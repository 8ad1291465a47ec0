/** Walks and reachability over a finite edge relation, shared by the directed
    matrix graph and the undirected adjacency-list graph: both expose "the
    neighbours of a vertex", and both traversals are judged against the
    same notion of reachability. */
module Walks {
  import opened Lists

  /** A non-empty vertex sequence whose consecutive pairs are edges. */
  ghost predicate IsWalk<T(!new)>(E: set<(T, T)>, p: seq<T>)
  {
    |p| >= 1 && forall i :: 0 <= i < |p| - 1 ==> (p[i], p[i + 1]) in E
  }

  ghost predicate IsWalkFromTo<T(!new)>(E: set<(T, T)>, p: seq<T>, s: T, t: T)
  {
    IsWalk(E, p) && p[0] == s && p[|p| - 1] == t
  }

  /** `t` can be reached from `s` along zero or more edges. */
  ghost predicate Reachable<T(!new)>(E: set<(T, T)>, s: T, t: T)
  {
    exists p :: IsWalkFromTo(E, p, s, t)
  }

  /** No edge leaves `S`. */
  ghost predicate Closed<T(!new)>(E: set<(T, T)>, S: set<T>)
  {
    forall u, v :: (u, v) in E && u in S ==> v in S
  }

  ghost predicate Symmetric<T(!new)>(E: set<(T, T)>)
  {
    forall u, v :: (u, v) in E ==> (v, u) in E
  }

  lemma ReachableSelf<T(!new)>(E: set<(T, T)>, s: T)
    ensures Reachable(E, s, s)
  {
    assert IsWalkFromTo(E, [s], s, s);
  }

  /** A walk of two or more vertices starts and ends with an edge. */
  lemma WalkEndEdges<T(!new)>(E: set<(T, T)>, p: seq<T>)
    requires IsWalk(E, p) && |p| > 1
    ensures (p[0], p[1]) in E && (p[|p| - 2], p[|p| - 1]) in E
  {
  }

  lemma WalkAppend<T(!new)>(E: set<(T, T)>, p: seq<T>, v: T)
    requires IsWalk(E, p) && (p[|p| - 1], v) in E
    ensures IsWalk(E, p + [v])
  {
    var q := p + [v];
    forall i | 0 <= i < |q| - 1 ensures (q[i], q[i + 1]) in E {
      if i < |p| - 1 { assert q[i] == p[i] && q[i + 1] == p[i + 1]; }
    }
  }

  lemma WalkPrefix<T(!new)>(E: set<(T, T)>, p: seq<T>, k: nat)
    requires IsWalk(E, p) && 1 <= k <= |p|
    ensures IsWalk(E, p[..k])
  {
    var q := p[..k];
    forall i | 0 <= i < |q| - 1 ensures (q[i], q[i + 1]) in E {
      assert q[i] == p[i] && q[i + 1] == p[i + 1];
    }
  }

  lemma ReachableStep<T(!new)>(E: set<(T, T)>, s: T, u: T, v: T)
    requires Reachable(E, s, u) && (u, v) in E
    ensures Reachable(E, s, v)
  {
    var p :| IsWalkFromTo(E, p, s, u);
    WalkAppend(E, p, v);
    assert IsWalkFromTo(E, p + [v], s, v);
  }

  lemma WalkConcat<T(!new)>(E: set<(T, T)>, p: seq<T>, q: seq<T>)
    requires IsWalk(E, p) && IsWalk(E, q) && p[|p| - 1] == q[0]
    ensures IsWalk(E, p + q[1..])
  {
    var r := p + q[1..];
    forall i | 0 <= i < |r| - 1 ensures (r[i], r[i + 1]) in E {
      if i < |p| - 1 {
        assert r[i] == p[i] && r[i + 1] == p[i + 1];
      } else {
        assert r[i] == q[i - |p| + 1] && r[i + 1] == q[i - |p| + 2];
      }
    }
  }

  lemma ReachableTrans<T(!new)>(E: set<(T, T)>, s: T, u: T, t: T)
    requires Reachable(E, s, u) && Reachable(E, u, t)
    ensures Reachable(E, s, t)
  {
    var p :| IsWalkFromTo(E, p, s, u);
    var q :| IsWalkFromTo(E, q, u, t);
    WalkConcat(E, p, q);
    assert IsWalkFromTo(E, p + q[1..], s, t);
  }

  /** Every vertex of a walk that starts inside a closed set stays inside it. */
  lemma {:induction false} ClosedWalk<T(!new)>(E: set<(T, T)>, S: set<T>, p: seq<T>)
    requires IsWalk(E, p) && p[0] in S && Closed(E, S)
    ensures forall i :: 0 <= i < |p| ==> p[i] in S
  {
    if |p| > 1 {
      var q := p[..|p| - 1];
      assert IsWalk(E, q) by {
        forall i | 0 <= i < |q| - 1 ensures (q[i], q[i + 1]) in E {
          assert q[i] == p[i] && q[i + 1] == p[i + 1];
        }
      }
      ClosedWalk(E, S, q);
      assert (p[|p| - 2], p[|p| - 1]) in E;
      assert p[|p| - 2] == q[|q| - 1];
      forall i | 0 <= i < |p| ensures p[i] in S {
        if i < |p| - 1 { assert p[i] == q[i]; }
      }
    }
  }

  /** A closed set containing `s` contains everything reachable from `s`. */
  lemma ClosedContainsReachable<T(!new)>(E: set<(T, T)>, S: set<T>, s: T, t: T)
    requires s in S && Closed(E, S) && Reachable(E, s, t)
    ensures t in S
  {
    var p :| IsWalkFromTo(E, p, s, t);
    ClosedWalk(E, S, p);
  }

  lemma WalkMonotone<T(!new)>(E: set<(T, T)>, F: set<(T, T)>, p: seq<T>)
    requires E <= F && IsWalk(E, p)
    ensures IsWalk(F, p)
  {
  }

  /** More edges reach at least as far. */
  lemma ReachableMonotone<T(!new)>(E: set<(T, T)>, F: set<(T, T)>, s: T, t: T)
    requires E <= F && Reachable(E, s, t)
    ensures Reachable(F, s, t)
  {
    var p :| IsWalkFromTo(E, p, s, t);
    WalkMonotone(E, F, p);
    assert IsWalkFromTo(F, p, s, t);
  }

  /** In a symmetric relation a walk can be retraced backwards. */
  lemma ReachableSymmetric<T(!new)>(E: set<(T, T)>, s: T, t: T)
    requires Symmetric(E) && Reachable(E, s, t)
    ensures Reachable(E, t, s)
  {
    var p :| IsWalkFromTo(E, p, s, t);
    var q := Reverse(p);
    forall i | 0 <= i < |q| - 1 ensures (q[i], q[i + 1]) in E {
      assert q[i] == p[|p| - 1 - i] && q[i + 1] == p[|p| - 2 - i];
      assert (p[|p| - 2 - i], p[|p| - 1 - i]) in E;
    }
    assert IsWalkFromTo(E, q, t, s);
  }

  /** A traversal result from `s`: it starts at `s`, lists no vertex twice,
      lists only vertices reachable from `s`, and every vertex after the first
      is a neighbour of a vertex listed before it. */
  ghost predicate IsTraversal<T(!new)>(E: set<(T, T)>, s: T, r: seq<T>)
  {
    && |r| >= 1
    && r[0] == s
    && Distinct(r)
    && (forall k :: 0 <= k < |r| ==> Reachable(E, s, r[k]))
    && (forall k :: 0 < k < |r| ==> exists j :: 0 <= j < k && (r[j], r[k]) in E)
  }

  /** `r` lists every vertex reachable from `s`. */
  ghost predicate CoversReachable<T(!new)>(E: set<(T, T)>, s: T, r: seq<T>)
  {
    forall t :: Reachable(E, s, t) ==> t in r
  }
}
