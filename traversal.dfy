/** The visiting orders of the two searches both graph classes implement, for
    a graph given by its ordered neighbour lists `N(v)`:

    - the depth-first search keeps a stack; it pops a vertex, skips it when it
      is already visited, and otherwise visits it and pushes its neighbours so
      that the first of them in list order ends up on top;
    - the breadth-first search keeps a queue; it takes the front vertex, skips
      it when it is already visited, and otherwise visits it and enqueues, in
      list order, those neighbours not visited yet.

    `NextDfs` and `NextBfs` say, independently of any stack or queue, which
    vertex each search visits after the prefix `r`; `DfsStack` and `BfsQueue`
    describe the container in terms of the visited prefix, and the lemmas here
    connect the two. */
module Traversal {
  import opened Lists
  import opened Walks

  /** The first element of `L` that is not in `r`. */
  function FirstFresh<T(==,!new)>(L: seq<T>, r: seq<T>): (x: Option<T>)
    ensures x.Some? ==> x.value in L && x.value !in r
    ensures x.None? <==> forall y :: y in L ==> y in r
  {
    if L == [] then None
    else if L[0] !in r then Some(L[0])
    else FirstFresh(L[1..], r)
  }

  /** When everything before position `c` is in `r` and `L[c]` is not,
      `L[c]` is the first element of `L` outside `r`. */
  lemma {:induction false} FirstFreshAt<T(!new)>(L: seq<T>, r: seq<T>, c: nat)
    requires c < |L| && L[c] !in r
    requires forall i :: 0 <= i < c ==> L[i] in r
    ensures FirstFresh(L, r) == Some(L[c])
  {
    if c > 0 {
      assert L[0] in r;
      assert forall i :: 0 <= i < c - 1 ==> L[1..][i] == L[i + 1];
      FirstFreshAt(L[1..], r, c - 1);
    }
  }

  /** Scanning `r[..j]` from its last vertex back, the first unvisited
      neighbour of the first vertex that has one. */
  function LastOpen<T(==,!new)>(N: T -> seq<T>, r: seq<T>, j: nat): (x: Option<T>)
    requires j <= |r|
    ensures x.Some? ==> x.value !in r && exists i :: 0 <= i < j && x.value in N(r[i])
    ensures x.None? ==> forall i, y :: 0 <= i < j && y in N(r[i]) ==> y in r
  {
    if j == 0 then None
    else
      var f := FirstFresh(N(r[j - 1]), r);
      if f.Some? then f else LastOpen(N, r, j - 1)
  }

  /** Scanning `r[i..]` from its first vertex on, the first unvisited
      neighbour of the first vertex that has one. */
  function FirstOpen<T(==,!new)>(N: T -> seq<T>, r: seq<T>, i: nat): (x: Option<T>)
    requires i <= |r|
    ensures x.Some? ==> x.value !in r && exists j :: i <= j < |r| && x.value in N(r[j])
    ensures x.None? ==> forall j, y :: i <= j < |r| && y in N(r[j]) ==> y in r
    decreases |r| - i
  {
    if i == |r| then None
    else
      var f := FirstFresh(N(r[i]), r);
      if f.Some? then f else FirstOpen(N, r, i + 1)
  }

  /** The vertex a depth-first search visits after `r`: the first unvisited
      neighbour of the most recently visited vertex that still has one;
      `None` when the search is exhausted. */
  function NextDfs<T(==,!new)>(N: T -> seq<T>, r: seq<T>): Option<T>
  {
    LastOpen(N, r, |r|)
  }

  /** The vertex a breadth-first search visits after `r`: the first unvisited
      neighbour of the earliest visited vertex that still has one. */
  function NextBfs<T(==,!new)>(N: T -> seq<T>, r: seq<T>): Option<T>
  {
    FirstOpen(N, r, 0)
  }

  predicate IsDfsOrder<T(==,!new)>(N: T -> seq<T>, r: seq<T>)
  {
    forall k :: 0 < k < |r| ==> NextDfs(N, r[..k]) == Some(r[k])
  }

  predicate IsBfsOrder<T(==,!new)>(N: T -> seq<T>, r: seq<T>)
  {
    forall k :: 0 < k < |r| ==> NextBfs(N, r[..k]) == Some(r[k])
  }

  /** Two neighbour functions that agree everywhere agree on both orders.
      (Dafny has no extensionality for function values, so this is proved by
      following the recursion.) */
  lemma {:induction false} LastOpenCongruent<T(!new)>(N: T -> seq<T>, M: T -> seq<T>, r: seq<T>, j: nat)
    requires forall x :: N(x) == M(x)
    requires j <= |r|
    ensures LastOpen(N, r, j) == LastOpen(M, r, j)
  {
    if j > 0 {
      assert N(r[j - 1]) == M(r[j - 1]);
      LastOpenCongruent(N, M, r, j - 1);
    }
  }

  lemma {:induction false} FirstOpenCongruent<T(!new)>(N: T -> seq<T>, M: T -> seq<T>, r: seq<T>, i: nat)
    requires forall x :: N(x) == M(x)
    requires i <= |r|
    ensures FirstOpen(N, r, i) == FirstOpen(M, r, i)
    decreases |r| - i
  {
    if i < |r| {
      assert N(r[i]) == M(r[i]);
      FirstOpenCongruent(N, M, r, i + 1);
    }
  }

  lemma DfsOrderCongruent<T(!new)>(N: T -> seq<T>, M: T -> seq<T>, r: seq<T>)
    requires forall x :: N(x) == M(x)
    ensures NextDfs(N, r) == NextDfs(M, r)
    ensures IsDfsOrder(N, r) <==> IsDfsOrder(M, r)
  {
    LastOpenCongruent(N, M, r, |r|);
    forall k | 0 < k < |r| ensures NextDfs(N, r[..k]) == NextDfs(M, r[..k]) {
      LastOpenCongruent(N, M, r[..k], k);
    }
  }

  lemma BfsOrderCongruent<T(!new)>(N: T -> seq<T>, M: T -> seq<T>, r: seq<T>)
    requires forall x :: N(x) == M(x)
    ensures NextBfs(N, r) == NextBfs(M, r)
    ensures IsBfsOrder(N, r) <==> IsBfsOrder(M, r)
  {
    FirstOpenCongruent(N, M, r, 0);
    forall k | 0 < k < |r| ensures NextBfs(N, r[..k]) == NextBfs(M, r[..k]) {
      FirstOpenCongruent(N, M, r[..k], 0);
    }
  }

  /** Every vertex after the first is new and a neighbour of an earlier one. */
  predicate Grows<T(==,!new)>(N: T -> seq<T>, r: seq<T>)
  {
    forall k :: 0 < k < |r| ==> r[k] !in r[..k] && exists j :: 0 <= j < k && r[k] in N(r[j])
  }

  lemma DfsOrderGrows<T(!new)>(N: T -> seq<T>, r: seq<T>)
    requires IsDfsOrder(N, r)
    ensures Grows(N, r)
  {
    forall k | 0 < k < |r| ensures r[k] !in r[..k] && exists j :: 0 <= j < k && r[k] in N(r[j]) {
      var x := LastOpen(N, r[..k], k);
      var j :| 0 <= j < k && x.value in N(r[..k][j]);
      assert r[..k][j] == r[j];
    }
  }

  lemma BfsOrderGrows<T(!new)>(N: T -> seq<T>, r: seq<T>)
    requires IsBfsOrder(N, r)
    ensures Grows(N, r)
  {
    forall k | 0 < k < |r| ensures r[k] !in r[..k] && exists j :: 0 <= j < k && r[k] in N(r[j]) {
      var x := FirstOpen(N, r[..k], 0);
      var j :| 0 <= j < k && x.value in N(r[..k][j]);
      assert r[..k][j] == r[j];
    }
  }

  /** Visiting the vertex `NextDfs` names extends a depth-first order. */
  lemma DfsOrderExtend<T(!new)>(N: T -> seq<T>, r: seq<T>, v: T)
    requires IsDfsOrder(N, r) && (r == [] || NextDfs(N, r) == Some(v))
    ensures IsDfsOrder(N, r + [v])
  {
    var r' := r + [v];
    forall k | 0 < k < |r'| ensures NextDfs(N, r'[..k]) == Some(r'[k]) {
      if k < |r| {
        assert r'[..k] == r[..k];
      } else {
        assert r'[..k] == r;
      }
    }
  }

  /** Visiting the vertex `NextBfs` names extends a breadth-first order. */
  lemma BfsOrderExtend<T(!new)>(N: T -> seq<T>, r: seq<T>, v: T)
    requires IsBfsOrder(N, r) && (r == [] || NextBfs(N, r) == Some(v))
    ensures IsBfsOrder(N, r + [v])
  {
    var r' := r + [v];
    forall k | 0 < k < |r'| ensures NextBfs(N, r'[..k]) == Some(r'[k]) {
      if k < |r| {
        assert r'[..k] == r[..k];
      } else {
        assert r'[..k] == r;
      }
    }
  }

  /** Neighbour lists name only edges of `E`. */
  ghost predicate ListsEdges<T(!new)>(N: T -> seq<T>, E: set<(T, T)>)
  {
    forall u, v :: v in N(u) ==> (u, v) in E
  }

  /** Neighbour lists name every edge of `E`. */
  ghost predicate ListsAllEdges<T(!new)>(N: T -> seq<T>, E: set<(T, T)>)
  {
    forall u, v :: (u, v) in E ==> v in N(u)
  }

  lemma {:induction false} GrowsReachable<T(!new)>(N: T -> seq<T>, E: set<(T, T)>, r: seq<T>, k: nat)
    requires ListsEdges(N, E) && Grows(N, r) && k < |r|
    ensures Reachable(E, r[0], r[k])
    decreases k
  {
    if k == 0 {
      ReachableSelf(E, r[0]);
    } else {
      var j :| 0 <= j < k && r[k] in N(r[j]);
      GrowsReachable(N, E, r, j);
      ReachableStep(E, r[0], r[j], r[k]);
    }
  }

  /** A growing sequence from `s` is a traversal from `s`. */
  lemma GrowsIsTraversal<T(!new)>(N: T -> seq<T>, E: set<(T, T)>, s: T, r: seq<T>)
    requires ListsEdges(N, E) && Grows(N, r) && |r| >= 1 && r[0] == s
    ensures IsTraversal(E, s, r)
  {
    forall k | 0 <= k < |r| ensures Reachable(E, s, r[k]) {
      GrowsReachable(N, E, r, k);
    }
    forall i, j | 0 <= i < j < |r| ensures r[i] != r[j] {
      assert r[..j][i] == r[i];
    }
    forall k | 0 < k < |r| ensures exists j :: 0 <= j < k && (r[j], r[k]) in E {
      var j :| 0 <= j < k && r[k] in N(r[j]);
    }
  }

  /** A set of visited vertices no unvisited neighbour leads out of contains
      everything reachable from the start. */
  lemma ExhaustedCovers<T(!new)>(N: T -> seq<T>, E: set<(T, T)>, r: seq<T>)
    requires ListsAllEdges(N, E) && |r| >= 1
    requires forall i, y :: 0 <= i < |r| && y in N(r[i]) ==> y in r
    ensures CoversReachable(E, r[0], r)
  {
    var S := Elems(r);
    forall u, v | (u, v) in E && u in S ensures v in S {
      var i :| 0 <= i < |r| && r[i] == u;
    }
    forall t | Reachable(E, r[0], t) ensures t in r {
      ClosedContainsReachable(E, S, r[0], t);
    }
  }

  /** An exhausted search has listed everything reachable from its start. */
  lemma DfsExhaustedCovers<T(!new)>(N: T -> seq<T>, E: set<(T, T)>, r: seq<T>)
    requires ListsAllEdges(N, E) && |r| >= 1 && NextDfs(N, r) == None
    ensures CoversReachable(E, r[0], r)
  {
    ExhaustedCovers(N, E, r);
  }

  lemma BfsExhaustedCovers<T(!new)>(N: T -> seq<T>, E: set<(T, T)>, r: seq<T>)
    requires ListsAllEdges(N, E) && |r| >= 1 && NextBfs(N, r) == None
    ensures CoversReachable(E, r[0], r)
  {
    ExhaustedCovers(N, E, r);
  }

  // ---------------------------------------------------------------------
  // The depth-first stack

  /** `cut[j]` entries of `N(r[j])` have been taken off the container. */
  predicate CutsFit<T(!new)>(N: T -> seq<T>, r: seq<T>, cut: seq<nat>)
  {
    |cut| == |r| && forall j :: 0 <= j < |r| ==> cut[j] <= |N(r[j])|
  }

  /** Entries taken off the stack have been visited. */
  predicate Consumed<T(==,!new)>(N: T -> seq<T>, r: seq<T>, cut: seq<nat>)
    requires CutsFit(N, r, cut)
  {
    forall j, i :: 0 <= j < |r| && 0 <= i < cut[j] ==> N(r[j])[i] in r
  }

  /** The stack (bottom first) after visiting `r[..j]`: for each visited
      vertex in visit order, the entries of its neighbour list not yet
      popped, pushed last-first so that the earliest is on top. */
  function DfsStack<T(!new)>(N: T -> seq<T>, r: seq<T>, cut: seq<nat>, j: nat): seq<T>
    requires CutsFit(N, r, cut) && j <= |r|
  {
    if j == 0 then [] else DfsStack(N, r, cut, j - 1) + Reverse(N(r[j - 1])[cut[j - 1]..])
  }

  /** The stack depends only on the first `j` visited vertices and cuts. */
  lemma {:induction false} DfsStackFrame<T(!new)>(N: T -> seq<T>, r: seq<T>, cut: seq<nat>, r': seq<T>, cut': seq<nat>, j: nat)
    requires CutsFit(N, r, cut) && CutsFit(N, r', cut') && j <= |r| && j <= |r'|
    requires forall k :: 0 <= k < j ==> r[k] == r'[k] && cut[k] == cut'[k]
    ensures DfsStack(N, r, cut, j) == DfsStack(N, r', cut', j)
  {
    if j > 0 {
      DfsStackFrame(N, r, cut, r', cut', j - 1);
    }
  }

  /** An empty stack means the search is exhausted, and an unvisited top is
      exactly the vertex the depth-first order visits next. */
  lemma {:induction false} DfsStackTop<T(!new)>(N: T -> seq<T>, r: seq<T>, cut: seq<nat>, j: nat)
    requires CutsFit(N, r, cut) && Consumed(N, r, cut) && j <= |r|
    ensures DfsStack(N, r, cut, j) == [] ==> LastOpen(N, r, j) == None
    ensures var s := DfsStack(N, r, cut, j);
      s != [] && s[|s| - 1] !in r ==> LastOpen(N, r, j) == Some(s[|s| - 1])
  {
    if j > 0 {
      if cut[j - 1] < |N(r[j - 1])| {
        DfsStackTopHere(N, r, cut, j);
      } else {
        DfsStackExhausted(N, r, cut, j);
        LastOpenExhausted(N, r, cut, j);
        DfsStackTop(N, r, cut, j - 1);
      }
    }
  }

  /** While the last visited vertex's list is not used up, its next entry is
      on top, and it is the vertex visited next when it is unvisited. */
  lemma DfsStackTopHere<T(!new)>(N: T -> seq<T>, r: seq<T>, cut: seq<nat>, j: nat)
    requires CutsFit(N, r, cut) && Consumed(N, r, cut) && 0 < j <= |r|
    requires cut[j - 1] < |N(r[j - 1])|
    ensures var s := DfsStack(N, r, cut, j);
      && s != [] && s[|s| - 1] == N(r[j - 1])[cut[j - 1]]
      && (s[|s| - 1] !in r ==> LastOpen(N, r, j) == Some(s[|s| - 1]))
  {
    var L := N(r[j - 1]);
    var c := cut[j - 1];
    var seg := Reverse(L[c..]);
    assert seg[|seg| - 1] == L[c];
    assert DfsStack(N, r, cut, j) == DfsStack(N, r, cut, j - 1) + seg;
    if L[c] !in r {
      FirstFreshAt(L, r, c);
    }
  }

  /** A used-up list has no unvisited entry, so the search looks further
      back. */
  lemma LastOpenExhausted<T(!new)>(N: T -> seq<T>, r: seq<T>, cut: seq<nat>, j: nat)
    requires CutsFit(N, r, cut) && Consumed(N, r, cut) && 0 < j <= |r|
    requires cut[j - 1] == |N(r[j - 1])|
    ensures LastOpen(N, r, j) == LastOpen(N, r, j - 1)
  {
    var L := N(r[j - 1]);
    assert forall y :: y in L ==> y in r by {
      forall y | y in L ensures y in r {
        var i :| 0 <= i < |L| && L[i] == y;
      }
    }
    assert FirstFresh(L, r) == None;
  }

  /** The top of the first `j` vertices' stack is the entry at the cut of
      vertex `i`'s list, and advancing that cut pops it. */
  ghost predicate PopsAt<T(!new)>(N: T -> seq<T>, r: seq<T>, cut: seq<nat>, j: nat, i: nat)
    requires CutsFit(N, r, cut) && j <= |r|
  {
    && i < j && cut[i] < |N(r[i])|
    && var s := DfsStack(N, r, cut, j);
      && s != [] && s[|s| - 1] == N(r[i])[cut[i]]
      && CutsFit(N, r, cut[i := cut[i] + 1])
      && DfsStack(N, r, cut[i := cut[i] + 1], j) == s[..|s| - 1]
  }

  /** Popping the top of a non-empty stack advances the cut of the vertex
      whose neighbour list it came from. */
  lemma {:induction false} DfsPop<T(!new)>(N: T -> seq<T>, r: seq<T>, cut: seq<nat>, j: nat) returns (i: nat)
    requires CutsFit(N, r, cut) && j <= |r| && DfsStack(N, r, cut, j) != []
    ensures PopsAt(N, r, cut, j, i)
  {
    assert j != 0;
    if cut[j - 1] < |N(r[j - 1])| {
      i := DfsPopTop(N, r, cut, j);
    } else {
      DfsStackExhausted(N, r, cut, j);
      i := DfsPop(N, r, cut, j - 1);
      DfsPopBelow(N, r, cut, j, i);
    }
  }

  /** When the last visited vertex's list is used up, the top of the stack
      comes from an earlier vertex, and taking it leaves that list alone. */
  lemma DfsPopBelow<T(!new)>(N: T -> seq<T>, r: seq<T>, cut: seq<nat>, j: nat, i: nat)
    requires CutsFit(N, r, cut) && 0 < j <= |r| && cut[j - 1] == |N(r[j - 1])|
    requires PopsAt(N, r, cut, j - 1, i)
    ensures PopsAt(N, r, cut, j, i)
  {
    DfsStackExhausted(N, r, cut, j);
    var cut' := cut[i := cut[i] + 1];
    assert cut'[j - 1] == cut[j - 1];
    DfsStackExhausted(N, r, cut', j);
  }

  /** A vertex whose list is used up adds nothing to the stack. */
  lemma DfsStackExhausted<T(!new)>(N: T -> seq<T>, r: seq<T>, cut: seq<nat>, j: nat)
    requires CutsFit(N, r, cut) && 0 < j <= |r| && cut[j - 1] == |N(r[j - 1])|
    ensures DfsStack(N, r, cut, j) == DfsStack(N, r, cut, j - 1)
  {
    var L := N(r[j - 1]);
    assert L[cut[j - 1]..] == [];
  }

  /** The top of the stack is the next entry of the last visited vertex's
      list, while that list is not used up. */
  lemma DfsPopTop<T(!new)>(N: T -> seq<T>, r: seq<T>, cut: seq<nat>, j: nat) returns (i: nat)
    requires CutsFit(N, r, cut) && 0 < j <= |r| && cut[j - 1] < |N(r[j - 1])|
    ensures i == j - 1 && PopsAt(N, r, cut, j, i)
  {
    i := j - 1;
    var L := N(r[j - 1]);
    var c := cut[j - 1];
    var cut' := cut[j - 1 := c + 1];
    var below := DfsStack(N, r, cut, j - 1);
    DfsStackFrame(N, r, cut, r, cut', j - 1);
    assert L[c..] == [L[c]] + L[c + 1..];
    ReverseCons(L[c], L[c + 1..]);
    var s := below + Reverse(L[c + 1..]) + [L[c]];
    assert DfsStack(N, r, cut, j) == s;
    assert s[..|s| - 1] == below + Reverse(L[c + 1..]);
    assert DfsStack(N, r, cut', j) == below + Reverse(L[c + 1..]);
  }

  lemma CutsFitPush<T(!new)>(N: T -> seq<T>, r: seq<T>, cut: seq<nat>, v: T)
    requires CutsFit(N, r, cut)
    ensures CutsFit(N, r + [v], cut + [0])
  {
    var r', cut' := r + [v], cut + [0];
    forall j | 0 <= j < |r'| ensures cut'[j] <= |N(r'[j])| {
      if j < |r| { assert r'[j] == r[j] && cut'[j] == cut[j]; }
    }
  }

  /** Visiting a new vertex puts its whole neighbour list on the stack. */
  lemma DfsPush<T(!new)>(N: T -> seq<T>, r: seq<T>, cut: seq<nat>, v: T)
    requires CutsFit(N, r, cut)
    ensures CutsFit(N, r + [v], cut + [0])
    ensures DfsStack(N, r + [v], cut + [0], |r| + 1) == DfsStack(N, r, cut, |r|) + Reverse(N(v))
  {
    var r', cut' := r + [v], cut + [0];
    CutsFitPush(N, r, cut, v);
    DfsStackFrame(N, r, cut, r', cut', |r|);
    assert r'[|r|] == v && cut'[|r|] == 0;
    assert N(v)[0..] == N(v);
  }

  /** Popping entry `cut[i]` of `N(r[i])` keeps every popped entry visited,
      once that entry is visited too. */
  lemma DfsConsumedAfterPop<T(!new)>(N: T -> seq<T>, r: seq<T>, cut: seq<nat>, i: nat, v: T)
    requires CutsFit(N, r, cut) && Consumed(N, r, cut)
    requires i < |r| && cut[i] < |N(r[i])| && N(r[i])[cut[i]] == v
    ensures var cut' := cut[i := cut[i] + 1];
      && CutsFit(N, r, cut')
      && (v in r ==> Consumed(N, r, cut'))
      && CutsFit(N, r + [v], cut' + [0])
      && (v !in r ==> Consumed(N, r + [v], cut' + [0]))
  {
    var cut' := cut[i := cut[i] + 1];
    var r', cut'' := r + [v], cut' + [0];
    forall j, k | 0 <= j < |r'| && 0 <= k < cut''[j] ensures N(r'[j])[k] in r' {
      assert j < |r|;
      assert r'[j] == r[j];
      if j != i || k < cut[i] {
        assert N(r[j])[k] in r;
      }
    }
  }

  /** The invariant of the depth-first loop started at `s`: before the first
      visit the stack holds `s` alone; afterwards it is the stack the visited
      prefix determines, and the visited prefix is in depth-first order. */
  ghost predicate DfsLoopInv<T(!new)>(N: T -> seq<T>, s: T, r: seq<T>, cut: seq<nat>, stack: seq<T>)
  {
    && CutsFit(N, r, cut) && Consumed(N, r, cut)
    && (r == [] ==> stack == [s])
    && (r != [] ==> r[0] == s && stack == DfsStack(N, r, cut, |r|))
    && IsDfsOrder(N, r)
  }

  /** A round of the loop that pops an already visited vertex. */
  lemma DfsLoopSkip<T(!new)>(N: T -> seq<T>, s: T, r: seq<T>, cut: seq<nat>, stack: seq<T>) returns (cut': seq<nat>)
    requires DfsLoopInv(N, s, r, cut, stack) && stack != [] && stack[|stack| - 1] in r
    ensures DfsLoopInv(N, s, r, cut', stack[..|stack| - 1])
  {
    cut' := DfsSkip(N, s, r, cut, stack);
  }

  /** A round of the loop that pops a new vertex: it is visited and its
      neighbour list is pushed in reverse. */
  lemma DfsLoopVisit<T(!new)>(N: T -> seq<T>, s: T, r: seq<T>, cut: seq<nat>, stack: seq<T>) returns (cut': seq<nat>)
    requires DfsLoopInv(N, s, r, cut, stack) && stack != [] && stack[|stack| - 1] !in r
    ensures DfsLoopInv(N, s, r + [stack[|stack| - 1]], cut', stack[..|stack| - 1] + Reverse(N(stack[|stack| - 1])))
  {
    var v := stack[|stack| - 1];
    if r == [] {
      DfsPush(N, [], [], s);
      DfsOrderExtend(N, [], s);
      assert [] + [s] == [s] && stack[..|stack| - 1] == [];
      assert [] + Reverse(N(s)) == Reverse(N(s));
      cut' := [0];
    } else {
      cut' := DfsVisit(N, s, r, cut, stack);
      var r' := r + [v];
      assert |r'| == |r| + 1 && r' != [] && r'[0] == s;
    }
  }

  /** Popping an already visited vertex only advances a cut. */
  lemma DfsSkip<T(!new)>(N: T -> seq<T>, s: T, r: seq<T>, cut: seq<nat>, stack: seq<T>) returns (cut': seq<nat>)
    requires CutsFit(N, r, cut) && Consumed(N, r, cut) && IsDfsOrder(N, r)
    requires r != [] && r[0] == s && stack == DfsStack(N, r, cut, |r|) && stack != []
    requires stack[|stack| - 1] in r
    ensures DfsLoopInv(N, s, r, cut', stack[..|stack| - 1])
  {
    var i := DfsPop(N, r, cut, |r|);
    cut' := cut[i := cut[i] + 1];
    assert i < |r| && cut[i] < |N(r[i])| && N(r[i])[cut[i]] == stack[|stack| - 1];
    assert DfsStack(N, r, cut', |r|) == stack[..|stack| - 1];
    DfsConsumedAfterPop(N, r, cut, i, stack[|stack| - 1]);
    assert CutsFit(N, r, cut') && Consumed(N, r, cut');
  }

  /** Popping a new vertex visits it and pushes its neighbour list. */
  lemma DfsVisit<T(!new)>(N: T -> seq<T>, s: T, r: seq<T>, cut: seq<nat>, stack: seq<T>) returns (cut': seq<nat>)
    requires CutsFit(N, r, cut) && Consumed(N, r, cut) && IsDfsOrder(N, r)
    requires r != [] && r[0] == s && stack == DfsStack(N, r, cut, |r|) && stack != []
    requires stack[|stack| - 1] !in r
    ensures CutsFit(N, r + [stack[|stack| - 1]], cut')
    ensures Consumed(N, r + [stack[|stack| - 1]], cut')
    ensures IsDfsOrder(N, r + [stack[|stack| - 1]])
    ensures DfsStack(N, r + [stack[|stack| - 1]], cut', |r| + 1) == stack[..|stack| - 1] + Reverse(N(stack[|stack| - 1]))
  {
    var v := stack[|stack| - 1];
    var i := DfsPop(N, r, cut, |r|);
    DfsStackTop(N, r, cut, |r|);
    DfsConsumedAfterPop(N, r, cut, i, v);
    var c := cut[i := cut[i] + 1];
    DfsPush(N, r, c, v);
    DfsOrderExtend(N, r, v);
    cut' := c + [0];
  }

  /** The loop ends with an empty stack only once the search is exhausted. */
  lemma DfsLoopExhausted<T(!new)>(N: T -> seq<T>, s: T, r: seq<T>, cut: seq<nat>)
    requires DfsLoopInv(N, s, r, cut, [])
    ensures r != [] && NextDfs(N, r) == None
  {
    DfsStackTop(N, r, cut, |r|);
  }

  // ---------------------------------------------------------------------
  // The breadth-first queue

  /** The entries of `L` not in `r`, in order: what the search enqueues. */
  function Fresh<T(==,!new)>(L: seq<T>, r: seq<T>): seq<T>
  {
    if L == [] then [] else (if L[0] !in r then [L[0]] else []) + Fresh(L[1..], r)
  }

  /** `Fresh` keeps exactly the entries of `L` outside `r`. */
  lemma {:induction false} FreshMembers<T(!new)>(L: seq<T>, r: seq<T>)
    ensures forall x :: x in Fresh(L, r) <==> x in L && x !in r
  {
    if L != [] {
      FreshMembers(L[1..], r);
      assert L == [L[0]] + L[1..];
    }
  }

  lemma {:induction false} FreshAppend<T(!new)>(L: seq<T>, M: seq<T>, r: seq<T>)
    ensures Fresh(L + M, r) == Fresh(L, r) + Fresh(M, r)
  {
    if L == [] {
      assert L + M == M;
    } else {
      var LM := L + M;
      var head := if L[0] !in r then [L[0]] else [];
      assert LM != [] && LM[0] == L[0] && LM[1..] == L[1..] + M;
      assert Fresh(LM, r) == head + Fresh(L[1..] + M, r);
      FreshAppend(L[1..], M, r);
    }
  }

  /** When the entries of `Fresh(L, S)` before position `c` are in `r`, and
      `S` is, the entry at `c` (if not in `r`) is the first entry of `L`
      outside `r`. */
  lemma {:induction false} FreshFirst<T(!new)>(L: seq<T>, S: seq<T>, r: seq<T>, c: nat)
    requires forall x :: x in S ==> x in r
    requires c < |Fresh(L, S)| && Fresh(L, S)[c] !in r
    requires forall k :: 0 <= k < c ==> Fresh(L, S)[k] in r
    ensures FirstFresh(L, r) == Some(Fresh(L, S)[c])
  {
    var F := Fresh(L, S);
    assert L != [];
    var F' := Fresh(L[1..], S);
    if L[0] !in S {
      assert F == [L[0]] + F';
      if c > 0 {
        assert L[0] == F[0] && L[0] in r;
        assert FirstFresh(L, r) == FirstFresh(L[1..], r);
        assert forall k :: 0 <= k < c - 1 ==> F'[k] == F[k + 1];
        FreshFirst(L[1..], S, r, c - 1);
      } else {
        assert F[0] == L[0] && L[0] !in r;
      }
    } else {
      assert F == F';
      assert L[0] in r;
      assert FirstFresh(L, r) == FirstFresh(L[1..], r);
      FreshFirst(L[1..], S, r, c);
    }
  }

  /** What visiting `r[j]` enqueued: its neighbours not visited by then. */
  function Enqueued<T(==,!new)>(N: T -> seq<T>, r: seq<T>, j: nat): seq<T>
    requires j < |r|
  {
    Fresh(N(r[j]), r[..j + 1])
  }

  /** `cut[j]` entries of what `r[j]` enqueued have been dequeued. */
  predicate BfsCutsFit<T(==,!new)>(N: T -> seq<T>, r: seq<T>, cut: seq<nat>)
  {
    |cut| == |r| && forall j :: 0 <= j < |r| ==> cut[j] <= |Enqueued(N, r, j)|
  }

  /** Entries taken off the queue have been visited. */
  predicate BfsConsumed<T(==,!new)>(N: T -> seq<T>, r: seq<T>, cut: seq<nat>)
    requires BfsCutsFit(N, r, cut)
  {
    forall j, i :: 0 <= j < |r| && 0 <= i < cut[j] ==> Enqueued(N, r, j)[i] in r
  }

  /** The queue (front first) from the `i`-th visited vertex on: for each
      visited vertex in visit order, what it enqueued and has not been
      dequeued yet. */
  function BfsQueue<T(==,!new)>(N: T -> seq<T>, r: seq<T>, cut: seq<nat>, i: nat): seq<T>
    requires BfsCutsFit(N, r, cut) && i <= |r|
    decreases |r| - i
  {
    if i == |r| then [] else Enqueued(N, r, i)[cut[i]..] + BfsQueue(N, r, cut, i + 1)
  }

  lemma {:induction false} BfsQueueFrame<T(!new)>(N: T -> seq<T>, r: seq<T>, cut: seq<nat>, cut': seq<nat>, i: nat)
    requires BfsCutsFit(N, r, cut) && BfsCutsFit(N, r, cut') && i <= |r|
    requires forall k :: i <= k < |r| ==> cut[k] == cut'[k]
    ensures BfsQueue(N, r, cut, i) == BfsQueue(N, r, cut', i)
    decreases |r| - i
  {
    if i < |r| {
      BfsQueueFrame(N, r, cut, cut', i + 1);
    }
  }

  /** An empty queue means the search is exhausted, and an unvisited front
      is exactly the vertex the breadth-first order visits next. */
  lemma {:induction false} BfsQueueFront<T(!new)>(N: T -> seq<T>, r: seq<T>, cut: seq<nat>, i: nat)
    requires BfsCutsFit(N, r, cut) && BfsConsumed(N, r, cut) && i <= |r|
    ensures BfsQueue(N, r, cut, i) == [] ==> FirstOpen(N, r, i) == None
    ensures var q := BfsQueue(N, r, cut, i);
      q != [] && q[0] !in r ==> FirstOpen(N, r, i) == Some(q[0])
    decreases |r| - i
  {
    if i < |r| {
      var L := N(r[i]);
      var S := r[..i + 1];
      var F := Enqueued(N, r, i);
      assert forall x :: x in S ==> x in r;
      if cut[i] < |F| {
        if F[cut[i]] !in r {
          FreshFirst(L, S, r, cut[i]);
        }
      } else {
        assert forall y :: y in L ==> y in r by {
          FreshMembers(L, S);
          forall y | y in L ensures y in r {
            if y !in S {
              assert y in F;
              var k :| 0 <= k < |F| && F[k] == y;
            }
          }
        }
        BfsQueueFront(N, r, cut, i + 1);
      }
    }
  }

  /** The front of the queue from vertex `i` on is the entry at the cut of
      vertex `j`'s fresh neighbours, and advancing that cut dequeues it. */
  ghost predicate DequeuesAt<T(!new)>(N: T -> seq<T>, r: seq<T>, cut: seq<nat>, i: nat, j: nat)
    requires BfsCutsFit(N, r, cut) && i <= |r|
  {
    && i <= j < |r| && cut[j] < |Enqueued(N, r, j)|
    && BfsCutsFit(N, r, cut[j := cut[j] + 1])
    && var q := BfsQueue(N, r, cut, i);
      && q != [] && q[0] == Enqueued(N, r, j)[cut[j]]
      && BfsQueue(N, r, cut[j := cut[j] + 1], i) == q[1..]
  }

  /** Dequeuing the front of a non-empty queue advances the cut of the
      vertex whose neighbours it came from. */
  lemma {:induction false} BfsPop<T(!new)>(N: T -> seq<T>, r: seq<T>, cut: seq<nat>, i: nat) returns (j: nat)
    requires BfsCutsFit(N, r, cut) && i <= |r| && BfsQueue(N, r, cut, i) != []
    ensures DequeuesAt(N, r, cut, i, j)
    decreases |r| - i, 1
  {
    assert i != |r|;
    if cut[i] < |Enqueued(N, r, i)| {
      j := BfsPopFront(N, r, cut, i);
    } else {
      j := BfsPopLater(N, r, cut, i);
    }
  }

  /** A vertex whose fresh neighbours are all dequeued adds nothing to the
      queue. */
  lemma BfsQueueExhausted<T(!new)>(N: T -> seq<T>, r: seq<T>, cut: seq<nat>, i: nat)
    requires BfsCutsFit(N, r, cut) && i < |r| && cut[i] == |Enqueued(N, r, i)|
    ensures BfsQueue(N, r, cut, i) == BfsQueue(N, r, cut, i + 1)
  {
    var F := Enqueued(N, r, i);
    assert F[cut[i]..] == [];
  }

  /** While vertex `i` still has fresh neighbours queued, the front is the
      next of them. */
  lemma BfsPopFront<T(!new)>(N: T -> seq<T>, r: seq<T>, cut: seq<nat>, i: nat) returns (j: nat)
    requires BfsCutsFit(N, r, cut) && i < |r| && cut[i] < |Enqueued(N, r, i)|
    ensures j == i && DequeuesAt(N, r, cut, i, j)
  {
    j := i;
    var F := Enqueued(N, r, i);
    var rest := BfsQueue(N, r, cut, i + 1);
    var cut' := cut[j := cut[j] + 1];
    BfsQueueFrame(N, r, cut, cut', i + 1);
    assert BfsQueue(N, r, cut, i) == F[cut[i]..] + rest;
    assert BfsQueue(N, r, cut', i) == F[cut[i] + 1..] + rest;
    assert F[cut[i]..] == [F[cut[i]]] + F[cut[i] + 1..];
  }

  /** When vertex `i`'s fresh neighbours are all dequeued, the front comes
      from a later vertex, and taking it leaves vertex `i`'s part empty. */
  lemma {:induction false} BfsPopLater<T(!new)>(N: T -> seq<T>, r: seq<T>, cut: seq<nat>, i: nat) returns (j: nat)
    requires BfsCutsFit(N, r, cut) && i < |r| && cut[i] == |Enqueued(N, r, i)|
    requires BfsQueue(N, r, cut, i) != []
    ensures DequeuesAt(N, r, cut, i, j)
    decreases |r| - i, 0
  {
    BfsQueueExhausted(N, r, cut, i);
    j := BfsPop(N, r, cut, i + 1);
    var cut' := cut[j := cut[j] + 1];
    assert cut'[i] == cut[i];
    BfsQueueExhausted(N, r, cut', i);
  }

  /** Visiting a new vertex enqueues its unvisited neighbours at the back. */
  lemma {:induction false} BfsPush<T(!new)>(N: T -> seq<T>, r: seq<T>, cut: seq<nat>, v: T, i: nat)
    requires BfsCutsFit(N, r, cut) && i <= |r|
    ensures BfsCutsFit(N, r + [v], cut + [0])
    ensures BfsQueue(N, r + [v], cut + [0], i) == BfsQueue(N, r, cut, i) + Fresh(N(v), r + [v])
    decreases |r| - i
  {
    var r' := r + [v];
    forall k | 0 <= k < |r| ensures Enqueued(N, r', k) == Enqueued(N, r, k) {
      assert r'[..k + 1] == r[..k + 1];
    }
    assert r'[..|r| + 1] == r';
    if i < |r| {
      BfsPush(N, r, cut, v, i + 1);
    }
  }

  /** Dequeuing entry `cut[j]` of what `r[j]` enqueued keeps every dequeued
      entry visited, once that entry is visited too. */
  lemma BfsConsumedAfterPop<T(!new)>(N: T -> seq<T>, r: seq<T>, cut: seq<nat>, j: nat, v: T)
    requires BfsCutsFit(N, r, cut) && BfsConsumed(N, r, cut)
    requires j < |r| && cut[j] < |Enqueued(N, r, j)| && Enqueued(N, r, j)[cut[j]] == v
    ensures var cut' := cut[j := cut[j] + 1];
      && BfsCutsFit(N, r, cut')
      && (v in r ==> BfsConsumed(N, r, cut'))
      && BfsCutsFit(N, r + [v], cut' + [0])
      && (v !in r ==> BfsConsumed(N, r + [v], cut' + [0]))
  {
    var cut' := cut[j := cut[j] + 1];
    var r', cut'' := r + [v], cut' + [0];
    forall k | 0 <= k < |r| ensures Enqueued(N, r', k) == Enqueued(N, r, k) {
      assert r'[..k + 1] == r[..k + 1];
    }
    assert r'[..|r| + 1] == r';
    forall k, i | 0 <= k < |r'| && 0 <= i < cut''[k] ensures Enqueued(N, r', k)[i] in r' {
      assert k < |r|;
      if k != j || i < cut[j] {
        assert Enqueued(N, r, k)[i] in r;
      }
    }
  }

  /** The invariant of the breadth-first loop started at `s`. */
  ghost predicate BfsLoopInv<T(!new)>(N: T -> seq<T>, s: T, r: seq<T>, cut: seq<nat>, queue: seq<T>)
  {
    && BfsCutsFit(N, r, cut) && BfsConsumed(N, r, cut)
    && (r == [] ==> queue == [s])
    && (r != [] ==> r[0] == s && queue == BfsQueue(N, r, cut, 0))
    && IsBfsOrder(N, r)
  }

  /** A round of the loop that takes an already visited vertex off the
      front. */
  lemma BfsLoopSkip<T(!new)>(N: T -> seq<T>, s: T, r: seq<T>, cut: seq<nat>, queue: seq<T>) returns (cut': seq<nat>)
    requires BfsLoopInv(N, s, r, cut, queue) && queue != [] && queue[0] in r
    ensures BfsLoopInv(N, s, r, cut', queue[1..])
  {
    var j := BfsPop(N, r, cut, 0);
    cut' := BfsSkip(N, s, r, cut, queue, j);
  }

  /** A round of the loop that takes a new vertex off the front: it is
      visited, extending the breadth-first order, and (unless the search
      stops there) its unvisited neighbours are enqueued. */
  lemma BfsLoopVisit<T(!new)>(N: T -> seq<T>, s: T, r: seq<T>, cut: seq<nat>, queue: seq<T>) returns (cut': seq<nat>)
    requires BfsLoopInv(N, s, r, cut, queue) && queue != [] && queue[0] !in r
    ensures IsBfsOrder(N, r + [queue[0]]) && (r + [queue[0]])[0] == s
    ensures BfsLoopInv(N, s, r + [queue[0]], cut', queue[1..] + Fresh(N(queue[0]), r + [queue[0]]))
  {
    if r == [] {
      BfsPush(N, [], [], s, 0);
      BfsOrderExtend(N, [], s);
      assert [] + [s] == [s] && queue[1..] == [];
      assert [] + Fresh(N(s), [s]) == Fresh(N(s), [s]);
      cut' := [0];
    } else {
      var j := BfsPop(N, r, cut, 0);
      BfsQueueFront(N, r, cut, 0);
      cut' := BfsVisit(N, s, r, cut, queue, j);
    }
  }

  /** Dequeuing an already visited vertex only advances a cut. */
  lemma BfsSkip<T(!new)>(N: T -> seq<T>, s: T, r: seq<T>, cut: seq<nat>, queue: seq<T>, j: nat) returns (cut': seq<nat>)
    requires BfsCutsFit(N, r, cut) && BfsConsumed(N, r, cut) && IsBfsOrder(N, r)
    requires r != [] && r[0] == s && queue == BfsQueue(N, r, cut, 0) && queue != []
    requires j < |r| && cut[j] < |Enqueued(N, r, j)| && queue[0] == Enqueued(N, r, j)[cut[j]]
    requires BfsCutsFit(N, r, cut[j := cut[j] + 1]) && BfsQueue(N, r, cut[j := cut[j] + 1], 0) == queue[1..]
    requires queue[0] in r
    ensures BfsLoopInv(N, s, r, cut', queue[1..])
  {
    BfsConsumedAfterPop(N, r, cut, j, queue[0]);
    cut' := cut[j := cut[j] + 1];
  }

  /** Dequeuing a new vertex visits it and enqueues its unvisited neighbours. */
  lemma BfsVisit<T(!new)>(N: T -> seq<T>, s: T, r: seq<T>, cut: seq<nat>, queue: seq<T>, j: nat) returns (cut': seq<nat>)
    requires BfsCutsFit(N, r, cut) && BfsConsumed(N, r, cut) && IsBfsOrder(N, r)
    requires r != [] && r[0] == s && queue == BfsQueue(N, r, cut, 0) && queue != []
    requires j < |r| && cut[j] < |Enqueued(N, r, j)| && queue[0] == Enqueued(N, r, j)[cut[j]]
    requires BfsCutsFit(N, r, cut[j := cut[j] + 1]) && BfsQueue(N, r, cut[j := cut[j] + 1], 0) == queue[1..]
    requires queue[0] !in r && NextBfs(N, r) == Some(queue[0])
    ensures var v := queue[0];
      && IsBfsOrder(N, r + [v]) && (r + [v])[0] == s
      && BfsLoopInv(N, s, r + [v], cut', queue[1..] + Fresh(N(v), r + [v]))
  {
    var v := queue[0];
    BfsConsumedAfterPop(N, r, cut, j, v);
    var c := cut[j := cut[j] + 1];
    BfsPush(N, r, c, v, 0);
    BfsOrderExtend(N, r, v);
    cut' := c + [0];
  }

  /** The loop ends with an empty queue only once the search is exhausted. */
  lemma BfsLoopExhausted<T(!new)>(N: T -> seq<T>, s: T, r: seq<T>, cut: seq<nat>)
    requires BfsLoopInv(N, s, r, cut, [])
    ensures r != [] && NextBfs(N, r) == None
  {
    BfsQueueFront(N, r, cut, 0);
  }
}
