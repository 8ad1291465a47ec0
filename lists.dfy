/** Sequence helpers standing for the Python list operations the graph code uses:
    `list.remove(x)` (first occurrence), `reversed(...)` and `sorted(...)` on
    single-character labels. */
module Lists {

  /** An optional argument: Python's `None` or a value. */
  datatype Option<T> = None | Some(value: T)

  /** The elements of a list, as a set. */
  function Elems<T>(s: seq<T>): set<T>
  {
    set x | x in s
  }

  /** No element occurs twice. */
  predicate Distinct<T(==)>(s: seq<T>)
  {
    forall i, j :: 0 <= i < j < |s| ==> s[i] != s[j]
  }

  /** Python's `s.remove(x)`: drop the first occurrence of `x`; the caller
      must know `x` is present (Python raises ValueError otherwise). */
  function RemoveFirst<T(==)>(s: seq<T>, x: T): (r: seq<T>)
    requires x in s
    ensures |r| == |s| - 1
    ensures multiset(r) == multiset(s) - multiset{x}
  {
    assert s == [s[0]] + s[1..];
    if s[0] == x then s[1..] else [s[0]] + RemoveFirst(s[1..], x)
  }

  lemma RemoveFirstIn<T>(s: seq<T>, x: T, y: T)
    requires x in s
    ensures y in RemoveFirst(s, x) ==> y in s
  {
    if y in RemoveFirst(s, x) {
      assert y in multiset(RemoveFirst(s, x));
    }
  }

  /** `remove(x)` leaves the count of every other element alone. */
  lemma RemoveFirstCount<T>(s: seq<T>, x: T, y: T)
    requires x in s && y != x
    ensures multiset(RemoveFirst(s, x))[y] == multiset(s)[y]
  {
    assert multiset{x}[y] == 0;
  }

  /** On a duplicate-free list, `remove` deletes exactly that element. */
  lemma {:induction false} RemoveFirstDistinct<T>(s: seq<T>, x: T)
    requires x in s && Distinct(s)
    ensures Distinct(RemoveFirst(s, x))
    ensures forall y :: y in RemoveFirst(s, x) <==> y in s && y != x
  {
    assert s == [s[0]] + s[1..];
    assert Distinct(s[1..]);
    assert s[0] !in s[1..];
    if s[0] != x {
      RemoveFirstDistinct(s[1..], x);
      DistinctCons(s[0], RemoveFirst(s[1..], x));
    }
  }

  lemma DistinctCons<T>(a: T, t: seq<T>)
    requires Distinct(t) && a !in t
    ensures Distinct([a] + t)
  {
    var s := [a] + t;
    forall i, j | 0 <= i < j < |s| ensures s[i] != s[j] {
      if i > 0 { assert s[i] == t[i - 1] && s[j] == t[j - 1]; }
      else { assert s[j] == t[j - 1]; }
    }
  }

  lemma DistinctAppend<T>(t: seq<T>, a: T)
    requires Distinct(t) && a !in t
    ensures Distinct(t + [a])
  {
    var s := t + [a];
    forall i, j | 0 <= i < j < |s| ensures s[i] != s[j] {
      assert s[i] == t[i];
      if j < |t| { assert s[j] == t[j]; }
    }
  }

  /** Appending `x` unless it is already present keeps a list without
      repeats and adds `x` to its elements. */
  lemma AppendIfNew<T>(t: seq<T>, K: set<T>, x: T)
    requires Distinct(t) && Elems(t) == K
    ensures Distinct(t + (if x in K then [] else [x]))
    ensures Elems(t + (if x in K then [] else [x])) == K + {x}
  {
    if x !in K {
      DistinctAppend(t, x);
      assert Elems(t + [x]) == Elems(t) + {x};
    } else {
      assert t + [] == t;
    }
  }

  lemma DistinctConcat<T>(a: seq<T>, b: seq<T>)
    requires Distinct(a) && Distinct(b) && forall x :: x in a ==> x !in b
    ensures Distinct(a + b)
  {
    var s := a + b;
    forall i, j | 0 <= i < j < |s| ensures s[i] != s[j] {
      if j < |a| { assert s[i] == a[i] && s[j] == a[j]; }
      else if i >= |a| { assert s[i] == b[i - |a|] && s[j] == b[j - |a|]; }
      else { assert s[i] == a[i] && s[j] == b[j - |a|] && s[i] in a; }
    }
  }

  /** A duplicate-free list has as many elements as its set. */
  lemma {:induction false} DistinctCard<T>(s: seq<T>)
    requires Distinct(s)
    ensures |Elems(s)| == |s|
  {
    if s != [] {
      var t := s[..|s| - 1];
      assert Distinct(t);
      DistinctCard(t);
      assert s == t + [s[|s| - 1]];
      assert s[|s| - 1] !in t;
      assert Elems(s) == Elems(t) + {s[|s| - 1]};
    }
  }

  /** Python's `reversed(s)`. */
  function Reverse<T>(s: seq<T>): (r: seq<T>)
    ensures |r| == |s|
    ensures forall i :: 0 <= i < |s| ==> r[i] == s[|s| - 1 - i]
  {
    if s == [] then [] else Reverse(s[1..]) + [s[0]]
  }

  lemma ReverseCons<T>(x: T, s: seq<T>)
    ensures Reverse([x] + s) == Reverse(s) + [x]
  {
    assert ([x] + s)[1..] == s;
  }

  lemma ReverseElems<T>(s: seq<T>)
    ensures forall x :: x in Reverse(s) <==> x in s
  {
    var r := Reverse(s);
    forall x | x in s ensures x in r {
      var i :| 0 <= i < |s| && s[i] == x;
      assert r[|s| - 1 - i] == x;
    }
  }

  predicate SortedChars(s: seq<char>)
  {
    forall i, j :: 0 <= i < j < |s| ==> s[i] <= s[j]
  }

  /** Insert `x` before the first element it does not exceed. */
  function Insert(x: char, s: seq<char>): seq<char>
  {
    if s == [] || x <= s[0] then [x] + s else [s[0]] + Insert(x, s[1..])
  }

  lemma {:induction false} InsertElems(x: char, s: seq<char>)
    ensures multiset(Insert(x, s)) == multiset(s) + multiset{x}
    ensures forall y :: y in Insert(x, s) <==> y == x || y in s
  {
    if !(s == [] || x <= s[0]) {
      InsertElems(x, s[1..]);
      assert s == [s[0]] + s[1..];
    }
  }

  lemma {:induction false} InsertSorted(x: char, s: seq<char>)
    requires SortedChars(s)
    ensures SortedChars(Insert(x, s))
  {
    if s == [] || x <= s[0] {
      var r := [x] + s;
      forall i, j | 0 <= i < j < |r| ensures r[i] <= r[j] {
        if i == 0 { assert r[j] == s[j - 1] && s[0] <= s[j - 1]; }
        else { assert r[i] == s[i - 1] && r[j] == s[j - 1]; }
      }
    } else {
      var t := Insert(x, s[1..]);
      assert SortedChars(s[1..]);
      InsertSorted(x, s[1..]);
      InsertElems(x, s[1..]);
      var r := [s[0]] + t;
      forall k | 0 <= k < |t| ensures s[0] <= t[k] {
        assert t[k] in t;
        if t[k] != x {
          var i :| 0 <= i < |s[1..]| && s[1..][i] == t[k];
          assert s[i + 1] == t[k];
        }
      }
      forall i, j | 0 <= i < j < |r| ensures r[i] <= r[j] {
        if i == 0 { assert r[j] == t[j - 1]; }
        else { assert r[i] == t[i - 1] && r[j] == t[j - 1]; }
      }
    }
  }

  /** Python's `sorted(s)` on single-character strings, by insertion. */
  function SortChars(s: seq<char>): seq<char>
  {
    if s == [] then [] else Insert(s[0], SortChars(s[1..]))
  }

  /** `sorted` orders by code point and returns a permutation. */
  lemma {:induction false} SortCharsSpec(s: seq<char>)
    ensures SortedChars(SortChars(s))
    ensures multiset(SortChars(s)) == multiset(s)
  {
    if s != [] {
      SortCharsSpec(s[1..]);
      InsertSorted(s[0], SortChars(s[1..]));
      InsertElems(s[0], SortChars(s[1..]));
      assert s == [s[0]] + s[1..];
    }
  }
}
