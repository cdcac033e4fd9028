/** A vertex of the subdivision (pydcel/dcel/vertex.py): its location, the indices of the
    half-edges leaving it, and its index in the owning DCEL. */
module Vertices {
  import opened Wrappers
  import opened Points

  datatype Vertex = Vertex(point: Point, hedgelist: seq<nat>, index: Option<nat>)

  /** A fresh vertex: no incident half-edges and no index yet. */
  function NewVertex(x: real, y: real): (v: Vertex)
    ensures v.point == Point(x, y) && v.hedgelist == [] && v.index.None?
    ensures Degree(v) == 0
  {
    Vertex(Point(x, y), [], None)
  }

  function Coordinates(v: Vertex): (c: (real, real))
    ensures Point(c.0, c.1) == v.point
  {
    (v.point.x, v.point.y)
  }

  /** The number of half-edges leaving the vertex. */
  function Degree(v: Vertex): (d: nat)
    ensures d == |v.hedgelist|
  {
    |v.hedgelist|
  }

  /** Vertex equality compares coordinates only. */
  predicate SameLocation(a: Vertex, b: Vertex)
  {
    a.point.x == b.point.x && a.point.y == b.point.y
  }

  /** Equality by location ignores the index and the incident list and is an equivalence. */
  lemma SameLocationIsLocation(a: Vertex, b: Vertex, c: Vertex, l: seq<nat>, i: Option<nat>)
    ensures SameLocation(a, b) <==> a.point == b.point
    ensures SameLocation(a.(hedgelist := l, index := i), b) == SameLocation(a, b)
    ensures SameLocation(a, a)
    ensures SameLocation(a, b) ==> SameLocation(b, a)
    ensures SameLocation(a, b) && SameLocation(b, c) ==> SameLocation(a, c)
  {
  }

  // ---------------------------------------------------------------------------
  // Sorting the incident list by a key, descending and stable.
  // key(h) is the angle of half-edge h, which is not computed here.
  // ---------------------------------------------------------------------------

  /** Insert x behind every entry whose key is at least x's key: the step a stable
      descending insertion sort takes for the next element. */
  function InsertLast(t: seq<nat>, x: nat, key: nat -> real): (r: seq<nat>)
    ensures |r| == |t| + 1
  {
    if t == [] then [x]
    else
      var last := t[|t| - 1];
      if key(last) < key(x) then InsertLast(t[..|t| - 1], x, key) + [last]
      else t + [x]
  }

  /** What `hedgelist.sort(key=..., reverse=True)` produces. */
  function SortDesc(s: seq<nat>, key: nat -> real): (r: seq<nat>)
    ensures |r| == |s|
  {
    if s == [] then []
    else InsertLast(SortDesc(s[..|s| - 1], key), s[|s| - 1], key)
  }

  lemma {:induction false} InsertLastPermutes(t: seq<nat>, x: nat, key: nat -> real)
    ensures multiset(InsertLast(t, x, key)) == multiset(t) + multiset{x}
  {
    if t != [] {
      var last := t[|t| - 1];
      assert t == t[..|t| - 1] + [last];
      if key(last) < key(x) {
        InsertLastPermutes(t[..|t| - 1], x, key);
      }
    }
  }

  /** The sorted list is a permutation of the original one. */
  lemma {:induction false} SortDescPermutes(s: seq<nat>, key: nat -> real)
    ensures multiset(SortDesc(s, key)) == multiset(s)
  {
    if s != [] {
      assert s == s[..|s| - 1] + [s[|s| - 1]];
      SortDescPermutes(s[..|s| - 1], key);
      InsertLastPermutes(SortDesc(s[..|s| - 1], key), s[|s| - 1], key);
    }
  }

  ghost predicate SortedDesc(s: seq<nat>, key: nat -> real)
  {
    forall i, j :: 0 <= i < j < |s| ==> key(s[j]) <= key(s[i])
  }

  /** The entries of s whose key is k, in their order in s. */
  function WithKey(s: seq<nat>, key: nat -> real, k: real): seq<nat>
  {
    if s == [] then []
    else WithKey(s[..|s| - 1], key, k) + (if key(s[|s| - 1]) == k then [s[|s| - 1]] else [])
  }

  lemma {:induction false} InsertLastSorted(t: seq<nat>, x: nat, key: nat -> real)
    requires SortedDesc(t, key)
    ensures SortedDesc(InsertLast(t, x, key), key)
  {
    if t != [] {
      var last := t[|t| - 1];
      var t' := t[..|t| - 1];
      if key(last) < key(x) {
        InsertLastSorted(t', x, key);
        var r' := InsertLast(t', x, key);
        InsertLastPermutes(t', x, key);
        forall i | 0 <= i < |r'| ensures key(last) <= key(r'[i]) {
          assert r'[i] in multiset(r');
          if r'[i] != x {
            assert r'[i] in t';
            var j :| 0 <= j < |t'| && t'[j] == r'[i];
            assert t[j] == r'[i];
          }
        }
      }
    }
  }

  /** The sorted list has non-increasing keys. */
  lemma {:induction false} SortDescSorted(s: seq<nat>, key: nat -> real)
    ensures SortedDesc(SortDesc(s, key), key)
  {
    if s != [] {
      SortDescSorted(s[..|s| - 1], key);
      InsertLastSorted(SortDesc(s[..|s| - 1], key), s[|s| - 1], key);
    }
  }

  lemma {:induction false} WithKeyAppend(a: seq<nat>, b: seq<nat>, key: nat -> real, k: real)
    ensures WithKey(a + b, key, k) == WithKey(a, key, k) + WithKey(b, key, k)
  {
    if b == [] {
      assert a + b == a;
    } else {
      assert (a + b)[..|a + b| - 1] == a + b[..|b| - 1];
      WithKeyAppend(a, b[..|b| - 1], key, k);
    }
  }

  lemma WithKeySingle(x: nat, key: nat -> real, k: real)
    ensures WithKey([x], key, k) == if key(x) == k then [x] else []
  {
    assert [x][..0] == [];
  }

  lemma CommuteEmpty(a: seq<nat>, b: seq<nat>, c: seq<nat>)
    requires b == [] || c == []
    ensures a + b + c == a + c + b
  {
  }

  lemma {:induction false} InsertLastWithKey(t: seq<nat>, x: nat, key: nat -> real, k: real)
    ensures WithKey(InsertLast(t, x, key), key, k) == WithKey(t, key, k) + WithKey([x], key, k)
  {
    if t == [] {
      WithKeySingle(x, key, k);
    } else {
      var last := t[|t| - 1];
      var t' := t[..|t| - 1];
      assert t == t' + [last];
      WithKeyAppend(t', [last], key, k);
      if key(last) < key(x) {
        var r' := InsertLast(t', x, key);
        assert InsertLast(t, x, key) == r' + [last];
        InsertLastWithKey(t', x, key, k);
        WithKeyAppend(r', [last], key, k);
        WithKeySingle(x, key, k);
        WithKeySingle(last, key, k);
        CommuteEmpty(WithKey(t', key, k), WithKey([x], key, k), WithKey([last], key, k));
      } else {
        assert InsertLast(t, x, key) == t + [x];
        WithKeyAppend(t, [x], key, k);
      }
    }
  }

  /** Stability: the entries sharing any one key keep their relative order. */
  lemma {:induction false} SortDescStable(s: seq<nat>, key: nat -> real, k: real)
    ensures WithKey(SortDesc(s, key), key, k) == WithKey(s, key, k)
  {
    if s != [] {
      var s' := s[..|s| - 1];
      SortDescStable(s', key, k);
      InsertLastWithKey(SortDesc(s', key), s[|s| - 1], key, k);
      assert [s[|s| - 1]][..0] == [];
    }
  }

  /** Where the inner loop of the sort stops, x belongs: behind t[..j], in front of t[j..]. */
  lemma {:induction false} InsertLastAt(t: seq<nat>, j: nat, x: nat, key: nat -> real)
    requires j <= |t| && (j == 0 || key(x) <= key(t[j - 1]))
    requires forall m :: j <= m < |t| ==> key(t[m]) < key(x)
    ensures InsertLast(t, x, key) == t[..j] + [x] + t[j..]
  {
    if j == |t| {
      assert t[..j] == t && t[j..] == [];
    } else {
      var t' := t[..|t| - 1];
      InsertLastAt(t', j, x, key);
      assert t'[..j] == t[..j] && t'[j..] + [t[|t| - 1]] == t[j..];
    }
  }

  lemma SwapStep(t: seq<nat>, j: nat, x: nat, rest: seq<nat>)
    requires 0 < j <= |t|
    ensures (t[..j] + [x] + t[j..] + rest)[j - 1 := x][j := t[j - 1]] == t[..j - 1] + [x] + t[j - 1..] + rest
  {
    var u := (t[..j] + [x] + t[j..] + rest)[j - 1 := x][j := t[j - 1]];
    var w := t[..j - 1] + [x] + t[j - 1..] + rest;
    assert |u| == |w|;
    forall m | 0 <= m < |u| ensures u[m] == w[m] {
      if m < j - 1 {
      } else if m == j - 1 {
      } else if m == j {
      } else {
      }
    }
  }

  /** Sorting the incident list in place: a stable insertion sort, descending by key. */
  method SortIncident(a: array<nat>, key: nat -> real)
    modifies a
    ensures a[..] == SortDesc(old(a[..]), key)
  {
    ghost var s := a[..];
    var i := 0;
    while i < a.Length
      invariant 0 <= i <= a.Length
      invariant a[..i] == SortDesc(s[..i], key)
      invariant a[i..] == s[i..]
    {
      assert s[..i + 1] == s[..i] + [s[i]];
      SinkLast(a, i, key);
      i := i + 1;
    }
    assert s[..a.Length] == s;
  }

  /** sortincident on a vertex's list: copy it into an array, sort that in place, read it back. */
  method SortedList(l: seq<nat>, key: nat -> real) returns (sorted: seq<nat>)
    ensures sorted == SortDesc(l, key)
  {
    var a := new nat[|l|](i requires 0 <= i < |l| => l[i]);
    assert a[..] == l;
    SortIncident(a, key);
    sorted := a[..];
  }

  /** The inner loop of SortIncident: a[i] sinks left past the entries with smaller keys. */
  method SinkLast(a: array<nat>, i: nat, key: nat -> real)
    requires i < a.Length
    modifies a
    ensures a[..i + 1] == InsertLast(old(a[..i]), old(a[i]), key)
    ensures a[i + 1..] == old(a[i + 1..])
  {
    ghost var t, rest := a[..i], a[i + 1..];
    var x := a[i];
    var j := i;
    assert a[..] == t[..j] + [x] + t[j..] + rest;
    while 0 < j && key(a[j - 1]) < key(x)
      invariant 0 <= j <= i
      invariant a[..] == t[..j] + [x] + t[j..] + rest
      invariant forall m :: j <= m < i ==> key(t[m]) < key(x)
    {
      assert a[j - 1] == t[j - 1];
      SwapStep(t, j, x, rest);
      a[j - 1], a[j] := x, a[j - 1];
      j := j - 1;
    }
    if 0 < j {
      assert a[j - 1] == t[j - 1];
    }
    InsertLastAt(t, j, x, key);
    assert a[..i + 1] == a[..][..i + 1] == t[..j] + [x] + t[j..];
    assert a[i + 1..] == a[..][i + 1..] == rest;
  }

  /** Sorting the incident list permutes it, so the degree is unchanged. */
  lemma SortKeepsDegree(v: Vertex, key: nat -> real)
    ensures Degree(v.(hedgelist := SortDesc(v.hedgelist, key))) == Degree(v)
    ensures multiset(SortDesc(v.hedgelist, key)) == multiset(v.hedgelist)
  {
    SortDescPermutes(v.hedgelist, key);
  }
}
