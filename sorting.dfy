/** Python's `sorted(xs, key=...)`: a stable sort by a total preorder `le`
    ("`key(a) <= key(b)`"). */
module Sorting {
  import opened Common

  ghost predicate TotalPreorder<T(!new)>(le: (T, T) -> bool) {
    && (forall a, b :: le(a, b) || le(b, a))
    && (forall a, b, c :: le(a, b) && le(b, c) ==> le(a, c))
  }

  ghost predicate Sorted<T>(s: seq<T>, le: (T, T) -> bool) {
    forall i, j | 0 <= i < j < |s| :: le(s[i], s[j])
  }

  /** Inserts `x` after every element that is not greater than it. */
  function Insert<T>(x: T, s: seq<T>, le: (T, T) -> bool): (r: seq<T>)
    ensures multiset(r) == multiset(s) + multiset{x}
    ensures |r| == |s| + 1
  {
    if s == [] then [x]
    else if le(s[0], x) then
      assert s == [s[0]] + s[1..];
      [s[0]] + Insert(x, s[1..], le)
    else [x] + s
  }

  /** `sorted(s)`: each element is inserted into the sorted prefix before it. */
  function Sort<T>(s: seq<T>, le: (T, T) -> bool): (r: seq<T>)
    ensures multiset(r) == multiset(s)
    ensures |r| == |s|
  {
    if s == [] then []
    else
      assert s == s[..|s| - 1] + [s[|s| - 1]];
      Insert(s[|s| - 1], Sort(s[..|s| - 1], le), le)
  }

  lemma {:induction false} InsertSorted<T(!new)>(x: T, s: seq<T>, le: (T, T) -> bool)
    requires TotalPreorder(le)
    requires Sorted(s, le)
    ensures Sorted(Insert(x, s, le), le)
    decreases |s|
  {
    if s != [] && le(s[0], x) {
      var rest := Insert(x, s[1..], le);
      InsertSorted(x, s[1..], le);
      assert multiset(rest) == multiset(s[1..]) + multiset{x};
      forall j | 0 <= j < |rest|
        ensures le(s[0], rest[j])
      {
        assert rest[j] in multiset(rest);
        if rest[j] != x {
          assert rest[j] in multiset(s[1..]);
          var k :| 0 <= k < |s[1..]| && s[1..][k] == rest[j];
          assert s[k + 1] == rest[j];
        }
      }
    }
  }

  /** `sorted` returns its input in non-decreasing order. */
  lemma {:induction false} SortSorted<T(!new)>(s: seq<T>, le: (T, T) -> bool)
    requires TotalPreorder(le)
    ensures Sorted(Sort(s, le), le)
    decreases |s|
  {
    if s != [] {
      SortSorted(s[..|s| - 1], le);
      InsertSorted(s[|s| - 1], Sort(s[..|s| - 1], le), le);
    }
  }

  /** The head of a sorted non-empty permutation is a least element of the input. */
  lemma SortHeadLeast<T(!new)>(s: seq<T>, le: (T, T) -> bool)
    requires TotalPreorder(le) && |s| > 0
    ensures forall x | x in s :: le(Sort(s, le)[0], x)
  {
    var r := Sort(s, le);
    SortSorted(s, le);
    forall x | x in s
      ensures le(r[0], x)
    {
      assert x in multiset(s);
      assert x in multiset(r);
      var k :| 0 <= k < |r| && r[k] == x;
    }
  }

  /** The elements of `s` equivalent to `c` under `le`, in their order in `s`. */
  function Equivalents<T>(s: seq<T>, le: (T, T) -> bool, c: T): seq<T> {
    if s == [] then []
    else (if le(s[0], c) && le(c, s[0]) then [s[0]] else []) + Equivalents(s[1..], le, c)
  }

  lemma {:induction false} EquivalentsAppend<T>(a: seq<T>, b: seq<T>, le: (T, T) -> bool, c: T)
    ensures Equivalents(a + b, le, c) == Equivalents(a, le, c) + Equivalents(b, le, c)
  {
    if a != [] {
      assert (a + b)[0] == a[0] && (a + b)[1..] == a[1..] + b;
      EquivalentsAppend(a[1..], b, le, c);
    } else {
      assert a + b == b;
    }
  }

  lemma {:induction false} EquivalentsNone<T>(s: seq<T>, le: (T, T) -> bool, c: T)
    requires forall i | 0 <= i < |s| :: !(le(s[i], c) && le(c, s[i]))
    ensures Equivalents(s, le, c) == []
  {
    if s != [] {
      EquivalentsNone(s[1..], le, c);
    }
  }

  lemma SortedTail<T>(s: seq<T>, le: (T, T) -> bool)
    requires s != [] && Sorted(s, le)
    ensures Sorted(s[1..], le)
  {
    forall i, j | 0 <= i < j < |s[1..]|
      ensures le(s[1..][i], s[1..][j])
    {
      assert s[1..][i] == s[i + 1] && s[1..][j] == s[j + 1];
    }
  }

  /** Passing over a head not greater than `x` keeps it in front. */
  lemma InsertEquivalentsPass<T>(x: T, s: seq<T>, le: (T, T) -> bool, c: T)
    requires s != [] && le(s[0], x)
    requires Equivalents(Insert(x, s[1..], le), le, c) ==
      Equivalents(s[1..], le, c) + (if le(x, c) && le(c, x) then [x] else [])
    ensures Equivalents(Insert(x, s, le), le, c) ==
      Equivalents(s, le, c) + (if le(x, c) && le(c, x) then [x] else [])
  {
    var rest := Insert(x, s[1..], le);
    var head := if le(s[0], c) && le(c, s[0]) then [s[0]] else [];
    var r := [s[0]] + rest;
    assert Insert(x, s, le) == r;
    assert r[0] == s[0] && r[1..] == rest;
    assert Equivalents(r, le, c) == head + Equivalents(rest, le, c);
    assert Equivalents(s, le, c) == head + Equivalents(s[1..], le, c);
    var tail := if le(x, c) && le(c, x) then [x] else [];
    assert Equivalents(rest, le, c) == Equivalents(s[1..], le, c) + tail;
    ConcatAssoc(head, Equivalents(s[1..], le, c), tail);
  }

  /** Stopping before a head greater than `x`: no element of the sorted list
      is equivalent to `x`. */
  lemma InsertEquivalentsStop<T(!new)>(x: T, s: seq<T>, le: (T, T) -> bool, c: T)
    requires TotalPreorder(le)
    requires Sorted(s, le)
    requires s != [] && !le(s[0], x)
    ensures Equivalents(Insert(x, s, le), le, c) ==
      Equivalents(s, le, c) + (if le(x, c) && le(c, x) then [x] else [])
  {
    assert Insert(x, s, le) == [x] + s;
    assert ([x] + s)[0] == x && ([x] + s)[1..] == s;
    if le(x, c) && le(c, x) {
      forall i | 0 <= i < |s|
        ensures !(le(s[i], c) && le(c, s[i]))
      {
        if i > 0 {
          assert le(s[0], s[i]);
        }
      }
      EquivalentsNone(s, le, c);
    }
  }

  /** Inserting `x` into a sorted list puts it after every element equivalent
      to it. */
  lemma {:induction false} InsertEquivalents<T(!new)>(x: T, s: seq<T>, le: (T, T) -> bool, c: T)
    requires TotalPreorder(le)
    requires Sorted(s, le)
    ensures Equivalents(Insert(x, s, le), le, c) ==
      Equivalents(s, le, c) + (if le(x, c) && le(c, x) then [x] else [])
    decreases |s|
  {
    if s == [] {
    } else if le(s[0], x) {
      SortedTail(s, le);
      InsertEquivalents(x, s[1..], le, c);
      InsertEquivalentsPass(x, s, le, c);
    } else {
      InsertEquivalentsStop(x, s, le, c);
    }
  }

  lemma SortStableStep<T(!new)>(front: seq<T>, last: T, sorted: seq<T>, le: (T, T) -> bool, c: T)
    requires TotalPreorder(le)
    requires Sorted(sorted, le)
    requires Equivalents(sorted, le, c) == Equivalents(front, le, c)
    ensures Equivalents(Insert(last, sorted, le), le, c) == Equivalents(front + [last], le, c)
  {
    InsertEquivalents(last, sorted, le, c);
    EquivalentsAppend(front, [last], le, c);
  }

  /** `sorted` is stable: the elements equivalent to any `c` keep their input
      order. */
  lemma {:induction false} SortStable<T(!new)>(s: seq<T>, le: (T, T) -> bool, c: T)
    requires TotalPreorder(le)
    ensures Equivalents(Sort(s, le), le, c) == Equivalents(s, le, c)
    decreases |s|
  {
    if s != [] {
      var front, last := s[..|s| - 1], s[|s| - 1];
      var sorted := Sort(front, le);
      assert Sort(s, le) == Insert(last, sorted, le);
      assert s == front + [last];
      SortStable(front, le, c);
      SortSorted(front, le);
      SortStableStep(front, last, sorted, le, c);
    }
  }
}
