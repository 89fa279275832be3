/** Shared vocabulary: optional values, uncaught Python exceptions, and
    Python's insertion-ordered dictionaries. */
module Common {

  /** Python's `None` versus a present value. */
  datatype Option<T> = None | Some(value: T)

  /** The outcome of a script step: a value, or an uncaught exception
      (ValueError from `int()`, IndexError, KeyError, ...) that ends the run. */
  datatype Outcome<T> = Ok(value: T) | Crash(reason: string)

  /** Regrouping a concatenation, for proofs where the solver does not find
      it unaided. */
  lemma ConcatAssoc<T>(a: seq<T>, b: seq<T>, c: seq<T>)
    ensures a + (b + c) == (a + b) + c
  {
  }

  /** A Python `dict`: a map plus the order in which keys were first inserted.
      Overwriting a key keeps its original position. */
  datatype ODict<K, V> = ODict(keys: seq<K>, entries: map<K, V>) {

    ghost predicate Valid() {
      && (forall i, j | 0 <= i < j < |keys| :: keys[i] != keys[j])
      && entries.Keys == (set k | k in keys)
    }

    /** `d[k] = v` */
    function Put(k: K, v: V): (d: ODict<K, V>)
      requires Valid()
      ensures d.Valid()
      ensures k in d.entries && d.entries[k] == v
      ensures d.entries.Keys == entries.Keys + {k}
      ensures forall k' | k' in entries && k' != k :: d.entries[k'] == entries[k']
      ensures k in entries ==> d.keys == keys
      ensures k !in entries ==> d.keys == keys + [k]
    {
      if k in entries then ODict(keys, entries[k := v])
      else ODict(keys + [k], entries[k := v])
    }

    /** Writing a key twice leaves only the second value. */
    lemma PutTwice(k: K, v: V, v': V)
      requires Valid()
      ensures Put(k, v).Put(k, v') == Put(k, v')
    {
      assert entries[k := v][k := v'] == entries[k := v'];
    }

    /** The values in key-insertion order (`d.values()`). */
    function Values(): (vs: seq<V>)
      requires Valid()
      ensures |vs| == |keys|
      ensures forall i | 0 <= i < |keys| :: vs[i] == entries[keys[i]]
    {
      ValuesOf(keys, entries)
    }
  }

  function EmptyDict<K, V>(): (d: ODict<K, V>)
    ensures d.Valid() && d.keys == [] && d.entries == map[]
  {
    ODict([], map[])
  }

  function ValuesOf<K, V>(ks: seq<K>, m: map<K, V>): (vs: seq<V>)
    requires forall k | k in ks :: k in m
    ensures |vs| == |ks|
    ensures forall i | 0 <= i < |ks| :: vs[i] == m[ks[i]]
  {
    if ks == [] then [] else [m[ks[0]]] + ValuesOf(ks[1..], m)
  }

  /** Sum of a sequence of integers. */
  function Sum(xs: seq<int>): int {
    if xs == [] then 0 else Sum(xs[..|xs| - 1]) + xs[|xs| - 1]
  }

  lemma {:induction false} SumAppend(xs: seq<int>, ys: seq<int>)
    ensures Sum(xs + ys) == Sum(xs) + Sum(ys)
    decreases |ys|
  {
    if ys == [] {
      assert xs + ys == xs;
    } else {
      var ys' := ys[..|ys| - 1];
      assert (xs + ys)[..|xs + ys| - 1] == xs + ys';
      SumAppend(xs, ys');
    }
  }

  /** Distinct elements of a sequence, each at the place of its first occurrence. */
  function Dedup<T(==)>(xs: seq<T>): (r: seq<T>)
    ensures forall i, j | 0 <= i < j < |r| :: r[i] != r[j]
    ensures forall x | x in r :: x in xs
    ensures forall x | x in xs :: x in r
    ensures |r| <= |xs|
  {
    if xs == [] then []
    else
      var r' := Dedup(xs[..|xs| - 1]);
      var x := xs[|xs| - 1];
      assert forall y | y in xs :: y in xs[..|xs| - 1] || y == x;
      if x in r' then r' else r' + [x]
  }

  /** Appending an element extends the deduplicated sequence exactly when the
      element is new. */
  lemma DedupSnoc<T>(xs: seq<T>, x: T)
    ensures Dedup(xs + [x]) == if x in xs then Dedup(xs) else Dedup(xs) + [x]
  {
    assert (xs + [x])[..|xs + [x]| - 1] == xs;
  }

  /** Two equal places make an element occur at least twice. */
  lemma CountTwo<T>(s: seq<T>, i: nat, j: nat)
    requires i < j < |s|
    ensures s[i] == s[j] ==> multiset(s)[s[i]] >= 2
  {
    if s[i] == s[j] {
      assert s == s[..i] + [s[i]] + s[i + 1..j] + [s[j]] + s[j + 1..];
    }
  }

  /** In a sequence without repetitions every element occurs at most once. */
  lemma {:induction false} DistinctCount<T>(s: seq<T>, x: T)
    requires forall i, j | 0 <= i < j < |s| :: s[i] != s[j]
    ensures multiset(s)[x] <= 1
  {
    if s != [] {
      var f := s[..|s| - 1];
      assert s == f + [s[|s| - 1]];
      DistinctCount(f, x);
      if x == s[|s| - 1] {
        assert forall k | 0 <= k < |f| :: f[k] != x;
        assert x !in multiset(f);
      }
    }
  }

  /** A rearrangement of a sequence without repetitions has none either. */
  lemma PermDistinct<T>(s: seq<T>, r: seq<T>)
    requires multiset(s) == multiset(r)
    requires forall i, j | 0 <= i < j < |s| :: s[i] != s[j]
    ensures forall i, j | 0 <= i < j < |r| :: r[i] != r[j]
  {
    forall i, j | 0 <= i < j < |r|
      ensures r[i] != r[j]
    {
      CountTwo(r, i, j);
      DistinctCount(s, r[i]);
    }
  }

  // ------------------------------------------- dictionaries filled in a loop

  /** `d[k] = v` for the entry each line yields, in line order, starting from
      an empty dict: `parse` gives a line's entry, no entry, or the exception
      that ends the loop. */
  function Assign<L, K, V>(parse: L -> Outcome<Option<(K, V)>>, lines: seq<L>): Outcome<map<K, V>> {
    if lines == [] then Ok(map[])
    else
      match Assign(parse, lines[..|lines| - 1])
      case Crash(e) => Crash(e)
      case Ok(d) =>
        match parse(lines[|lines| - 1])
        case Crash(e) => Crash(e)
        case Ok(None) => Ok(d)
        case Ok(Some(kv)) => Ok(d[kv.0 := kv.1])
  }

  /** One more line: the loop's step. */
  lemma AssignSnoc<L, K, V>(parse: L -> Outcome<Option<(K, V)>>, lines: seq<L>, i: nat, d: map<K, V>)
    requires i < |lines| && Assign(parse, lines[..i]) == Ok(d)
    ensures Assign(parse, lines[..i + 1]) ==
      match parse(lines[i])
      case Crash(e) => Crash(e)
      case Ok(None) => Ok(d)
      case Ok(Some(kv)) => Ok(d[kv.0 := kv.1])
  {
    assert lines[..i + 1][..i] == lines[..i];
  }

  /** Once a prefix crashes, the whole loop ends with that crash. */
  lemma {:induction false} AssignCrashStays<L, K, V>(parse: L -> Outcome<Option<(K, V)>>, lines: seq<L>, i: nat)
    requires i <= |lines| && Assign(parse, lines[..i]).Crash?
    ensures Assign(parse, lines) == Assign(parse, lines[..i])
    decreases |lines| - i
  {
    if i < |lines| {
      assert lines[..i + 1][..i] == lines[..i];
      AssignCrashStays(parse, lines, i + 1);
    } else {
      assert lines[..i] == lines;
    }
  }

  /** Some line raises. */
  ghost predicate Raises<L, K, V>(parse: L -> Outcome<Option<(K, V)>>, lines: seq<L>) {
    exists i | 0 <= i < |lines| :: parse(lines[i]).Crash?
  }

  /** Some line yields an entry for key `k`. */
  ghost predicate Yields<L, K, V>(parse: L -> Outcome<Option<(K, V)>>, lines: seq<L>, k: K) {
    exists i | 0 <= i < |lines| :: parse(lines[i]).Ok? && parse(lines[i]).value.Some? && parse(lines[i]).value.value.0 == k
  }

  /** The loop raises exactly when some line does. */
  lemma {:induction false} AssignCrash<L, K, V>(parse: L -> Outcome<Option<(K, V)>>, lines: seq<L>)
    ensures Assign(parse, lines).Crash? <==> Raises(parse, lines)
  {
    if lines != [] {
      var front := lines[..|lines| - 1];
      AssignCrash(parse, front);
      if Raises(parse, front) {
        var i :| 0 <= i < |front| && parse(front[i]).Crash?;
        assert lines[i] == front[i];
      }
      if Raises(parse, lines) {
        var i :| 0 <= i < |lines| && parse(lines[i]).Crash?;
        if i < |front| {
          assert lines[i] == front[i];
        }
      }
    }
  }

  /** Without a crash, the keys are exactly those some line yields. */
  lemma {:induction false} AssignKeys<L, K, V>(parse: L -> Outcome<Option<(K, V)>>, lines: seq<L>)
    requires Assign(parse, lines).Ok?
    ensures forall k :: k in Assign(parse, lines).value <==> Yields(parse, lines, k)
  {
    if lines != [] {
      var front := lines[..|lines| - 1];
      AssignKeys(parse, front);
      forall k
        ensures k in Assign(parse, lines).value <==> Yields(parse, lines, k)
      {
        if Yields(parse, front, k) {
          var i :| 0 <= i < |front| && parse(front[i]).Ok? && parse(front[i]).value.Some? && parse(front[i]).value.value.0 == k;
          assert lines[i] == front[i];
        }
        if Yields(parse, lines, k) {
          var i :| 0 <= i < |lines| && parse(lines[i]).Ok? && parse(lines[i]).value.Some? && parse(lines[i]).value.value.0 == k;
          if i < |front| {
            assert lines[i] == front[i];
          }
        }
      }
    }
  }

  /** Line `i` is the last one yielding key `k`. */
  ghost predicate LastYields<L, K, V>(parse: L -> Outcome<Option<(K, V)>>, lines: seq<L>, k: K, i: int) {
    && 0 <= i < |lines| && parse(lines[i]).Ok? && parse(lines[i]).value.Some? && parse(lines[i]).value.value.0 == k
    && forall j | i < j < |lines| :: !(parse(lines[j]).Ok? && parse(lines[j]).value.Some? && parse(lines[j]).value.value.0 == k)
  }

  /** A later line overwrites an earlier one: each key holds the value of the
      last line yielding it. */
  lemma {:induction false} AssignLastWins<L, K, V>(parse: L -> Outcome<Option<(K, V)>>, lines: seq<L>, k: K)
    requires Assign(parse, lines).Ok? && k in Assign(parse, lines).value
    ensures exists i :: LastYields(parse, lines, k, i) && Assign(parse, lines).value[k] == parse(lines[i]).value.value.1
  {
    var front := lines[..|lines| - 1];
    var last := parse(lines[|lines| - 1]);
    if last.value.Some? && last.value.value.0 == k {
      assert LastYields(parse, lines, k, |lines| - 1);
    } else {
      AssignLastWins(parse, front, k);
      var i :| LastYields(parse, front, k, i) && Assign(parse, front).value[k] == parse(front[i]).value.value.1;
      assert lines[i] == front[i];
      forall j | i < j < |lines|
        ensures !(parse(lines[j]).Ok? && parse(lines[j]).value.Some? && parse(lines[j]).value.value.0 == k)
      {
        if j < |front| {
          assert lines[j] == front[j];
        }
      }
      assert LastYields(parse, lines, k, i);
    }
  }

  // ------------------------------------------- lines written one by one

  /** Each item mapped in order; the first exception ends the run. */
  function MapAll<L, T>(f: L -> Outcome<T>, xs: seq<L>): Outcome<seq<T>> {
    if xs == [] then Ok([])
    else
      match MapAll(f, xs[..|xs| - 1])
      case Crash(e) => Crash(e)
      case Ok(out) =>
        match f(xs[|xs| - 1])
        case Crash(e) => Crash(e)
        case Ok(y) => Ok(out + [y])
  }

  /** Once a prefix crashes, the whole run ends with that crash. */
  lemma {:induction false} MapAllCrashStays<L, T>(f: L -> Outcome<T>, xs: seq<L>, i: nat)
    requires i <= |xs| && MapAll(f, xs[..i]).Crash?
    ensures MapAll(f, xs) == MapAll(f, xs[..i])
    decreases |xs| - i
  {
    if i < |xs| {
      assert xs[..i + 1][..i] == xs[..i];
      MapAllCrashStays(f, xs, i + 1);
    } else {
      assert xs[..i] == xs;
    }
  }

  /** The run crashes exactly when some item does; otherwise item `i` of the
      output is the image of item `i`. */
  lemma {:induction false} MapAllSpec<L, T>(f: L -> Outcome<T>, xs: seq<L>)
    ensures MapAll(f, xs).Crash? <==> exists i | 0 <= i < |xs| :: f(xs[i]).Crash?
    ensures MapAll(f, xs).Ok? ==> |MapAll(f, xs).value| == |xs|
    ensures MapAll(f, xs).Ok? ==> forall i | 0 <= i < |xs| :: f(xs[i]) == Ok(MapAll(f, xs).value[i])
  {
    if xs != [] {
      var front := xs[..|xs| - 1];
      MapAllSpec(f, front);
      if exists i | 0 <= i < |front| :: f(front[i]).Crash? {
        var i :| 0 <= i < |front| && f(front[i]).Crash?;
        assert xs[i] == front[i];
      }
      if exists i | 0 <= i < |xs| :: f(xs[i]).Crash? {
        var i :| 0 <= i < |xs| && f(xs[i]).Crash?;
        if i < |front| {
          assert xs[i] == front[i];
        }
      }
      if MapAll(f, xs).Ok? {
        var out := MapAll(f, xs).value;
        forall i | 0 <= i < |xs|
          ensures f(xs[i]) == Ok(out[i])
        {
          if i < |front| {
            assert xs[i] == front[i];
          }
        }
      }
    }
  }
}
