/** `plot_conservation.py`: per alignment column, the most common symbol and
    a conservation score. */
module Conservation {
  import opened Common

  /** A conservation score `num / den`, kept as an exact fraction. */
  datatype Score = Score(num: nat, den: nat)

  /** An alignment as `AlignIO.read` delivers it: at least one row, all rows
      of one length. */
  ghost predicate IsAlignment(rows: seq<string>) {
    |rows| > 0 && forall r | 0 <= r < |rows| :: |rows[r]| == |rows[0]|
  }

  /** `alignment[:, i]` */
  function Column(rows: seq<string>, i: nat): (column: string)
    requires IsAlignment(rows) && i < |rows[0]|
    ensures |column| == |rows|
    ensures forall r | 0 <= r < |rows| :: column[r] == rows[r][i]
  {
    seq(|rows|, r requires 0 <= r < |rows| => rows[r][i])
  }

  /** `counts[base] = counts.get(base, 0) + 1` */
  function Tally(d: ODict<char, nat>, c: char): (d': ODict<char, nat>)
    requires d.Valid()
    ensures d'.Valid()
  {
    d.Put(c, (if c in d.entries then d.entries[c] else 0) + 1)
  }

  /** The `counts` dictionary after the given symbols. */
  function Counts(column: string): (d: ODict<char, nat>)
    ensures d.Valid()
    ensures column != [] ==> d.keys != []
  {
    if column == [] then EmptyDict() else Tally(Counts(column[..|column| - 1]), column[|column| - 1])
  }

  /** The inner loop over one column. */
  method CountColumn(column: string) returns (counts: ODict<char, nat>)
    ensures counts == Counts(column)
  {
    counts := EmptyDict();
    for k := 0 to |column|
      invariant counts == Counts(column[..k])
    {
      var base := column[k];
      assert column[..k + 1][..k] == column[..k];
      counts := counts.Put(base, (if base in counts.entries then counts.entries[base] else 0) + 1);
    }
    assert column[..|column|] == column;
  }

  lemma CountsSnoc(column: string, x: char)
    ensures Counts(column + [x]) == Tally(Counts(column), x)
  {
    assert (column + [x])[..|column|] == column;
  }

  /** The keys are the column's symbols in order of first appearance. */
  lemma {:induction false} CountsKeys(column: string)
    ensures Counts(column).keys == Dedup(column)
  {
    if column != [] {
      var front := column[..|column| - 1];
      var x := column[|column| - 1];
      CountsKeys(front);
      assert column == front + [x];
      CountsSnoc(front, x);
      DedupSnoc(front, x);
    }
  }

  /** Each symbol of the column maps to its number of occurrences. */
  lemma {:induction false} CountsValues(column: string)
    ensures forall c | c in Counts(column).entries :: Counts(column).entries[c] == multiset(column)[c]
  {
    if column != [] {
      var front := column[..|column| - 1];
      var x := column[|column| - 1];
      CountsValues(front);
      assert column == front + [x];
      CountsSnoc(front, x);
      var d := Counts(front);
      var d' := Counts(column);
      forall c | c in d'.entries
        ensures d'.entries[c] == multiset(column)[c]
      {
        assert multiset(column)[c] == multiset(front)[c] + (if c == x then 1 else 0);
        if c != x {
          assert c in d.entries;
        } else if x !in d.entries {
          CountsKeys(front);
          assert x !in front;
        }
      }
    }
  }

  lemma CountsSpec(column: string)
    ensures Counts(column).keys == Dedup(column)
    ensures forall c :: c in Counts(column).entries <==> c in column
    ensures forall c | c in Counts(column).entries :: Counts(column).entries[c] == multiset(column)[c]
  {
    CountsKeys(column);
    CountsValues(column);
  }

  /** The sum of the counts of the given symbols in `s`. */
  function SumCounts(ks: seq<char>, s: string): nat {
    if ks == [] then 0 else SumCounts(ks[..|ks| - 1], s) + multiset(s)[ks[|ks| - 1]]
  }

  lemma {:induction false} SumCountsSnoc(ks: seq<char>, s: string, x: char)
    requires forall i, j | 0 <= i < j < |ks| :: ks[i] != ks[j]
    ensures SumCounts(ks, s + [x]) == SumCounts(ks, s) + (if x in ks then 1 else 0)
  {
    if ks != [] {
      var front := ks[..|ks| - 1];
      SumCountsSnoc(front, s, x);
      assert x in ks <==> x in front || x == ks[|ks| - 1];
      if x == ks[|ks| - 1] {
        assert x !in front;
      }
    }
  }

  /** The counts add up to the number of sequences. */
  lemma {:induction false} CountsTotal(column: string)
    ensures SumCounts(Counts(column).keys, column) == |column|
  {
    CountsSpec(column);
    DedupTotal(column);
  }

  lemma {:induction false} DedupTotal(s: string)
    ensures SumCounts(Dedup(s), s) == |s|
  {
    if s != [] {
      var front := s[..|s| - 1];
      var x := s[|s| - 1];
      DedupTotal(front);
      assert s == front + [x];
      DedupSnoc(front, x);
      SumCountsSnoc(Dedup(front), front, x);
      if x !in front {
        assert Dedup(s) == Dedup(front) + [x];
        assert Dedup(s)[..|Dedup(s)| - 1] == Dedup(front);
      }
    }
  }

  /** `b` is where `max` stops over the keys: a maximal count, and every
      earlier key has a strictly smaller one. */
  ghost predicate IsFirstMax(ks: seq<char>, m: map<char, nat>, b: nat)
    requires forall k | k in ks :: k in m
  {
    && b < |ks|
    && (forall j | 0 <= j < |ks| :: m[ks[j]] <= m[ks[b]])
    && (forall j | 0 <= j < b :: m[ks[j]] < m[ks[b]])
  }

  /** There is only one such place. */
  lemma FirstMaxUnique(ks: seq<char>, m: map<char, nat>, b: nat, b': nat)
    requires forall k | k in ks :: k in m
    requires IsFirstMax(ks, m, b) && IsFirstMax(ks, m, b')
    ensures b == b'
  {
    assert m[ks[b]] == m[ks[b']];
  }

  /** `max(counts, key=counts.get)` keeps the first key with a maximal count. */
  function FirstMax(ks: seq<char>, m: map<char, nat>): (b: nat)
    requires ks != []
    requires forall k | k in ks :: k in m
    ensures IsFirstMax(ks, m, b)
  {
    if |ks| == 1 then 0
    else
      var b := FirstMax(ks[..|ks| - 1], m);
      FirstMaxStep(ks, m, b);
      if m[ks[|ks| - 1]] > m[ks[b]] then |ks| - 1 else b
  }

  lemma FirstMaxStep(ks: seq<char>, m: map<char, nat>, b: nat)
    requires |ks| > 1
    requires forall k | k in ks :: k in m
    requires IsFirstMax(ks[..|ks| - 1], m, b)
    ensures IsFirstMax(ks, m, if m[ks[|ks| - 1]] > m[ks[b]] then |ks| - 1 else b)
  {
    var front := ks[..|ks| - 1];
    assert forall j | 0 <= j < |front| :: front[j] == ks[j];
  }

  /** The scan of `max` over the dictionary's keys. */
  method MostCommon(counts: ODict<char, nat>) returns (best: char, b: nat)
    requires counts.Valid() && counts.keys != []
    ensures IsFirstMax(counts.keys, counts.entries, b) && best == counts.keys[b]
  {
    var ks := counts.keys;
    b := 0;
    best := ks[0];
    for i := 1 to |ks|
      invariant b < i && best == ks[b]
      invariant forall j | 0 <= j < i :: counts.entries[ks[j]] <= counts.entries[best]
      invariant forall j | 0 <= j < b :: counts.entries[ks[j]] < counts.entries[best]
    {
      if counts.entries[ks[i]] > counts.entries[best] {
        b, best := i, ks[i];
      }
    }
  }

  /** The most common symbol of a non-empty column. */
  function MostCommonOf(column: string): char
    requires column != []
  {
    var d := Counts(column);
    d.keys[FirstMax(d.keys, d.entries)]
  }

  /** The most common symbol occurs in the column at least as often as any
      other symbol. */
  lemma MostCommonMax(column: string)
    requires column != []
    ensures MostCommonOf(column) in column
    ensures forall c | c in column :: multiset(column)[c] <= multiset(column)[MostCommonOf(column)]
  {
    CountsSpec(column);
    var d := Counts(column);
    var b := FirstMax(d.keys, d.entries);
    var best := d.keys[b];
    forall c | c in column
      ensures multiset(column)[c] <= multiset(column)[best]
    {
      var k :| 0 <= k < |d.keys| && d.keys[k] == c;
      assert d.entries[d.keys[k]] <= d.entries[best];
    }
  }

  /** Ties go to the symbol seen first: any symbol occurring as often as the
      most common one does not appear before it. */
  lemma MostCommonFirst(column: string)
    requires column != []
    ensures forall j | 0 <= j < |column| && multiset(column)[column[j]] == multiset(column)[MostCommonOf(column)] ::
      exists i | 0 <= i <= j :: column[i] == MostCommonOf(column)
  {
    CountsSpec(column);
    var d := Counts(column);
    var b := FirstMax(d.keys, d.entries);
    var best := d.keys[b];
    forall j | 0 <= j < |column| && multiset(column)[column[j]] == multiset(column)[best]
      ensures exists i | 0 <= i <= j :: column[i] == best
    {
      assert column[j] in d.entries;
      var k :| 0 <= k < |d.keys| && d.keys[k] == column[j];
      assert d.entries[d.keys[k]] == d.entries[best];
      assert b <= k;
      DedupOrder(column, b, k, j);
    }
  }

  /** Dedup keeps first-appearance order: a key placed earlier first appears
      no later than any occurrence of a key placed later. */
  lemma {:induction false} DedupOrder(s: string, a: nat, k: nat, j: nat)
    requires a <= k < |Dedup(s)| && j < |s| && s[j] == Dedup(s)[k]
    ensures exists i | 0 <= i <= j :: s[i] == Dedup(s)[a]
  {
    var front := s[..|s| - 1];
    var x := s[|s| - 1];
    assert s == front + [x];
    DedupSnoc(front, x);
    var df := Dedup(front);
    var ds := Dedup(s);
    assert forall i | 0 <= i < |df| :: ds[i] == df[i];
    if j < |front| {
      assert ds[k] == front[j];
      assert k < |df|;
      DedupOrder(front, a, k, j);
      var i :| 0 <= i <= j && front[i] == df[a];
      assert s[i] == ds[a];
    } else if a < |df| {
      assert df[a] in front;
      var i :| 0 <= i < |front| && front[i] == df[a];
      assert s[i] == ds[a];
    } else {
      assert a == k;
    }
  }

  /** `0.0 if most_common_base == '-' else max_count / num_sequences` */
  function ScoreOf(column: string): Score
    requires column != []
  {
    var d := Counts(column);
    var base := MostCommonOf(column);
    if base == '-' then Score(0, |column|) else Score(d.entries[base], |column|)
  }

  /** The score lies in [0, 1]: its denominator is the number of sequences, it
      is 0 for a gap column, and otherwise the share of the most common symbol. */
  lemma ScoreSpec(column: string)
    requires column != []
    ensures ScoreOf(column).den == |column| > 0
    ensures ScoreOf(column).num <= ScoreOf(column).den
    ensures MostCommonOf(column) == '-' ==> ScoreOf(column).num == 0
    ensures MostCommonOf(column) != '-' ==> ScoreOf(column).num == multiset(column)[MostCommonOf(column)]
  {
    CountsSpec(column);
    MostCommonMax(column);
    var base := MostCommonOf(column);
    assert multiset(column)[base] <= |multiset(column)|;
  }

  /** One pass of the outer loop. */
  method Summarize(column: string) returns (base: char, score: Score)
    requires column != []
    ensures base == MostCommonOf(column) && score == ScoreOf(column)
  {
    var counts := CountColumn(column);
    CountsSpec(column);
    var b;
    base, b := MostCommon(counts);
    FirstMaxUnique(counts.keys, counts.entries, b, FirstMax(counts.keys, counts.entries));
    var maxCount := counts.entries[base];
    score := if base == '-' then Score(0, |column|) else Score(maxCount, |column|);
  }

  /** The most common symbols of the first `n` columns. */
  function BasesUpTo(rows: seq<string>, n: nat): (bases: seq<char>)
    requires IsAlignment(rows) && n <= |rows[0]|
    ensures |bases| == n
  {
    if n == 0 then [] else BasesUpTo(rows, n - 1) + [MostCommonOf(Column(rows, n - 1))]
  }

  /** The scores of the first `n` columns. */
  function ScoresUpTo(rows: seq<string>, n: nat): (scores: seq<Score>)
    requires IsAlignment(rows) && n <= |rows[0]|
    ensures |scores| == n
  {
    if n == 0 then [] else ScoresUpTo(rows, n - 1) + [ScoreOf(Column(rows, n - 1))]
  }

  lemma {:induction false} BasesAt(rows: seq<string>, n: nat, i: nat)
    requires IsAlignment(rows) && i < n <= |rows[0]|
    ensures BasesUpTo(rows, n)[i] == MostCommonOf(Column(rows, i))
  {
    var front := BasesUpTo(rows, n - 1);
    var last := MostCommonOf(Column(rows, n - 1));
    assert BasesUpTo(rows, n) == front + [last];
    if i < n - 1 {
      BasesAt(rows, n - 1, i);
      assert BasesUpTo(rows, n)[i] == front[i] by {
        assert (front + [last])[i] == front[i];
      }
    }
  }

  lemma {:induction false} ScoresAt(rows: seq<string>, n: nat, i: nat)
    requires IsAlignment(rows) && i < n <= |rows[0]|
    ensures ScoresUpTo(rows, n)[i] == ScoreOf(Column(rows, i))
  {
    var front := ScoresUpTo(rows, n - 1);
    var last := ScoreOf(Column(rows, n - 1));
    assert ScoresUpTo(rows, n) == front + [last];
    if i < n - 1 {
      ScoresAt(rows, n - 1, i);
      assert ScoresUpTo(rows, n)[i] == front[i] by {
        assert (front + [last])[i] == front[i];
      }
    }
  }

  /** The outer loop: one symbol and one score per column. */
  method Conserve(rows: seq<string>) returns (bases: seq<char>, scores: seq<Score>)
    requires IsAlignment(rows)
    ensures |bases| == |scores| == |rows[0]|
    ensures forall i | 0 <= i < |rows[0]| ::
      bases[i] == MostCommonOf(Column(rows, i)) && scores[i] == ScoreOf(Column(rows, i))
  {
    bases, scores := [], [];
    for i := 0 to |rows[0]|
      invariant bases == BasesUpTo(rows, i)
      invariant scores == ScoresUpTo(rows, i)
    {
      var column := Column(rows, i);
      var base, score := Summarize(column);
      scores := scores + [score];
      bases := bases + [base];
    }
    forall i | 0 <= i < |rows[0]|
      ensures bases[i] == MostCommonOf(Column(rows, i)) && scores[i] == ScoreOf(Column(rows, i))
    {
      BasesAt(rows, |rows[0]|, i);
      ScoresAt(rows, |rows[0]|, i);
    }
  }

  /** A CSV data row: position, most common symbol, score. */
  datatype CsvRow = CsvRow(position: nat, base: char, score: Score)

  /** `enumerate(zip(most_common_bases, conservation), 1)` */
  function CsvRows(bases: seq<char>, scores: seq<Score>): (rows: seq<CsvRow>)
    requires |bases| == |scores|
    ensures |rows| == |bases|
  {
    if bases == [] then []
    else CsvRows(bases[..|bases| - 1], scores[..|scores| - 1]) + [CsvRow(|bases|, bases[|bases| - 1], scores[|scores| - 1])]
  }

  /** One row per column, numbered from 1. */
  lemma {:induction false} CsvRowsAt(bases: seq<char>, scores: seq<Score>, i: nat)
    requires |bases| == |scores| && i < |bases|
    ensures CsvRows(bases, scores)[i] == CsvRow(i + 1, bases[i], scores[i])
  {
    if i < |bases| - 1 {
      CsvRowsAt(bases[..|bases| - 1], scores[..|scores| - 1], i);
    }
  }
}
