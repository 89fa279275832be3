/** `completeness/findGaps.py`: the alignment intervals of each reference
    chromosome are merged, and the stretches of the chromosome that no merged
    interval covers are reported as gaps. Intervals are half-open
    `[start, end)`, as in PAF target coordinates. */
module FindGaps {
  import opened Common
  import opened Sorting

  datatype Interval = Interval(start: int, end: int)

  /** One output line: `chrom`, gap start, gap end. */
  datatype Gap = Gap(chrom: string, start: int, end: int)

  function Max(a: int, b: int): int {
    if a >= b then a else b
  }

  /** Python's order on `(start, end)` tuples, used by `sorted(intervals)`. */
  predicate TupleLe(a: Interval, b: Interval) {
    a.start < b.start || (a.start == b.start && a.end <= b.end)
  }

  lemma TupleLeTotal()
    ensures TotalPreorder(TupleLe)
  {
  }

  /** Position `p` lies in one of the intervals. */
  ghost predicate Covers(ivs: seq<Interval>, p: int) {
    exists k | 0 <= k < |ivs| :: ivs[k].start <= p < ivs[k].end
  }

  predicate WellFormed(ivs: seq<Interval>) {
    forall k | 0 <= k < |ivs| :: ivs[k].start <= ivs[k].end
  }

  predicate NonNegative(ivs: seq<Interval>) {
    forall k | 0 <= k < |ivs| :: 0 <= ivs[k].start
  }

  predicate StartsAscending(ivs: seq<Interval>) {
    forall i, j | 0 <= i < j < |ivs| :: ivs[i].start <= ivs[j].start
  }

  /** Each interval ends before the next one starts. */
  predicate Separated(ivs: seq<Interval>) {
    forall k | 0 <= k < |ivs| - 1 :: ivs[k].end < ivs[k + 1].start
  }

  /** Any interval ends before every later one starts. */
  predicate Apart(ivs: seq<Interval>) {
    forall i, j | 0 <= i < j < |ivs| :: ivs[i].end < ivs[j].start
  }

  lemma CoversAppend(a: seq<Interval>, b: seq<Interval>, p: int)
    ensures Covers(a + b, p) <==> Covers(a, p) || Covers(b, p)
  {
    if Covers(a + b, p) {
      var k :| 0 <= k < |a + b| && (a + b)[k].start <= p < (a + b)[k].end;
      if k >= |a| {
        assert b[k - |a|] == (a + b)[k];
      }
    }
    if Covers(b, p) {
      var k :| 0 <= k < |b| && b[k].start <= p < b[k].end;
      assert (a + b)[|a| + k] == b[k];
    }
    if Covers(a, p) {
      var k :| 0 <= k < |a| && a[k].start <= p < a[k].end;
      assert (a + b)[k] == a[k];
    }
  }

  // ---------------------------------------------------------- merge_intervals

  /** One iteration of `merge_intervals`: extend the last merged interval when
      `iv` starts no later than its end, else start a new one. */
  function MergeStep(merged: seq<Interval>, iv: Interval): (r: seq<Interval>)
    ensures |r| > 0
  {
    if merged != [] && iv.start <= merged[|merged| - 1].end then
      var last := merged[|merged| - 1];
      merged[..|merged| - 1] + [Interval(last.start, Max(last.end, iv.end))]
    else merged + [iv]
  }

  /** The merge of intervals already in order. */
  function Merged(s: seq<Interval>): seq<Interval> {
    if s == [] then [] else MergeStep(Merged(s[..|s| - 1]), s[|s| - 1])
  }

  /** `merge_intervals`: sort, then fold the sorted intervals. */
  function MergeOf(intervals: seq<Interval>): seq<Interval> {
    Merged(Sort(intervals, TupleLe))
  }

  method MergeIntervals(intervals: seq<Interval>) returns (merged: seq<Interval>)
    ensures merged == MergeOf(intervals)
  {
    var sorted := Sort(intervals, TupleLe);
    merged := [];
    for i := 0 to |sorted|
      invariant merged == Merged(sorted[..i])
    {
      assert sorted[..i + 1][..i] == sorted[..i];
      var iv := sorted[i];
      if merged != [] && iv.start <= merged[|merged| - 1].end {
        var last := merged[|merged| - 1];
        merged := merged[..|merged| - 1] + [Interval(last.start, Max(last.end, iv.end))];
      } else {
        merged := merged + [iv];
      }
    }
    assert sorted[..|sorted|] == sorted;
  }

  /** The merge never has more intervals than its input, and is empty only
      for an empty input. */
  lemma {:induction false} MergedLength(s: seq<Interval>)
    ensures |Merged(s)| <= |s|
    ensures |Merged(s)| == 0 <==> s == []
  {
    if s != [] {
      MergedLength(s[..|s| - 1]);
    }
  }

  lemma MergeStepStarts(m: seq<Interval>, x: Interval)
    ensures var r := MergeStep(m, x);
            && (forall k | 0 <= k < |m| :: r[k].start == m[k].start)
            && |m| <= |r| <= |m| + 1
            && (|r| > |m| ==> r[|m|] == x)
  {
  }

  /** Every merged interval starts where some input interval starts. */
  ghost predicate StartsFrom(r: seq<Interval>, s: seq<Interval>) {
    forall k | 0 <= k < |r| :: exists j | 0 <= j < |s| :: r[k].start == s[j].start
  }

  lemma {:induction false} MergedStarts(s: seq<Interval>)
    ensures StartsFrom(Merged(s), s)
  {
    if s != [] {
      var init := s[..|s| - 1];
      MergedStarts(init);
      var m := Merged(init);
      var r := Merged(s);
      MergeStepStarts(m, s[|s| - 1]);
      forall k | 0 <= k < |r|
        ensures exists j | 0 <= j < |s| :: r[k].start == s[j].start
      {
        if k < |m| {
          var j :| 0 <= j < |init| && m[k].start == init[j].start;
          assert s[j] == init[j];
        } else {
          assert r[k] == s[|s| - 1];
        }
      }
    }
  }

  /** Each merged interval ends before the next one starts. */
  lemma {:induction false} MergedSeparated(s: seq<Interval>)
    ensures Separated(Merged(s))
  {
    if s != [] {
      MergedSeparated(s[..|s| - 1]);
    }
  }

  /** Merging an ascending sequence covers exactly the positions its
      intervals cover. */
  lemma {:induction false} MergedCovers(s: seq<Interval>, p: int)
    requires StartsAscending(s)
    ensures Covers(Merged(s), p) <==> Covers(s, p)
  {
    if s != [] {
      var init := s[..|s| - 1];
      var x := s[|s| - 1];
      var m := Merged(init);
      assert s == init + [x];
      MergedCovers(init, p);
      CoversAppend(init, [x], p);
      if m != [] && x.start <= m[|m| - 1].end {
        var last := m[|m| - 1];
        MergedStarts(init);
        var j :| 0 <= j < |init| && last.start == init[j].start;
        assert init[j] == s[j];
        ExtendCovers(m, x, p);
      } else {
        CoversAppend(m, [x], p);
      }
    }
  }

  lemma CoversOne(iv: Interval, p: int)
    ensures Covers([iv], p) <==> iv.start <= p < iv.end
  {
    if iv.start <= p < iv.end {
      assert [iv][0] == iv;
    }
  }

  /** Extending the last interval over an `x` that starts inside it covers
      the same positions as keeping both. */
  lemma ExtendCovers(m: seq<Interval>, x: Interval, p: int)
    requires m != [] && m[|m| - 1].start <= x.start <= m[|m| - 1].end
    ensures Covers(MergeStep(m, x), p) <==> Covers(m, p) || Covers([x], p)
  {
    var last := m[|m| - 1];
    var front := m[..|m| - 1];
    var grown := Interval(last.start, Max(last.end, x.end));
    assert m == front + [last];
    assert MergeStep(m, x) == front + [grown];
    CoversAppend(front, [last], p);
    CoversAppend(front, [grown], p);
    CoversOne(last, p);
    CoversOne(grown, p);
    CoversOne(x, p);
  }

  /** `sorted` orders the intervals by start. */
  lemma SortedAscending(intervals: seq<Interval>)
    ensures StartsAscending(Sort(intervals, TupleLe))
  {
    TupleLeTotal();
    SortSorted(intervals, TupleLe);
  }

  /** Sorting does not change the covered positions. */
  lemma SortCovers(intervals: seq<Interval>, p: int)
    ensures Covers(Sort(intervals, TupleLe), p) <==> Covers(intervals, p)
  {
    var sorted := Sort(intervals, TupleLe);
    if Covers(sorted, p) {
      var k :| 0 <= k < |sorted| && sorted[k].start <= p < sorted[k].end;
      assert sorted[k] in multiset(intervals);
      var j :| 0 <= j < |intervals| && intervals[j] == sorted[k];
    }
    if Covers(intervals, p) {
      var k :| 0 <= k < |intervals| && intervals[k].start <= p < intervals[k].end;
      assert intervals[k] in multiset(sorted);
      var j :| 0 <= j < |sorted| && sorted[j] == intervals[k];
    }
  }

  /** `merge_intervals` returns at most as many intervals as it is given,
      each ending before the next starts, together covering exactly the
      positions the input covers. */
  lemma MergeOfSpec(intervals: seq<Interval>, p: int)
    ensures |MergeOf(intervals)| <= |intervals|
    ensures Separated(MergeOf(intervals))
    ensures Covers(MergeOf(intervals), p) <==> Covers(intervals, p)
  {
    var sorted := Sort(intervals, TupleLe);
    MergedLength(sorted);
    MergedSeparated(sorted);
    SortedAscending(intervals);
    MergedCovers(sorted, p);
    SortCovers(intervals, p);
  }

  /** Merging well-formed intervals gives well-formed intervals. */
  lemma {:induction false} MergedWellFormed(s: seq<Interval>)
    requires WellFormed(s)
    ensures WellFormed(Merged(s))
  {
    if s != [] {
      MergedWellFormed(s[..|s| - 1]);
    }
  }

  lemma MergeOfWellFormed(intervals: seq<Interval>)
    requires WellFormed(intervals)
    ensures WellFormed(MergeOf(intervals))
  {
    var sorted := Sort(intervals, TupleLe);
    forall k | 0 <= k < |sorted|
      ensures sorted[k].start <= sorted[k].end
    {
      assert sorted[k] in multiset(intervals);
    }
    MergedWellFormed(sorted);
  }

  /** Merging non-negative intervals gives non-negative intervals. */
  lemma MergeOfStarts(intervals: seq<Interval>)
    requires NonNegative(intervals)
    ensures NonNegative(MergeOf(intervals))
  {
    var sorted := Sort(intervals, TupleLe);
    forall k | 0 <= k < |sorted|
      ensures 0 <= sorted[k].start
    {
      assert sorted[k] in multiset(intervals);
    }
    MergedStarts(sorted);
  }

  /** For well-formed intervals, "each before the next" extends to every
      later one. */
  lemma {:induction false} SeparatedApart(ivs: seq<Interval>)
    requires WellFormed(ivs) && Separated(ivs)
    ensures Apart(ivs)
  {
    if |ivs| > 1 {
      var rest := ivs[1..];
      SeparatedApart(rest);
      forall i, j | 0 <= i < j < |ivs|
        ensures ivs[i].end < ivs[j].start
      {
        if i == 0 && j > 1 {
          assert rest[0] == ivs[1] && rest[j - 1] == ivs[j];
        } else if i > 0 {
          assert rest[i - 1] == ivs[i] && rest[j - 1] == ivs[j];
        }
      }
    }
  }

  // --------------------------------------------------------------- find_gaps

  /** The gaps of one chromosome after position `last`: before each merged
      interval that starts after `last`, then up to the chromosome length. */
  function ChromGaps(chrom: string, ivs: seq<Interval>, last: int, length: int): seq<Gap>
    decreases |ivs|
  {
    if ivs == [] then
      if last < length then [Gap(chrom, last, length)] else []
    else
      (if ivs[0].start > last then [Gap(chrom, last, ivs[0].start)] else [])
        + ChromGaps(chrom, ivs[1..], ivs[0].end, length)
  }

  lemma ChromGapsUnfold(chrom: string, ivs: seq<Interval>, i: nat, last: int, length: int)
    requires i < |ivs|
    ensures ChromGaps(chrom, ivs[i..], last, length)
         == (if ivs[i].start > last then [Gap(chrom, last, ivs[i].start)] else [])
            + ChromGaps(chrom, ivs[i + 1..], ivs[i].end, length)
  {
    assert ivs[i..][1..] == ivs[i + 1..];
  }

  /** The inner loop of `find_gaps` for one chromosome. */
  method GapsOfChrom(chrom: string, intervals: seq<Interval>, length: int) returns (gaps: seq<Gap>)
    ensures gaps == ChromGaps(chrom, intervals, 0, length)
  {
    gaps := [];
    var lastEnd := 0;
    for i := 0 to |intervals|
      invariant gaps + ChromGaps(chrom, intervals[i..], lastEnd, length) == ChromGaps(chrom, intervals, 0, length)
    {
      ChromGapsUnfold(chrom, intervals, i, lastEnd, length);
      var iv := intervals[i];
      ghost var rest := ChromGaps(chrom, intervals[i + 1..], iv.end, length);
      if iv.start > lastEnd {
        var g := Gap(chrom, lastEnd, iv.start);
        assert gaps + ([g] + rest) == (gaps + [g]) + rest;
        gaps := gaps + [g];
      } else {
        assert [] + rest == rest;
      }
      lastEnd := iv.end;
    }
    assert intervals[|intervals|..] == [];
    if lastEnd < length {
      gaps := gaps + [Gap(chrom, lastEnd, length)];
    } else {
      assert gaps + [] == gaps;
    }
  }

  ghost predicate InGaps(gaps: seq<Gap>, p: int) {
    exists k | 0 <= k < |gaps| :: gaps[k].start <= p < gaps[k].end
  }

  lemma InGapsAppend(a: seq<Gap>, b: seq<Gap>, p: int)
    ensures InGaps(a + b, p) <==> InGaps(a, p) || InGaps(b, p)
  {
    if InGaps(a + b, p) {
      var k :| 0 <= k < |a + b| && (a + b)[k].start <= p < (a + b)[k].end;
      if k >= |a| {
        assert b[k - |a|] == (a + b)[k];
      }
    }
    if InGaps(b, p) {
      var k :| 0 <= k < |b| && b[k].start <= p < b[k].end;
      assert (a + b)[|a| + k] == b[k];
    }
    if InGaps(a, p) {
      var k :| 0 <= k < |a| && a[k].start <= p < a[k].end;
      assert (a + b)[k] == a[k];
    }
  }

  /** Every gap is non-empty and belongs to its chromosome. */
  lemma {:induction false} ChromGapsShape(chrom: string, ivs: seq<Interval>, last: int, length: int)
    ensures forall g | g in ChromGaps(chrom, ivs, last, length) :: g.chrom == chrom && g.start < g.end
    decreases |ivs|
  {
    if ivs != [] {
      ChromGapsShape(chrom, ivs[1..], ivs[0].end, length);
    }
  }

  /** Over apart intervals, no gap starts before `last`. */
  lemma {:induction false} ChromGapsFrom(chrom: string, ivs: seq<Interval>, last: int, length: int)
    requires WellFormed(ivs) && Apart(ivs)
    requires ivs != [] ==> last <= ivs[0].end
    ensures forall g | g in ChromGaps(chrom, ivs, last, length) :: g.start >= last
    decreases |ivs|
  {
    if ivs != [] {
      if |ivs| > 1 {
        assert ivs[1..][0] == ivs[1];
      }
      ChromGapsFrom(chrom, ivs[1..], ivs[0].end, length);
    }
  }

  /** A gap position lies at or after `last` and in no interval. */
  lemma {:induction false} ChromGapsSound(chrom: string, ivs: seq<Interval>, last: int, length: int, p: int)
    requires WellFormed(ivs) && Apart(ivs)
    requires ivs != [] ==> last <= ivs[0].end
    ensures InGaps(ChromGaps(chrom, ivs, last, length), p) ==> last <= p && !Covers(ivs, p)
    decreases |ivs|
  {
    if ivs != [] && InGaps(ChromGaps(chrom, ivs, last, length), p) {
      var first := if ivs[0].start > last then [Gap(chrom, last, ivs[0].start)] else [];
      var rest := ivs[1..];
      if rest != [] {
        assert rest[0] == ivs[1];
      }
      ChromGapsSound(chrom, rest, ivs[0].end, length, p);
      InGapsAppend(first, ChromGaps(chrom, rest, ivs[0].end, length), p);
      assert ivs == [ivs[0]] + rest;
      CoversAppend([ivs[0]], rest, p);
      if InGaps(first, p) {
        forall k | 0 <= k < |rest|
          ensures !(rest[k].start <= p < rest[k].end)
        {
          assert ivs[k + 1] == rest[k];
        }
      }
    }
  }

  /** A position from `last` up to the length that lies in no interval lies
      in a gap. */
  lemma {:induction false} ChromGapsComplete(chrom: string, ivs: seq<Interval>, last: int, length: int, p: int)
    ensures last <= p < length && !Covers(ivs, p) ==> InGaps(ChromGaps(chrom, ivs, last, length), p)
    decreases |ivs|
  {
    if last <= p < length && !Covers(ivs, p) {
      var gaps := ChromGaps(chrom, ivs, last, length);
      if ivs == [] {
        assert gaps[0] == Gap(chrom, last, length);
      } else {
        var first := if ivs[0].start > last then [Gap(chrom, last, ivs[0].start)] else [];
        var rest := ivs[1..];
        InGapsAppend(first, ChromGaps(chrom, rest, ivs[0].end, length), p);
        if p < ivs[0].start {
          assert first[0] == Gap(chrom, last, ivs[0].start);
        } else {
          assert ivs == [ivs[0]] + rest;
          CoversAppend([ivs[0]], rest, p);
          ChromGapsComplete(chrom, rest, ivs[0].end, length, p);
        }
      }
    }
  }

  predicate Ascending(gaps: seq<Gap>) {
    forall i, j | 0 <= i < j < |gaps| :: gaps[i].end <= gaps[j].start
  }

  /** Gaps come in increasing order: each ends no later than any later one
      starts. */
  lemma {:induction false} ChromGapsOrdered(chrom: string, ivs: seq<Interval>, last: int, length: int)
    requires WellFormed(ivs) && Apart(ivs)
    ensures Ascending(ChromGaps(chrom, ivs, last, length))
    decreases |ivs|
  {
    if ivs != [] {
      var rest := ivs[1..];
      var tail := ChromGaps(chrom, rest, ivs[0].end, length);
      var first := if ivs[0].start > last then [Gap(chrom, last, ivs[0].start)] else [];
      var gaps := first + tail;
      if rest != [] {
        assert rest[0] == ivs[1];
      }
      ChromGapsOrdered(chrom, rest, ivs[0].end, length);
      ChromGapsFrom(chrom, rest, ivs[0].end, length);
      forall i, j | 0 <= i < j < |gaps|
        ensures gaps[i].end <= gaps[j].start
      {
        if i < |first| {
          assert gaps[i].end == ivs[0].start;
          assert gaps[j] == tail[j - 1] && tail[j - 1] in tail;
          assert tail[j - 1].start >= ivs[0].end;
          assert ivs[0].start <= ivs[0].end;
        } else {
          assert gaps[i] == tail[i - |first|] && gaps[j] == tail[j - |first|];
        }
      }
    }
  }

  /** The gaps `find_gaps` reports for one chromosome. */
  function GapsFor(chrom: string, aligned: map<string, seq<Interval>>, length: int): seq<Gap> {
    ChromGaps(chrom, MergeOf(if chrom in aligned then aligned[chrom] else []), 0, length)
  }

  /** For well-formed alignments, the gaps of a chromosome cover exactly the
      positions of `[0, length)` that no alignment covers, and nothing below
      0 or inside an alignment. */
  lemma GapsForPoints(chrom: string, aligned: map<string, seq<Interval>>, length: int, p: int)
    requires chrom in aligned ==> WellFormed(aligned[chrom]) && NonNegative(aligned[chrom])
    ensures var ivs := if chrom in aligned then aligned[chrom] else [];
            && (InGaps(GapsFor(chrom, aligned, length), p) ==> 0 <= p && !Covers(ivs, p))
            && (0 <= p < length && !Covers(ivs, p) ==> InGaps(GapsFor(chrom, aligned, length), p))
  {
    var ivs := if chrom in aligned then aligned[chrom] else [];
    var m := MergeOf(ivs);
    MergeOfSpec(ivs, p);
    MergeOfWellFormed(ivs);
    SeparatedApart(m);
    if m != [] {
      MergeOfStarts(ivs);
    }
    ChromGapsSound(chrom, m, 0, length, p);
    ChromGapsComplete(chrom, m, 0, length, p);
  }

  /** A chromosome without alignments is one gap `(0, length)`, or none when
      its length is not positive. */
  lemma UnalignedChrom(chrom: string, aligned: map<string, seq<Interval>>, length: int)
    requires chrom !in aligned || aligned[chrom] == []
    ensures GapsFor(chrom, aligned, length) == if length > 0 then [Gap(chrom, 0, length)] else []
  {
    assert Sort([], TupleLe) == [];
  }

  /** All gaps: chromosome by chromosome in the order of the reference index. */
  function AllGaps(chroms: seq<string>, lengths: map<string, int>, aligned: map<string, seq<Interval>>): seq<Gap>
    requires forall c | c in chroms :: c in lengths
  {
    if chroms == [] then []
    else
      var c := chroms[|chroms| - 1];
      AllGaps(chroms[..|chroms| - 1], lengths, aligned) + GapsFor(c, aligned, lengths[c])
  }

  lemma AllGapsSnoc(chroms: seq<string>, lengths: map<string, int>, aligned: map<string, seq<Interval>>, i: nat)
    requires forall c | c in chroms :: c in lengths
    requires i < |chroms|
    ensures AllGaps(chroms[..i + 1], lengths, aligned)
         == AllGaps(chroms[..i], lengths, aligned) + GapsFor(chroms[i], aligned, lengths[chroms[i]])
  {
    assert chroms[..i + 1][..i] == chroms[..i];
  }

  /** `find_gaps`: the reference lengths are a dict in index order. */
  method FindGaps(lengths: ODict<string, int>, aligned: map<string, seq<Interval>>) returns (gaps: seq<Gap>)
    requires lengths.Valid()
    ensures gaps == AllGaps(lengths.keys, lengths.entries, aligned)
  {
    gaps := [];
    for i := 0 to |lengths.keys|
      invariant gaps == AllGaps(lengths.keys[..i], lengths.entries, aligned)
    {
      var chrom := lengths.keys[i];
      var intervals := MergeIntervals(if chrom in aligned then aligned[chrom] else []);
      var chromGaps := GapsOfChrom(chrom, intervals, lengths.entries[chrom]);
      AllGapsSnoc(lengths.keys, lengths.entries, aligned, i);
      gaps := gaps + chromGaps;
    }
    assert lengths.keys[..|lengths.keys|] == lengths.keys;
  }

  /** Gaps are reported only for reference chromosomes, and each is
      non-empty. */
  lemma {:induction false} AllGapsShape(chroms: seq<string>, lengths: map<string, int>, aligned: map<string, seq<Interval>>)
    requires forall c | c in chroms :: c in lengths
    ensures forall g | g in AllGaps(chroms, lengths, aligned) :: g.chrom in chroms && g.start < g.end
  {
    if chroms != [] {
      var c := chroms[|chroms| - 1];
      var init := chroms[..|chroms| - 1];
      AllGapsShape(init, lengths, aligned);
      ChromGapsShape(c, MergeOf(if c in aligned then aligned[c] else []), 0, lengths[c]);
      assert forall x | x in init :: x in chroms;
    }
  }
}
