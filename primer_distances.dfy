/** `plot_primer_repeat_distances.py`: primers are collapsed pair by pair,
    repeats of one name are read from a GFF file and filtered, and each
    primer is given its distance to the closest repeat. The plots, the
    pandas and pybedtools plumbing and the file output are not modelled. */
module PrimerDistances {
  import opened Common
  import opened Strings
  import opened Sorting

  // ------------------------------------------------------- simplify_chrom_name

  /** `simplify_chrom_name(chrom)`: one leading `chr` removed, then a `_mat`
      or `_pat` suffix shortened to `m` or `p`. */
  function SimplifyChromName(chrom: string): string {
    var c := if StartsWith(chrom, "chr") then chrom[3..] else chrom;
    if EndsWith(c, "_mat") then c[..|c| - 4] + "m"
    else if EndsWith(c, "_pat") then c[..|c| - 4] + "p"
    else c
  }

  /** `chr<b>_mat` and `chr<b>_pat` become `<b>m` and `<b>p`, whatever `b` is. */
  lemma SimplifyPhased(b: string)
    ensures SimplifyChromName("chr" + b + "_mat") == b + "m"
    ensures SimplifyChromName("chr" + b + "_pat") == b + "p"
  {
    var m := "chr" + b + "_mat";
    var p := "chr" + b + "_pat";
    assert m[..3] == "chr" && m[3..] == b + "_mat";
    assert p[..3] == "chr" && p[3..] == b + "_pat";
    assert (b + "_mat")[..|b|] == b && (b + "_mat")[|b|..] == "_mat";
    assert (b + "_pat")[..|b|] == b && (b + "_pat")[|b|..] == "_pat";
  }

  /** Only one leading `chr` goes: `chr<b>` becomes `b` when `b` has no
      haplotype suffix, even when `b` itself starts with `chr`. */
  lemma SimplifyUnphased(b: string)
    requires !EndsWith(b, "_mat") && !EndsWith(b, "_pat")
    ensures SimplifyChromName("chr" + b) == b
  {
    var s := "chr" + b;
    assert s[..3] == "chr" && s[3..] == b;
  }

  /** A name without `chr` prefix and without haplotype suffix is unchanged. */
  lemma SimplifyPlain(chrom: string)
    requires !StartsWith(chrom, "chr") && !EndsWith(chrom, "_mat") && !EndsWith(chrom, "_pat")
    ensures SimplifyChromName(chrom) == chrom
  {
  }

  // ------------------------------------------------------------- merge_primers

  /** A primer row of the BED file, with the `type` column of `load_primers`. */
  datatype Primer = Primer(chrom: string, start: int, end: int, name: string, kind: Option<string>)

  /** The `type` column: `centromere` or `distal` from the name's prefix. */
  function PrimerType(name: string): (t: Option<string>)
    ensures t.Some? <==> StartsWith(name, "Centromere") || StartsWith(name, "Distal")
    ensures StartsWith(name, "Centromere") ==> t == Some("centromere")
    ensures StartsWith(name, "Distal") ==> t == Some("distal")
  {
    assert StartsWith(name, "Distal") ==> name[0] == 'D' by {
      if StartsWith(name, "Distal") {
        assert name[..6][0] == 'D';
      }
    }
    if StartsWith(name, "Centromere") then Some("centromere")
    else if StartsWith(name, "Distal") then Some("distal")
    else None
  }

  /** The name matches `^(.+?)[_-][FR]$`: at least one character that is
      not a line break, then `_` or `-`, then `F` or `R`. */
  predicate PairSuffix(name: string) {
    && |name| >= 3
    && (name[|name| - 2] == '_' || name[|name| - 2] == '-')
    && (name[|name| - 1] == 'F' || name[|name| - 1] == 'R')
    && '\n' !in name[..|name| - 2]
  }

  /** The pair id: the name without its `[_-][FR]` suffix, or the whole name. */
  function PairId(name: string): string {
    if PairSuffix(name) then name[..|name| - 2] else name
  }

  /** The forward and reverse primers `<b>_F`/`<b>-F` and `<b>_R`/`<b>-R`
      share the pair id `b`. */
  lemma PairIdMates(b: string, sep: char, dir: char)
    requires |b| >= 1 && '\n' !in b
    requires (sep == '_' || sep == '-') && (dir == 'F' || dir == 'R')
    ensures PairId(b + [sep, dir]) == b
  {
    var n := b + [sep, dir];
    assert n[..|n| - 2] == b;
  }

  /** A name without the suffix is its own pair id. */
  lemma PairIdPlain(name: string)
    requires |name| < 3 || (name[|name| - 1] != 'F' && name[|name| - 1] != 'R')
    ensures PairId(name) == name
  {
  }

  /** The groupby key `(chrom, pair_id)`. */
  type Key = (string, string)

  function KeyOf(p: Primer): Key {
    (p.chrom, PairId(p.name))
  }

  /** The order of groupby keys: by chromosome, then by pair id. */
  predicate KeyLe(a: Key, b: Key) {
    (a.0 != b.0 && LexLe(a.0, b.0)) || (a.0 == b.0 && LexLe(a.1, b.1))
  }

  lemma KeyLeTotal()
    ensures TotalPreorder(KeyLe)
  {
    forall a: Key, b: Key
      ensures KeyLe(a, b) || KeyLe(b, a)
    {
      LexLeTotal(a.0, b.0);
      LexLeTotal(a.1, b.1);
    }
    forall a: Key, b: Key, c: Key | KeyLe(a, b) && KeyLe(b, c)
      ensures KeyLe(a, c)
    {
      KeyLeTrans(a, b, c);
    }
  }

  lemma KeyLeTrans(a: Key, b: Key, c: Key)
    requires KeyLe(a, b) && KeyLe(b, c)
    ensures KeyLe(a, c)
  {
    if a.0 == b.0 && b.0 == c.0 {
      LexLeTrans(a.1, b.1, c.1);
    } else if a.0 != b.0 && b.0 != c.0 {
      LexLeTrans(a.0, b.0, c.0);
      LexLeSame(a.0, b.0);
    }
  }

  /** The keys of the rows, in row order. */
  function KeysOf(rows: seq<Primer>): (ks: seq<Key>)
    ensures |ks| == |rows|
    ensures forall i | 0 <= i < |rows| :: ks[i] == KeyOf(rows[i])
  {
    if rows == [] then [] else KeysOf(rows[..|rows| - 1]) + [KeyOf(rows[|rows| - 1])]
  }

  /** The groups in the order `groupby` visits them: each key once, sorted. */
  function GroupKeys(rows: seq<Primer>): seq<Key> {
    Sort(Dedup(KeysOf(rows)), KeyLe)
  }

  /** Every key of a row is visited, once, and in key order. */
  lemma GroupKeysSpec(rows: seq<Primer>)
    ensures var ks := GroupKeys(rows);
      && (forall k :: k in ks <==> exists i | 0 <= i < |rows| :: KeyOf(rows[i]) == k)
      && (forall i, j | 0 <= i < j < |ks| :: ks[i] != ks[j])
      && Sorted(ks, KeyLe)
  {
    var d := Dedup(KeysOf(rows));
    KeyLeTotal();
    SortSorted(d, KeyLe);
    PermDistinct(d, GroupKeys(rows));
    forall k
      ensures k in GroupKeys(rows) <==> exists i | 0 <= i < |rows| :: KeyOf(rows[i]) == k
    {
      assert k in GroupKeys(rows) <==> k in multiset(d);
      if k in KeysOf(rows) {
        var i :| 0 <= i < |rows| && KeysOf(rows)[i] == k;
      }
    }
  }

  /** The number of rows whose key is in `ks`. */
  function CountIn(rows: seq<Primer>, ks: set<Key>): nat {
    if rows == [] then 0
    else CountIn(rows[..|rows| - 1], ks) + (if KeyOf(rows[|rows| - 1]) in ks then 1 else 0)
  }

  /** The rows of one group, in row order. */
  function Group(rows: seq<Primer>, k: Key): (g: seq<Primer>)
    ensures |g| == CountIn(rows, {k})
    ensures multiset(g) <= multiset(rows)
    ensures forall x | x in g :: KeyOf(x) == k
  {
    if rows == [] then []
    else
      var last := rows[|rows| - 1];
      assert rows == rows[..|rows| - 1] + [last];
      Group(rows[..|rows| - 1], k) + (if KeyOf(last) == k then [last] else [])
  }

  /** `int(x / 2)` in floating point: the half, truncated toward zero. */
  function TruncHalf(x: int): int {
    if x >= 0 then x / 2 else -((-x) / 2)
  }

  /** The truncated mean of two numbers lies between them. */
  lemma TruncHalfBetween(a: int, b: int)
    ensures (if a <= b then a else b) <= TruncHalf(a + b) <= (if a <= b then b else a)
  {
  }

  function Abs(x: int): int {
    if x < 0 then -x else x
  }

  /** A group of exactly two rows whose starts are at most `maxDist` apart. */
  predicate ClosePair(g: seq<Primer>, maxDist: int) {
    |g| == 2 && Abs(g[0].start - g[1].start) <= maxDist
  }

  /** The rows one group contributes: a close pair becomes its first row with
      the truncated mean start and end and the pair id as name; any other
      group is kept as it is. */
  function MergeGroup(g: seq<Primer>, pid: string, maxDist: int): seq<Primer> {
    if ClosePair(g, maxDist) then
      [g[0].(start := TruncHalf(g[0].start + g[1].start), end := TruncHalf(g[0].end + g[1].end), name := pid)]
    else g
  }

  /** A close pair becomes one row on the same chromosome, of the same type,
      named by the pair id, whose start and end lie between the pair's; any
      other group passes through unchanged. */
  lemma MergeGroupSpec(g: seq<Primer>, pid: string, maxDist: int)
    ensures !ClosePair(g, maxDist) ==> MergeGroup(g, pid, maxDist) == g
    ensures ClosePair(g, maxDist) ==>
      var m := MergeGroup(g, pid, maxDist);
      && |m| == 1
      && m[0].chrom == g[0].chrom && m[0].kind == g[0].kind && m[0].name == pid
      && (if g[0].start <= g[1].start then g[0].start else g[1].start) <= m[0].start
      && m[0].start <= (if g[0].start <= g[1].start then g[1].start else g[0].start)
      && (if g[0].end <= g[1].end then g[0].end else g[1].end) <= m[0].end
      && m[0].end <= (if g[0].end <= g[1].end then g[1].end else g[0].end)
  {
    if ClosePair(g, maxDist) {
      TruncHalfBetween(g[0].start, g[1].start);
      TruncHalfBetween(g[0].end, g[1].end);
    }
  }

  /** The rows the groups of `keys` contribute, in the order of `keys`. */
  function MergeAll(rows: seq<Primer>, keys: seq<Key>, maxDist: int): seq<Primer> {
    if keys == [] then []
    else
      var k := keys[|keys| - 1];
      MergeAll(rows, keys[..|keys| - 1], maxDist) + MergeGroup(Group(rows, k), k.1, maxDist)
  }

  /** The rows of `merge_primers`. */
  function Merged(rows: seq<Primer>, maxDist: int): seq<Primer> {
    MergeAll(rows, GroupKeys(rows), maxDist)
  }

  /** `merge_primers(df, max_dist)`: the loop over the groups. */
  method MergePrimers(rows: seq<Primer>, maxDist: int) returns (merged: seq<Primer>)
    ensures merged == Merged(rows, maxDist)
  {
    var keys := GroupKeys(rows);
    merged := [];
    for i := 0 to |keys|
      invariant merged == MergeAll(rows, keys[..i], maxDist)
    {
      MergeAllSnoc(rows, keys, i, maxDist);
      var rowsOut := MergeOne(Group(rows, keys[i]), keys[i].1, maxDist);
      merged := merged + rowsOut;
    }
    assert keys[..|keys|] == keys;
  }

  lemma MergeAllSnoc(rows: seq<Primer>, keys: seq<Key>, i: nat, maxDist: int)
    requires i < |keys|
    ensures MergeAll(rows, keys[..i + 1], maxDist) ==
      MergeAll(rows, keys[..i], maxDist) + MergeGroup(Group(rows, keys[i]), keys[i].1, maxDist)
  {
    assert keys[..i + 1][..i] == keys[..i];
  }

  /** The body of the group loop for one group. */
  method MergeOne(group: seq<Primer>, pid: string, maxDist: int) returns (out: seq<Primer>)
    ensures out == MergeGroup(group, pid, maxDist)
  {
    if |group| == 2 {
      var s1, s2 := group[0].start, group[1].start;
      if Abs(s1 - s2) <= maxDist {
        var m := group[0].(start := TruncHalf(s1 + s2), end := TruncHalf(group[0].end + group[1].end), name := pid);
        return [m];
      }
    }
    return group;
  }

  /** The total size of the groups of `keys`. */
  function GroupTotal(rows: seq<Primer>, keys: seq<Key>): nat {
    if keys == [] then 0
    else GroupTotal(rows, keys[..|keys| - 1]) + |Group(rows, keys[|keys| - 1])|
  }

  /** Counting the rows of a new key separately. */
  lemma {:induction false} CountSplit(rows: seq<Primer>, ks: set<Key>, k: Key)
    requires k !in ks
    ensures CountIn(rows, ks + {k}) == CountIn(rows, ks) + CountIn(rows, {k})
  {
    if rows != [] {
      CountSplit(rows[..|rows| - 1], ks, k);
    }
  }

  /** Distinct keys: the groups together hold the rows of those keys. */
  lemma {:induction false} GroupTotalCount(rows: seq<Primer>, keys: seq<Key>)
    requires forall i, j | 0 <= i < j < |keys| :: keys[i] != keys[j]
    ensures GroupTotal(rows, keys) == CountIn(rows, set k | k in keys)
  {
    if keys != [] {
      var front := keys[..|keys| - 1];
      var k := keys[|keys| - 1];
      GroupTotalCount(rows, front);
      assert k !in front;
      var before := set x | x in front;
      assert (set x | x in keys) == before + {k};
      CountSplit(rows, before, k);
      assert GroupTotal(rows, keys) == CountIn(rows, before) + CountIn(rows, {k});
    } else {
      assert (set k | k in keys) == {};
      CountNone(rows);
    }
  }

  /** No key, no row. */
  lemma {:induction false} CountNone(rows: seq<Primer>)
    ensures CountIn(rows, {}) == 0
  {
    if rows != [] {
      CountNone(rows[..|rows| - 1]);
    }
  }

  /** Every row is counted once its key is among `ks`. */
  lemma {:induction false} CountAll(rows: seq<Primer>, ks: set<Key>)
    requires forall i | 0 <= i < |rows| :: KeyOf(rows[i]) in ks
    ensures CountIn(rows, ks) == |rows|
  {
    if rows != [] {
      CountAll(rows[..|rows| - 1], ks);
    }
  }

  /** No group grows when merged. */
  lemma {:induction false} MergeAllSize(rows: seq<Primer>, keys: seq<Key>, maxDist: int)
    ensures |MergeAll(rows, keys, maxDist)| <= GroupTotal(rows, keys)
  {
    if keys != [] {
      MergeAllSize(rows, keys[..|keys| - 1], maxDist);
    }
  }

  /** Merging never increases the number of rows. */
  lemma MergedCount(rows: seq<Primer>, maxDist: int)
    ensures |Merged(rows, maxDist)| <= |rows|
  {
    var keys := GroupKeys(rows);
    GroupKeysSpec(rows);
    GroupTotalCount(rows, keys);
    MergeAllSize(rows, keys, maxDist);
    forall i | 0 <= i < |rows|
      ensures KeyOf(rows[i]) in (set k | k in keys)
    {
      assert KeyOf(rows[i]) in keys;
    }
    CountAll(rows, set k | k in keys);
  }

  /** `x` merges a close pair of rows `a`, `b` sharing a key. */
  ghost predicate MergedPair(rows: seq<Primer>, maxDist: int, x: Primer) {
    exists a: Primer, b: Primer | multiset{a, b} <= multiset(rows) ::
      && KeyOf(a) == KeyOf(b) && Abs(a.start - b.start) <= maxDist
      && x.chrom == a.chrom && x.kind == a.kind && x.name == PairId(a.name)
      && x.start == TruncHalf(a.start + b.start) && x.end == TruncHalf(a.end + b.end)
  }

  /** The rows one group contributes are input rows or merge a close pair. */
  lemma MergeGroupFrom(rows: seq<Primer>, k: Key, maxDist: int)
    ensures forall x | x in MergeGroup(Group(rows, k), k.1, maxDist) :: x in rows || MergedPair(rows, maxDist, x)
  {
    var g := Group(rows, k);
    if ClosePair(g, maxDist) {
      assert multiset{g[0], g[1]} == multiset(g) by {
        assert g == [g[0], g[1]];
      }
      assert KeyOf(g[0]) == k && KeyOf(g[1]) == k;
      assert MergedPair(rows, maxDist, MergeGroup(g, k.1, maxDist)[0]);
    } else {
      forall x | x in g
        ensures x in rows
      {
        assert x in multiset(g);
      }
    }
  }

  /** Every merged row is an input row or merges a close pair of rows
      sharing chromosome and pair id. */
  lemma {:induction false} MergeAllFrom(rows: seq<Primer>, keys: seq<Key>, maxDist: int)
    ensures forall x | x in MergeAll(rows, keys, maxDist) :: x in rows || MergedPair(rows, maxDist, x)
  {
    if keys != [] {
      var k := keys[|keys| - 1];
      MergeAllFrom(rows, keys[..|keys| - 1], maxDist);
      MergeGroupFrom(rows, k, maxDist);
      assert MergeAll(rows, keys, maxDist)
        == MergeAll(rows, keys[..|keys| - 1], maxDist) + MergeGroup(Group(rows, k), k.1, maxDist);
    }
  }

  // -------------------------------------------------------------- load_repeats

  /** A GFF feature as pybedtools hands it over: its nine columns. */
  datatype GffFeature = GffFeature(
    seqid: string, source: string, kind: string, start: string, end: string,
    score: string, strand: string, phase: string, attributes: string)

  /** A BED-like repeat row. */
  datatype Repeat = Repeat(chrom: string, start: int, end: int, name: string)

  function Length(r: Repeat): int {
    r.end - r.start
  }

  /** The `gff.filter(...)` test: a `dispersed_repeat` whose attributes
      mention the repeat name. */
  predicate Selected(f: GffFeature, repeatName: string) {
    f.kind == "dispersed_repeat" && Contains(f.attributes, repeatName)
  }

  /** The BED-like row of a feature: the start made 0-based; a crash when a
      coordinate is not an integer. */
  function RepeatOf(f: GffFeature, repeatName: string): Outcome<Repeat> {
    match (PyInt(f.start), PyInt(f.end))
    case (Some(s), Some(e)) => Ok(Repeat(f.seqid, s - 1, e, repeatName))
    case _ => Crash("ValueError")
  }

  /** The rows of the selected features, in file order. */
  function BedLike(fs: seq<GffFeature>, repeatName: string): Outcome<seq<Repeat>> {
    if fs == [] then Ok([])
    else
      var f := fs[|fs| - 1];
      match BedLike(fs[..|fs| - 1], repeatName)
      case Crash(e) => Crash(e)
      case Ok(rs) =>
        if !Selected(f, repeatName) then Ok(rs)
        else
          match RepeatOf(f, repeatName)
          case Crash(e) => Crash(e)
          case Ok(r) => Ok(rs + [r])
  }

  /** Every row comes from a selected feature: its chromosome is the
      feature's, its start one less than the feature's, its end the feature's. */
  lemma {:induction false} BedLikeFrom(fs: seq<GffFeature>, repeatName: string)
    requires BedLike(fs, repeatName).Ok?
    ensures forall r | r in BedLike(fs, repeatName).value ::
      exists i | 0 <= i < |fs| :: Selected(fs[i], repeatName) && RepeatOf(fs[i], repeatName) == Ok(r)
  {
    if fs != [] {
      var front := fs[..|fs| - 1];
      BedLikeFrom(front, repeatName);
      forall r | r in BedLike(fs, repeatName).value
        ensures exists i | 0 <= i < |fs| :: Selected(fs[i], repeatName) && RepeatOf(fs[i], repeatName) == Ok(r)
      {
        if r in BedLike(front, repeatName).value {
          var i :| 0 <= i < |front| && Selected(front[i], repeatName) && RepeatOf(front[i], repeatName) == Ok(r);
          assert fs[i] == front[i];
        } else {
          assert RepeatOf(fs[|fs| - 1], repeatName) == Ok(r);
        }
      }
    }
  }

  /** A converted row has the repeat's name and starts one before the
      feature's 1-based start. */
  lemma RepeatOfSpec(f: GffFeature, repeatName: string)
    requires RepeatOf(f, repeatName).Ok?
    ensures var r := RepeatOf(f, repeatName).value;
      && r.chrom == f.seqid && r.name == repeatName
      && PyInt(f.start) == Some(r.start + 1) && PyInt(f.end) == Some(r.end)
  {
  }

  /** `bed_like_df[bed_like_df["length"] >= min_length]`. */
  function LengthFilter(rs: seq<Repeat>, minLength: int): (out: seq<Repeat>)
    ensures forall r :: r in out <==> r in rs && Length(r) >= minLength
  {
    if rs == [] then []
    else
      var r := rs[|rs| - 1];
      assert forall x | x in rs :: x in rs[..|rs| - 1] || x == r;
      LengthFilter(rs[..|rs| - 1], minLength) + (if Length(r) >= minLength then [r] else [])
  }

  /** The order of `sort_values("length", ascending=False)`. */
  predicate LongerEq(a: Repeat, b: Repeat) {
    Length(a) >= Length(b)
  }

  lemma LongerEqTotal()
    ensures TotalPreorder(LongerEq)
  {
  }

  /** Some row of `rs` lies on chromosome `c`. */
  predicate HasChrom(rs: seq<Repeat>, c: string) {
    exists x | x in rs :: x.chrom == c
  }

  /** No chromosome appears twice in `rs`. */
  predicate DistinctChroms(rs: seq<Repeat>) {
    forall i, j | 0 <= i < j < |rs| :: rs[i].chrom != rs[j].chrom
  }

  /** `drop_duplicates("chrom", keep="first")`. */
  function FirstPerChrom(rs: seq<Repeat>): seq<Repeat> {
    if rs == [] then []
    else
      var out := FirstPerChrom(rs[..|rs| - 1]);
      var r := rs[|rs| - 1];
      if HasChrom(out, r.chrom) then out else out + [r]
  }

  /** Place `i` holds the first row of its chromosome. */
  ghost predicate FirstOfChrom(rs: seq<Repeat>, i: nat) {
    i < |rs| && forall j | 0 <= j < i :: rs[j].chrom != rs[i].chrom
  }

  /** After `drop_duplicates` no chromosome appears twice. */
  lemma {:induction false} FirstPerChromDistinct(rs: seq<Repeat>)
    ensures DistinctChroms(FirstPerChrom(rs))
  {
    if rs != [] {
      var out0 := FirstPerChrom(rs[..|rs| - 1]);
      var r := rs[|rs| - 1];
      FirstPerChromDistinct(rs[..|rs| - 1]);
      if !HasChrom(out0, r.chrom) {
        forall i | 0 <= i < |out0|
          ensures out0[i].chrom != r.chrom
        {
          assert out0[i] in out0;
        }
        DistinctSnoc(out0, r);
      }
    }
  }

  /** A row on a new chromosome keeps the chromosomes distinct. */
  lemma DistinctSnoc(rs: seq<Repeat>, r: Repeat)
    requires DistinctChroms(rs)
    requires forall i | 0 <= i < |rs| :: rs[i].chrom != r.chrom
    ensures DistinctChroms(rs + [r])
  {
    var out := rs + [r];
    forall i, j | 0 <= i < j < |out|
      ensures out[i].chrom != out[j].chrom
    {
      if j < |rs| {
        assert out[i] == rs[i] && out[j] == rs[j];
      } else {
        assert out[i] == rs[i] && out[j] == r;
      }
    }
  }

  /** Every kept row is the first row of its chromosome. */
  lemma {:induction false} FirstPerChromFirst(rs: seq<Repeat>)
    ensures forall x | x in FirstPerChrom(rs) :: exists i: nat :: FirstOfChrom(rs, i) && rs[i] == x
  {
    if rs != [] {
      var front := rs[..|rs| - 1];
      var r := rs[|rs| - 1];
      var out0 := FirstPerChrom(front);
      FirstPerChromFirst(front);
      forall x | x in FirstPerChrom(rs)
        ensures exists i: nat :: FirstOfChrom(rs, i) && rs[i] == x
      {
        if x in out0 {
          var i: nat :| FirstOfChrom(front, i) && front[i] == x;
          assert FirstOfChrom(rs, i);
        } else {
          FirstNew(rs);
        }
      }
    }
  }

  /** A row kept because its chromosome is new is the first of that chromosome. */
  lemma FirstNew(rs: seq<Repeat>)
    requires rs != [] && !HasChrom(FirstPerChrom(rs[..|rs| - 1]), rs[|rs| - 1].chrom)
    ensures FirstOfChrom(rs, |rs| - 1)
  {
    var front := rs[..|rs| - 1];
    var r := rs[|rs| - 1];
    FirstPerChromCovers(front);
    forall j | 0 <= j < |rs| - 1
      ensures rs[j].chrom != r.chrom
    {
      assert front[j] in front;
    }
  }

  /** Every kept row comes from the input. */
  lemma {:induction false} FirstPerChromIn(rs: seq<Repeat>)
    ensures forall x | x in FirstPerChrom(rs) :: x in rs
  {
    if rs != [] {
      var front := rs[..|rs| - 1];
      FirstPerChromIn(front);
      assert forall x | x in front :: x in rs;
    }
  }

  /** Every chromosome of the input keeps a row. */
  lemma {:induction false} FirstPerChromCovers(rs: seq<Repeat>)
    ensures forall y | y in rs :: HasChrom(FirstPerChrom(rs), y.chrom)
  {
    if rs != [] {
      var front := rs[..|rs| - 1];
      var r := rs[|rs| - 1];
      var out0 := FirstPerChrom(front);
      FirstPerChromCovers(front);
      assert forall x | x in out0 :: x in FirstPerChrom(rs);
      forall y | y in rs
        ensures HasChrom(FirstPerChrom(rs), y.chrom)
      {
        if y != r {
          assert y in front;
          var x :| x in out0 && x.chrom == y.chrom;
          assert x in FirstPerChrom(rs);
        } else if !HasChrom(out0, r.chrom) {
          assert r in FirstPerChrom(rs);
        }
      }
    }
  }

  /** `drop_duplicates` keeps exactly the chromosomes of its input. */
  lemma FirstPerChromChroms(rs: seq<Repeat>)
    ensures forall c :: HasChrom(FirstPerChrom(rs), c) <==> HasChrom(rs, c)
  {
    FirstPerChromIn(rs);
    FirstPerChromCovers(rs);
  }

  /** `largest_only`: sort by length, longest first, then keep the first row
      of each chromosome. */
  function Longest(rs: seq<Repeat>): seq<Repeat> {
    FirstPerChrom(Sort(rs, LongerEq))
  }

  /** With `largest_only` no chromosome appears twice. */
  lemma LongestDistinct(rs: seq<Repeat>)
    ensures DistinctChroms(Longest(rs))
  {
    FirstPerChromDistinct(Sort(rs, LongerEq));
  }

  /** With `largest_only` every chromosome of the input keeps a repeat. */
  lemma LongestChroms(rs: seq<Repeat>)
    ensures forall c :: HasChrom(Longest(rs), c) <==> HasChrom(rs, c)
  {
    var s := Sort(rs, LongerEq);
    FirstPerChromChroms(s);
    forall c
      ensures HasChrom(s, c) <==> HasChrom(rs, c)
    {
      if HasChrom(s, c) {
        var y :| y in s && y.chrom == c;
        assert y in multiset(s);
      }
      if HasChrom(rs, c) {
        var y :| y in rs && y.chrom == c;
        assert y in multiset(rs);
      }
    }
  }

  /** The repeat kept for a chromosome is one of the input's and none on that
      chromosome is longer. */
  lemma LongestMax(rs: seq<Repeat>)
    ensures forall x, r | x in Longest(rs) && r in rs && r.chrom == x.chrom ::
      x in rs && Length(r) <= Length(x)
  {
    var s := Sort(rs, LongerEq);
    LongestSorted(rs);
    FirstPerChromFirst(s);
    forall x, r | x in Longest(rs) && r in rs && r.chrom == x.chrom
      ensures x in rs && Length(r) <= Length(x)
    {
      var i: nat :| FirstOfChrom(s, i) && s[i] == x;
      assert x in multiset(s);
      assert r in multiset(s);
      var j :| 0 <= j < |s| && s[j] == r;
      FirstIsLongest(s, i, j);
    }
  }

  /** Sorting by `LongerEq` puts the longest rows first. */
  lemma LongestSorted(rs: seq<Repeat>)
    ensures Sorted(Sort(rs, LongerEq), LongerEq)
  {
    LongerEqTotal();
    SortSorted(rs, LongerEq);
  }

  /** In rows sorted longest first, the first row of a chromosome is one of
      its longest. */
  lemma FirstIsLongest(s: seq<Repeat>, i: nat, j: nat)
    requires Sorted(s, LongerEq) && FirstOfChrom(s, i)
    requires j < |s| && s[j].chrom == s[i].chrom
    ensures Length(s[j]) <= Length(s[i])
  {
    if i < j {
      assert LongerEq(s[i], s[j]);
    } else {
      assert i == j;
    }
  }

  /** Every repeat `largest_only` keeps comes from its input. */
  lemma LongestIn(rs: seq<Repeat>)
    ensures forall x | x in Longest(rs) :: x in rs
  {
    var s := Sort(rs, LongerEq);
    FirstPerChromFirst(s);
    forall x | x in Longest(rs)
      ensures x in rs
    {
      var i: nat :| FirstOfChrom(s, i) && s[i] == x;
      assert x in multiset(s);
    }
  }

  /** `bed_like_df[bed_like_df["chrom"].isin(shared_chroms)]`, applied only
      when a non-empty set is given: an empty set is falsy in Python. */
  function Restrict(rs: seq<Repeat>, shared: Option<set<string>>): (out: seq<Repeat>)
    ensures shared.None? || shared.value == {} ==> out == rs
    ensures shared.Some? && shared.value != {} ==> forall r :: r in out <==> r in rs && r.chrom in shared.value
  {
    if shared.None? || shared.value == {} then rs
    else if rs == [] then []
    else
      var r := rs[|rs| - 1];
      assert forall x | x in rs :: x in rs[..|rs| - 1] || x == r;
      Restrict(rs[..|rs| - 1], shared) + (if r.chrom in shared.value then [r] else [])
  }

  /** `load_repeats(gff_file, repeat_name, shared_chroms, min_length, largest_only)`. */
  function LoadRepeats(fs: seq<GffFeature>, repeatName: string, shared: Option<set<string>>,
                       minLength: int, largestOnly: bool): Outcome<seq<Repeat>>
  {
    match BedLike(fs, repeatName)
    case Crash(e) => Crash(e)
    case Ok(rs) =>
      var kept := LengthFilter(rs, minLength);
      Ok(Restrict(if largestOnly then Longest(kept) else kept, shared))
  }

  /** Every loaded repeat is at least `min_length` long, comes from a
      selected feature, and lies on a shared chromosome when a non-empty set
      is given. */
  lemma LoadRepeatsKept(fs: seq<GffFeature>, repeatName: string, shared: Option<set<string>>,
                        minLength: int, largestOnly: bool)
    requires LoadRepeats(fs, repeatName, shared, minLength, largestOnly).Ok?
    ensures var out := LoadRepeats(fs, repeatName, shared, minLength, largestOnly).value;
      && (forall r | r in out :: Length(r) >= minLength && r in BedLike(fs, repeatName).value)
      && (shared.Some? && shared.value != {} ==> forall r | r in out :: r.chrom in shared.value)
  {
    var kept := LengthFilter(BedLike(fs, repeatName).value, minLength);
    LongestIn(kept);
  }

  /** With `largest_only` no chromosome is loaded twice. */
  lemma LoadRepeatsDistinct(fs: seq<GffFeature>, repeatName: string, shared: Option<set<string>>,
                            minLength: int)
    requires LoadRepeats(fs, repeatName, shared, minLength, true).Ok?
    ensures DistinctChroms(LoadRepeats(fs, repeatName, shared, minLength, true).value)
  {
    var kept := LengthFilter(BedLike(fs, repeatName).value, minLength);
    LongestDistinct(kept);
    RestrictDistinct(Longest(kept), shared);
  }

  /** Restricting keeps rows in order, so distinct chromosomes stay distinct. */
  lemma {:induction false} RestrictDistinct(rs: seq<Repeat>, shared: Option<set<string>>)
    requires DistinctChroms(rs)
    ensures DistinctChroms(Restrict(rs, shared))
  {
    if shared.Some? && shared.value != {} && rs != [] {
      var front := rs[..|rs| - 1];
      var r := rs[|rs| - 1];
      assert DistinctChroms(front) by {
        forall i, j | 0 <= i < j < |front|
          ensures front[i].chrom != front[j].chrom
        {
          assert front[i] == rs[i] && front[j] == rs[j];
        }
      }
      RestrictDistinct(front, shared);
      var out0 := Restrict(front, shared);
      assert Restrict(rs, shared) == out0 + (if r.chrom in shared.value then [r] else []);
      if r.chrom in shared.value {
        forall i | 0 <= i < |out0|
          ensures out0[i].chrom != r.chrom
        {
          assert out0[i] in out0;
          var j :| 0 <= j < |front| && front[j] == out0[i];
          assert rs[j] == front[j];
        }
        DistinctSnoc(out0, r);
      }
    }
  }

  // ----------------------------------------------------- compute_distance_dict

  /** `primer_chroms & repeat_chroms`. */
  function SharedChroms(primers: seq<Primer>, repeats: seq<Repeat>): set<string> {
    (set p | p in primers :: p.chrom) * (set r | r in repeats :: r.chrom)
  }

  /** The order of `sort_values(["chrom", "start", "end"])`. */
  predicate PrimerLe(a: Primer, b: Primer) {
    || (a.chrom != b.chrom && LexLe(a.chrom, b.chrom))
    || (a.chrom == b.chrom && a.start < b.start)
    || (a.chrom == b.chrom && a.start == b.start && a.end <= b.end)
  }

  /** The primers handed to `closest`: those on a shared chromosome, sorted. */
  function ClosestPrimers(primers: seq<Primer>, shared: set<string>): seq<Primer> {
    Sort(OnShared(primers, shared), PrimerLe)
  }

  function OnShared(primers: seq<Primer>, shared: set<string>): (out: seq<Primer>)
    ensures forall p :: p in out <==> p in primers && p.chrom in shared
  {
    if primers == [] then []
    else
      var p := primers[|primers| - 1];
      assert forall x | x in primers :: x in primers[..|primers| - 1] || x == p;
      OnShared(primers[..|primers| - 1], shared) + (if p.chrom in shared then [p] else [])
  }

  /** The repeats handed to `closest`: those whose stripped chromosome is
      shared. */
  function ClosestRepeats(repeats: seq<Repeat>, shared: set<string>): (out: seq<Repeat>)
    ensures forall r :: r in out <==> r in repeats && Strip(r.chrom) in shared
  {
    if repeats == [] then []
    else
      var r := repeats[|repeats| - 1];
      assert forall x | x in repeats :: x in repeats[..|repeats| - 1] || x == r;
      ClosestRepeats(repeats[..|repeats| - 1], shared) + (if Strip(r.chrom) in shared then [r] else [])
  }

  /** The key `(chrom, start, end, name)` of a primer. */
  type DistKey = (string, int, int, string)

  /** One `closest` output line: the primer's key and the last column's
      distance. The fields are read left to right, so a short line fails with
      an IndexError and a non-numeric field with a ValueError, whichever
      comes first. */
  function DistanceOf(f: seq<string>): (r: Outcome<(DistKey, int)>)
    ensures r.Ok? <==> |f| >= 4 && PyInt(f[1]).Some? && PyInt(f[2]).Some? && PyInt(f[|f| - 1]).Some?
    ensures r.Ok? ==> r.value == ((f[0], PyInt(f[1]).value, PyInt(f[2]).value, f[3]), PyInt(f[|f| - 1]).value)
    ensures |f| < 2 ==> r == Crash("IndexError")
  {
    if |f| < 2 then Crash("IndexError")
    else if PyInt(f[1]).None? then Crash("ValueError")
    else if |f| < 3 then Crash("IndexError")
    else if PyInt(f[2]).None? then Crash("ValueError")
    else if |f| < 4 then Crash("IndexError")
    else if PyInt(f[|f| - 1]).None? then Crash("ValueError")
    else Ok(((f[0], PyInt(f[1]).value, PyInt(f[2]).value, f[3]), PyInt(f[|f| - 1]).value))
  }

  /** The dictionary entry of one line. */
  function DistanceEntry(f: seq<string>): Outcome<Option<(DistKey, int)>> {
    match DistanceOf(f)
    case Crash(e) => Crash(e)
    case Ok(kd) => Ok(Some(kd))
  }

  /** The `distances` dictionary after the given lines. */
  function Distances(lines: seq<seq<string>>): Outcome<map<DistKey, int>> {
    Assign(DistanceEntry, lines)
  }

  /** The `for f in closest` loop. */
  method CollectDistances(lines: seq<seq<string>>) returns (r: Outcome<map<DistKey, int>>)
    ensures r == Distances(lines)
  {
    var distances: map<DistKey, int> := map[];
    for i := 0 to |lines|
      invariant Assign(DistanceEntry, lines[..i]) == Ok(distances)
    {
      AssignSnoc(DistanceEntry, lines, i, distances);
      var kd := DistanceOf(lines[i]);
      if kd.Crash? {
        AssignCrashStays(DistanceEntry, lines, i + 1);
        return Crash(kd.reason);
      }
      distances := distances[kd.value.0 := kd.value.1];
    }
    assert lines[..|lines|] == lines;
    return Ok(distances);
  }

  /** The `closest` call of bedtools, which is not modelled: a function of
      the primers and repeats handed to it. */
  type Closest = (seq<Primer>, seq<Repeat>) -> seq<seq<string>>

  /** `compute_distance_dict(primers_df, repeat_bed)`. */
  function DistanceDict(primers: seq<Primer>, repeats: seq<Repeat>, closest: Closest): Outcome<map<DistKey, int>> {
    var shared := SharedChroms(primers, repeats);
    if shared == {} then Ok(map[])
    else Distances(closest(ClosestPrimers(primers, shared), ClosestRepeats(repeats, shared)))
  }

  /** With no chromosome in common the dictionary is empty, whatever
      `closest` would say; otherwise `closest` sees exactly the primers on
      shared chromosomes, sorted, and only repeats on shared chromosomes. */
  lemma DistanceDictSpec(primers: seq<Primer>, repeats: seq<Repeat>)
    ensures (forall p, r | p in primers && r in repeats :: p.chrom != r.chrom) ==>
      forall closest: Closest :: DistanceDict(primers, repeats, closest) == Ok(map[])
    ensures var shared := SharedChroms(primers, repeats);
      var ps := ClosestPrimers(primers, shared);
      && (forall p :: p in ps <==> p in primers && exists r | r in repeats :: r.chrom == p.chrom)
      && Sorted(ps, PrimerLe)
      && (forall r | r in ClosestRepeats(repeats, shared) :: Strip(r.chrom) in shared)
  {
    var shared := SharedChroms(primers, repeats);
    if forall p, r | p in primers && r in repeats :: p.chrom != r.chrom {
      assert shared == {};
    }
    var on := OnShared(primers, shared);
    PrimerLeTotal();
    SortSorted(on, PrimerLe);
    forall p
      ensures p in ClosestPrimers(primers, shared) <==> p in primers && exists r | r in repeats :: r.chrom == p.chrom
    {
      assert p in ClosestPrimers(primers, shared) <==> p in multiset(on);
    }
  }

  lemma PrimerLeTotal()
    ensures TotalPreorder(PrimerLe)
  {
    forall a, b
      ensures PrimerLe(a, b) || PrimerLe(b, a)
    {
      LexLeTotal(a.chrom, b.chrom);
    }
    forall a, b, c | PrimerLe(a, b) && PrimerLe(b, c)
      ensures PrimerLe(a, c)
    {
      if a.chrom != b.chrom && b.chrom != c.chrom {
        LexLeTrans(a.chrom, b.chrom, c.chrom);
        LexLeSame(a.chrom, b.chrom);
      }
    }
  }

  /** A primer has a distance exactly when some `closest` line names it,
      and gets the distance of the last such line (a later line for the same
      primer overwrites an earlier one); the whole call crashes when any line
      is malformed. */
  lemma DistancesSpec(lines: seq<seq<string>>)
    ensures Distances(lines).Crash? <==> exists i | 0 <= i < |lines| :: DistanceOf(lines[i]).Crash?
    ensures Distances(lines).Ok? ==> forall k ::
      k in Distances(lines).value <==> exists i | 0 <= i < |lines| :: DistanceOf(lines[i]).Ok? && DistanceOf(lines[i]).value.0 == k
    ensures Distances(lines).Ok? ==> forall k | k in Distances(lines).value ::
      exists i :: LastYields(DistanceEntry, lines, k, i) && Distances(lines).value[k] == DistanceOf(lines[i]).value.1
  {
    AssignCrash(DistanceEntry, lines);
    assert Raises(DistanceEntry, lines) <==> exists i | 0 <= i < |lines| :: DistanceOf(lines[i]).Crash?;
    if Distances(lines).Ok? {
      AssignKeys(DistanceEntry, lines);
      forall k
        ensures Yields(DistanceEntry, lines, k) <==> exists i | 0 <= i < |lines| :: DistanceOf(lines[i]).Ok? && DistanceOf(lines[i]).value.0 == k
      {
      }
      forall k | k in Distances(lines).value
        ensures exists i :: LastYields(DistanceEntry, lines, k, i) && Distances(lines).value[k] == DistanceOf(lines[i]).value.1
      {
        AssignLastWins(DistanceEntry, lines, k);
      }
    }
  }
}
