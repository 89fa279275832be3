/** Mean methylation of the Tgut716A and Tgut191A repeat regions of a GFF,
    with an optional "best / other" tagging per repeat and chromosome.

    The BigWig extraction of `chrom:start-end` is the parameter `fetch`: it
    yields `None` when the extraction fails, otherwise the `value` column of
    the extracted bedGraph, a missing (NaN) value being `None`. */
module AvgMethylation {
  import opened Common
  import opened Strings
  import opened Sorting

  /** The repeats whose regions are collected, in the dict's key order. */
  const Repeats: seq<string> := ["Tgut716A", "Tgut191A"]

  type Fetch = (string, int, int) -> Option<seq<Option<real>>>

  /** `(start, end, avg_methylation)` of a recorded region. */
  datatype Region = Region(start: int, end: int, mean: real)

  datatype Tag = Best | Other

  /** One row of the result: `(Repeat, Methylation, Chromosome, Match_Type)`. */
  datatype Row = Row(repeat: string, methylation: real, chrom: string, tag: Tag)

  /** A GFF line whose target is one of the repeats. */
  datatype Candidate = Candidate(repeat: string, chrom: string, start: int, end: int)

  /** A parsed line: a candidate, nothing, or the exception it raises. */
  type Read = Outcome<Option<Candidate>>

  // ------------------------------------------------------ target extraction

  /** The target of an attribute column: only when it mentions `Target`;
      then the first word after `Target `, the part after its first `:`,
      with double quotes stripped. A missing piece is an IndexError. */
  function ExtractTarget(attributes: string): (r: Outcome<Option<string>>)
    ensures !Contains(attributes, "Target") ==> r == Ok(None)
  {
    if !Contains(attributes, "Target") then Ok(None)
    else
      var after := Split(attributes, "Target ");
      if |after| < 2 then Crash("IndexError: list index out of range")
      else
        var words := Words(after[1]);
        if |words| == 0 then Crash("IndexError: list index out of range")
        else
          var pieces := Split(words[0], ":");
          if |pieces| < 2 then Crash("IndexError: list index out of range")
          else Ok(Some(StripChar(pieces[1], '"')))
  }

  /** An extracted target is a single word without `:` and without
      surrounding double quotes, and the attributes mention `Target`. */
  lemma ExtractTargetShape(attributes: string)
    requires ExtractTarget(attributes).Ok? && ExtractTarget(attributes).value.Some?
    ensures Contains(attributes, "Target")
    ensures var t := ExtractTarget(attributes).value.value;
            && (forall i | 0 <= i < |t| :: !IsSpace(t[i]) && t[i] != ':')
            && (t == [] || (t[0] != '"' && t[|t| - 1] != '"'))
  {
    var after := Split(attributes, "Target ");
    var words := Words(after[1]);
    var pieces := Split(words[0], ":");
    SplitPieceIn(words[0], ":", 1);
    SplitNoSep(words[0], ":");
    NoChar(pieces[1], ':');
    StripCharIn(pieces[1], '"');
    assert IsWord(words[0]);
    var t := StripChar(pieces[1], '"');
    forall i | 0 <= i < |t|
      ensures !IsSpace(t[i]) && t[i] != ':'
    {
      assert t[i] in pieces[1];
      assert t[i] in words[0];
      var j :| 0 <= j < |words[0]| && words[0][j] == t[i];
    }
  }

  lemma {:induction false} StripCharIn(s: string, c: char)
    ensures forall x | x in StripChar(s, c) :: x in s
    decreases |s|
  {
    if |s| > 0 && s[0] == c {
      StripCharIn(s[1..], c);
    } else if |s| > 0 && s[|s| - 1] == c {
      StripCharIn(s[..|s| - 1], c);
    }
  }

  /** A data line: `IndexError` unless it has 9 fields; the target decides
      whether it is a candidate; `int()` of the coordinates may then fail. */
  function ReadLine(line: string): Read {
    if StartsWith(line, "#") then Ok(None)
    else
      var fields := Split(Strip(line), "\t");
      if |fields| < 9 then Crash("IndexError: list index out of range")
      else
        var target := ExtractTarget(fields[8]);
        if target.Crash? then Crash(target.reason)
        else if target.value.None? || target.value.value !in Repeats then Ok(None)
        else
          var start := PyInt(fields[3]);
          var end := PyInt(fields[4]);
          if start.None? || end.None? then Crash("ValueError: invalid literal for int()")
          else Ok(Some(Candidate(target.value.value, fields[0], start.value, end.value)))
  }

  // ------------------------------------------------------------ the values

  /** `dropna()`: the present values, in order. */
  function Present(vs: seq<Option<real>>): (xs: seq<real>)
    ensures |xs| <= |vs|
    ensures forall x | x in xs :: Some(x) in vs
  {
    if vs == [] then []
    else
      var xs := Present(vs[..|vs| - 1]);
      match vs[|vs| - 1]
      case Some(x) => xs + [x]
      case None => xs
  }

  function SumReals(xs: seq<real>): real {
    if xs == [] then 0.0 else SumReals(xs[..|xs| - 1]) + xs[|xs| - 1]
  }

  function MeanOf(xs: seq<real>): real
    requires |xs| > 0
  {
    SumReals(xs) / |xs| as real
  }

  /** What a parsed line adds to the collection: the candidate's region when
      it is long enough, its extraction succeeds and it has a present value. */
  datatype Recorded = Recorded(repeat: string, chrom: string, region: Region)

  function RegionOf(read: Read, fetch: Fetch, minLength: int): (r: Option<Recorded>)
    ensures r.Some? ==> r.value.region.end - r.value.region.start >= minLength
  {
    if read.Crash? || read.value.None? then None
    else
      var c := read.value.value;
      if c.end - c.start < minLength then None
      else
        var extracted := fetch(c.chrom, c.start, c.end);
        if extracted.None? then None
        else
          var valid := Present(extracted.value);
          if |valid| == 0 then None
          else Some(Recorded(c.repeat, c.chrom, Region(c.start, c.end, MeanOf(valid))))
  }

  /** A recorded region comes from a candidate line of the same repeat,
      chromosome and coordinates; its mean is the mean of the present values
      of its extraction, of which there is at least one. */
  lemma RegionOfMean(read: Read, fetch: Fetch, minLength: int)
    requires RegionOf(read, fetch, minLength).Some?
    ensures var r := RegionOf(read, fetch, minLength).value;
            && read == Ok(Some(Candidate(r.repeat, r.chrom, r.region.start, r.region.end)))
            && fetch(r.chrom, r.region.start, r.region.end).Some?
            && var valid := Present(fetch(r.chrom, r.region.start, r.region.end).value);
               |valid| > 0 && r.region.mean == MeanOf(valid)
  {
  }

  /** A region whose extraction fails or has no present value is not recorded. */
  lemma NoValuesNoRegion(c: Candidate, fetch: Fetch, minLength: int)
    requires fetch(c.chrom, c.start, c.end).None? || |Present(fetch(c.chrom, c.start, c.end).value)| == 0
    ensures RegionOf(Ok(Some(c)), fetch, minLength).None?
  {
  }

  /** Only the two repeats are ever candidates. */
  lemma ReadLineRepeat(line: string)
    requires ReadLine(line).Ok? && ReadLine(line).value.Some?
    ensures ReadLine(line).value.value.repeat in Repeats
  {
    var fields := Split(Strip(line), "\t");
    var target := ExtractTarget(fields[8]);
    assert ReadLine(line).value.value.repeat == target.value.value;
  }

  // ------------------------------------------------------------ collection

  /** What each line records, in line order. */
  function Records(lines: seq<string>, fetch: Fetch, minLength: int): (recs: seq<Option<Recorded>>)
    ensures |recs| == |lines|
    ensures forall j | 0 <= j < |lines| :: recs[j] == RegionOf(ReadLine(lines[j]), fetch, minLength)
  {
    seq(|lines|, j requires 0 <= j < |lines| => RegionOf(ReadLine(lines[j]), fetch, minLength))
  }

  /** The regions recorded for `rep` on `chrom`, in line order. */
  function RegionsOf(recs: seq<Option<Recorded>>, rep: string, chrom: string): seq<Region> {
    if recs == [] then []
    else
      var rs := RegionsOf(recs[..|recs| - 1], rep, chrom);
      var r := recs[|recs| - 1];
      if r.Some? && r.value.repeat == rep && r.value.chrom == chrom then rs + [r.value.region] else rs
  }

  /** The chromosomes of the regions recorded for `rep`, in line order. */
  function ChromsOf(recs: seq<Option<Recorded>>, rep: string): seq<string> {
    if recs == [] then []
    else
      var cs := ChromsOf(recs[..|recs| - 1], rep);
      var r := recs[|recs| - 1];
      if r.Some? && r.value.repeat == rep then cs + [r.value.chrom] else cs
  }

  predicate NoCrash(lines: seq<string>) {
    forall j | 0 <= j < |lines| :: ReadLine(lines[j]).Ok?
  }

  type Collection = map<string, ODict<string, seq<Region>>>

  /** One repeat's entry of `regions_per_chromosome` after the first `n`
      lines: its chromosomes in order of first region, each with its regions
      in line order. */
  ghost predicate CollectsRep(d: ODict<string, seq<Region>>, recs: seq<Option<Recorded>>, n: nat, rep: string)
    requires n <= |recs|
  {
    && d.Valid()
    && d.keys == Dedup(ChromsOf(recs[..n], rep))
    && forall chrom | chrom in d.entries :: d.entries[chrom] == RegionsOf(recs[..n], rep, chrom)
  }

  /** `regions_per_chromosome` after the first `n` lines. */
  ghost predicate Collects(st: Collection, recs: seq<Option<Recorded>>, n: nat)
    requires n <= |recs|
  {
    && st.Keys == {"Tgut716A", "Tgut191A"}
    && forall rep | rep in st :: CollectsRep(st[rep], recs, n, rep)
  }

  lemma {:induction false} RegionsOfEmpty(recs: seq<Option<Recorded>>, rep: string, chrom: string)
    requires chrom !in ChromsOf(recs, rep)
    ensures RegionsOf(recs, rep, chrom) == []
  {
    if recs != [] {
      RegionsOfEmpty(recs[..|recs| - 1], rep, chrom);
    }
  }

  /** The dict after adding a line's region, if any. */
  function Add(st: Collection, r: Option<Recorded>): Collection
    requires r.Some? ==> r.value.repeat in st && st[r.value.repeat].Valid()
  {
    if r.None? then st
    else
      var d := st[r.value.repeat];
      var regions := if r.value.chrom in d.entries then d.entries[r.value.chrom] else [];
      st[r.value.repeat := d.Put(r.value.chrom, regions + [r.value.region])]
  }

  lemma FoldsStep(recs: seq<Option<Recorded>>, i: nat, rep: string, chrom: string)
    requires i < |recs|
    ensures var r := recs[i];
            && ChromsOf(recs[..i + 1], rep) ==
               ChromsOf(recs[..i], rep) + (if r.Some? && r.value.repeat == rep then [r.value.chrom] else [])
            && RegionsOf(recs[..i + 1], rep, chrom) ==
               RegionsOf(recs[..i], rep, chrom) + (if r.Some? && r.value.repeat == rep && r.value.chrom == chrom then [r.value.region] else [])
  {
    assert recs[..i + 1][..i] == recs[..i];
  }

  /** The entry of a repeat after one more line. */
  function AddTo(d: ODict<string, seq<Region>>, r: Option<Recorded>, rep: string): ODict<string, seq<Region>>
    requires d.Valid()
  {
    if r.None? || r.value.repeat != rep then d
    else
      var regions := if r.value.chrom in d.entries then d.entries[r.value.chrom] else [];
      d.Put(r.value.chrom, regions + [r.value.region])
  }

  /** A line that records nothing for `rep` leaves its entry as it was. */
  lemma CollectsRepMiss(d: ODict<string, seq<Region>>, recs: seq<Option<Recorded>>, i: nat, rep: string)
    requires i < |recs| && CollectsRep(d, recs, i, rep)
    requires !(recs[i].Some? && recs[i].value.repeat == rep)
    ensures CollectsRep(d, recs, i + 1, rep)
  {
    FoldsStep(recs, i, rep, "");
    assert ChromsOf(recs[..i], rep) + [] == ChromsOf(recs[..i], rep);
    forall chrom | chrom in d.entries
      ensures d.entries[chrom] == RegionsOf(recs[..i + 1], rep, chrom)
    {
      FoldsStep(recs, i, rep, chrom);
      assert RegionsOf(recs[..i], rep, chrom) + [] == RegionsOf(recs[..i], rep, chrom);
    }
  }

  /** A line that records a region for `rep` adds its chromosome after the
      others on its first region. */
  lemma CollectsRepHitKeys(d: ODict<string, seq<Region>>, recs: seq<Option<Recorded>>, i: nat, rep: string)
    requires i < |recs| && CollectsRep(d, recs, i, rep)
    requires recs[i].Some? && recs[i].value.repeat == rep
    ensures AddTo(d, recs[i], rep).Valid()
    ensures AddTo(d, recs[i], rep).keys == Dedup(ChromsOf(recs[..i + 1], rep))
  {
    var c := recs[i].value.chrom;
    var cs := ChromsOf(recs[..i], rep);
    FoldsStep(recs, i, rep, c);
    DedupSnoc(cs, c);
    assert c in d.entries <==> c in cs;
  }

  /** A line that records a region for `rep` appends it to its chromosome's
      list. */
  lemma CollectsRepHit(d: ODict<string, seq<Region>>, recs: seq<Option<Recorded>>, i: nat, rep: string)
    requires i < |recs| && CollectsRep(d, recs, i, rep)
    requires recs[i].Some? && recs[i].value.repeat == rep
    ensures CollectsRep(AddTo(d, recs[i], rep), recs, i + 1, rep)
  {
    CollectsRepHitKeys(d, recs, i, rep);
    var next := AddTo(d, recs[i], rep);
    var c := recs[i].value.chrom;
    if c !in d.entries {
      assert c !in ChromsOf(recs[..i], rep);
      RegionsOfEmpty(recs[..i], rep, c);
    }
    forall chrom | chrom in next.entries
      ensures next.entries[chrom] == RegionsOf(recs[..i + 1], rep, chrom)
    {
      FoldsStep(recs, i, rep, chrom);
      if chrom == c {
        assert next.entries[c] == RegionsOf(recs[..i], rep, c) + [recs[i].value.region];
      } else {
        assert next.entries[chrom] == d.entries[chrom];
      }
    }
  }

  lemma CollectsRepStep(d: ODict<string, seq<Region>>, recs: seq<Option<Recorded>>, i: nat, rep: string)
    requires i < |recs| && CollectsRep(d, recs, i, rep)
    ensures CollectsRep(AddTo(d, recs[i], rep), recs, i + 1, rep)
  {
    if recs[i].Some? && recs[i].value.repeat == rep {
      CollectsRepHit(d, recs, i, rep);
    } else {
      CollectsRepMiss(d, recs, i, rep);
    }
  }

  lemma CollectsStep(st: Collection, recs: seq<Option<Recorded>>, i: nat)
    requires i < |recs| && Collects(st, recs, i)
    requires recs[i].Some? ==> recs[i].value.repeat in st
    ensures Collects(Add(st, recs[i]), recs, i + 1)
  {
    var next := Add(st, recs[i]);
    forall rep | rep in next
      ensures CollectsRep(next[rep], recs, i + 1, rep)
    {
      CollectsRepStep(st[rep], recs, i, rep);
      assert next[rep] == AddTo(st[rep], recs[i], rep);
    }
  }

  /** A recorded region belongs to one of the two repeats. */
  lemma RecordedRepeat(line: string, fetch: Fetch, minLength: int)
    requires ReadLine(line).Ok?
    ensures var r := RegionOf(ReadLine(line), fetch, minLength);
            r.Some? ==> r.value.repeat == "Tgut716A" || r.value.repeat == "Tgut191A"
  {
    if ReadLine(line).value.Some? {
      ReadLineRepeat(line);
    }
  }

  lemma NoCrashStep(lines: seq<string>, i: nat)
    requires i < |lines| && NoCrash(lines[..i]) && ReadLine(lines[i]).Ok?
    ensures NoCrash(lines[..i + 1])
  {
    var front := lines[..i + 1];
    forall j | 0 <= j < i + 1
      ensures ReadLine(front[j]).Ok?
    {
      if j < i {
        assert front[j] == lines[..i][j];
      } else {
        assert front[j] == lines[i];
      }
    }
  }

  lemma CrashAt(lines: seq<string>, i: nat)
    requires i < |lines| && ReadLine(lines[i]).Crash?
    ensures !NoCrash(lines)
  {
  }

  // ---------------------------------------------------------- verbose mode

  /** What a parsed line's extraction does: nothing (not a candidate, or
      too short), fail, or succeed and assign `valid_values`. */
  datatype Extraction = Skipped | Failed | Succeeded

  function ExtractionOf(read: Read, fetch: Fetch, minLength: int): Extraction {
    if read.Crash? || read.value.None? then Skipped
    else
      var c := read.value.value;
      if c.end - c.start < minLength then Skipped
      else if fetch(c.chrom, c.start, c.end).None? then Failed
      else Succeeded
  }

  /** What each line's extraction does, in line order. */
  function Extractions(lines: seq<string>, fetch: Fetch, minLength: int): (es: seq<Extraction>)
    ensures |es| == |lines|
    ensures forall j | 0 <= j < |lines| :: es[j] == ExtractionOf(ReadLine(lines[j]), fetch, minLength)
  {
    seq(|lines|, j requires 0 <= j < |lines| => ExtractionOf(ReadLine(lines[j]), fetch, minLength))
  }

  /** `valid_values` has been assigned by one of the extractions `es`. */
  predicate Bound(es: seq<Extraction>)
    decreases |es|
  {
    es != [] && (Bound(es[..|es| - 1]) || es[|es| - 1] == Succeeded)
  }

  /** With `--verbose`, one of the extractions `es` fails and then reaches
      the summary print while `valid_values` is still unassigned. */
  predicate VerboseCrash(es: seq<Extraction>)
    decreases |es|
  {
    && es != []
    && (VerboseCrash(es[..|es| - 1]) || (es[|es| - 1] == Failed && !Bound(es[..|es| - 1])))
  }

  const UnboundValues := "UnboundLocalError: cannot access local variable 'valid_values'"

  /** `valid_values` is assigned exactly when some extraction succeeded. */
  lemma {:induction false} BoundIff(es: seq<Extraction>)
    ensures Bound(es) <==> Succeeded in es
    decreases |es|
  {
    if es != [] {
      var front := es[..|es| - 1];
      BoundIff(front);
      assert es == front + [es[|es| - 1]];
    }
  }

  /** A verbose run crashes exactly when some extraction fails before any
      extraction has succeeded. */
  lemma {:induction false} VerboseCrashIff(es: seq<Extraction>)
    ensures VerboseCrash(es) <==> exists i | 0 <= i < |es| :: es[i] == Failed && Succeeded !in es[..i]
    decreases |es|
  {
    if es != [] {
      var front := es[..|es| - 1];
      VerboseCrashIff(front);
      BoundIff(front);
      if VerboseCrash(front) {
        var i :| 0 <= i < |front| && front[i] == Failed && Succeeded !in front[..i];
        assert es[..i] == front[..i];
      } else if es[|es| - 1] == Failed && !Bound(front) {
        assert es[..|front|] == front;
      }
      if exists i | 0 <= i < |es| :: es[i] == Failed && Succeeded !in es[..i] {
        var i :| 0 <= i < |es| && es[i] == Failed && Succeeded !in es[..i];
        if i < |front| {
          assert es[..i] == front[..i];
          assert front[i] == es[i];
        } else {
          assert es[..i] == front;
        }
      }
    }
  }

  lemma ExtractionStep(es: seq<Extraction>, i: nat)
    requires i < |es|
    ensures Bound(es[..i + 1]) <==> Bound(es[..i]) || es[i] == Succeeded
    ensures VerboseCrash(es[..i + 1]) <==> VerboseCrash(es[..i]) || (es[i] == Failed && !Bound(es[..i]))
  {
    assert es[..i + 1][..i] == es[..i];
  }

  /** A failed extraction while `valid_values` is still unassigned makes the
      whole verbose run crash, whatever follows. */
  lemma VerboseCrashAt(es: seq<Extraction>, i: nat)
    requires i < |es| && es[i] == Failed && !Bound(es[..i])
    ensures VerboseCrash(es)
  {
    BoundIff(es[..i]);
    VerboseCrashIff(es);
  }

  /** A recorded region comes from a line whose extraction succeeded. */
  lemma RecordedExtracts(read: Read, fetch: Fetch, minLength: int)
    requires RegionOf(read, fetch, minLength).Some?
    ensures ExtractionOf(read, fetch, minLength) == Succeeded
  {
  }

  /** When a verbose run crashes at line `i`, no earlier line has recorded a
      region. */
  lemma NothingRecordedBeforeCrash(lines: seq<string>, fetch: Fetch, minLength: int, i: nat)
    requires i < |lines|
    requires var es := Extractions(lines, fetch, minLength);
             es[i] == Failed && Succeeded !in es[..i]
    ensures forall j | 0 <= j < i :: Records(lines, fetch, minLength)[j].None?
  {
    var es := Extractions(lines, fetch, minLength);
    forall j | 0 <= j < i
      ensures Records(lines, fetch, minLength)[j].None?
    {
      assert es[..i][j] == es[j];
      if RegionOf(ReadLine(lines[j]), fetch, minLength).Some? {
        RecordedExtracts(ReadLine(lines[j]), fetch, minLength);
      }
    }
  }

  lemma CollectsInit(st: Collection, recs: seq<Option<Recorded>>)
    requires st == map["Tgut716A" := EmptyDict(), "Tgut191A" := EmptyDict()]
    ensures Collects(st, recs, 0)
  {
    assert recs[..0] == [];
  }

  /** `regions_per_chromosome[repeat][chrom].append(region)`, creating the
      chromosome's list on its first region. */
  method AddRegion(st: Collection, rec: Option<Recorded>, ghost recs: seq<Option<Recorded>>, ghost i: nat)
    returns (st': Collection)
    requires i < |recs| && recs[i] == rec && Collects(st, recs, i)
    requires rec.Some? ==> rec.value.repeat == "Tgut716A" || rec.value.repeat == "Tgut191A"
    ensures st' == Add(st, rec)
    ensures Collects(st', recs, i + 1)
  {
    CollectsStep(st, recs, i);
    st' := st;
    if rec.Some? {
      var d := st[rec.value.repeat];
      var regions := if rec.value.chrom in d.entries then d.entries[rec.value.chrom] else [];
      st' := st[rec.value.repeat := d.Put(rec.value.chrom, regions + [rec.value.region])];
    }
  }

  /** The collection loop of `get_methylation_from_bigwig`; `bound` tells
      whether `valid_values` has been assigned yet. */
  method CollectRegions(lines: seq<string>, fetch: Fetch, minLength: int, verbose: bool) returns (r: Outcome<Collection>)
    ensures r.Ok? <==> NoCrash(lines) && !(verbose && VerboseCrash(Extractions(lines, fetch, minLength)))
    ensures r.Crash? && NoCrash(lines) ==> r.reason == UnboundValues
    ensures r.Ok? ==> Collects(r.value, Records(lines, fetch, minLength), |lines|)
  {
    ghost var recs := Records(lines, fetch, minLength);
    ghost var es := Extractions(lines, fetch, minLength);
    var st: Collection := map["Tgut716A" := EmptyDict(), "Tgut191A" := EmptyDict()];
    var bound := false;
    CollectsInit(st, recs);
    for i := 0 to |lines|
      invariant NoCrash(lines[..i])
      invariant bound <==> Bound(es[..i])
      invariant verbose ==> !VerboseCrash(es[..i])
      invariant Collects(st, recs, i)
    {
      var read := ReadLine(lines[i]);
      if read.Crash? {
        CrashAt(lines, i);
        return Crash(read.reason);
      }
      NoCrashStep(lines, i);
      ExtractionStep(es, i);
      assert es[i] == ExtractionOf(read, fetch, minLength);
      if read.value.Some? && read.value.value.end - read.value.value.start >= minLength {
        var c := read.value.value;
        var extracted := fetch(c.chrom, c.start, c.end);
        if verbose && extracted.None? && !bound {
          VerboseCrashAt(es, i);
          return Crash(UnboundValues);
        }
        bound := bound || extracted.Some?;
      }
      var rec := RegionOf(read, fetch, minLength);
      RecordedRepeat(lines[i], fetch, minLength);
      st := AddRegion(st, rec, recs, i);
    }
    assert recs[..|lines|] == recs;
    assert es[..|lines|] == es;
    assert lines[..|lines|] == lines;
    return Ok(st);
  }

  /** A region is among those collected for its repeat and chromosome
      exactly when some line records it. */
  lemma {:induction false} RegionsOfMember(recs: seq<Option<Recorded>>, rep: string, chrom: string, reg: Region)
    ensures reg in RegionsOf(recs, rep, chrom) <==>
            exists j | 0 <= j < |recs| :: recs[j] == Some(Recorded(rep, chrom, reg))
  {
    if recs != [] {
      var init := recs[..|recs| - 1];
      RegionsOfMember(init, rep, chrom, reg);
      assert forall j | 0 <= j < |init| :: init[j] == recs[j];
    }
  }

  /** Every collected region passes the length filter. */
  lemma {:induction false} RegionsOfLong(lines: seq<string>, fetch: Fetch, minLength: int, rep: string, chrom: string)
    ensures forall reg | reg in RegionsOf(Records(lines, fetch, minLength), rep, chrom) :: reg.end - reg.start >= minLength
  {
    var recs := Records(lines, fetch, minLength);
    forall reg | reg in RegionsOf(recs, rep, chrom)
      ensures reg.end - reg.start >= minLength
    {
      RegionsOfMember(recs, rep, chrom, reg);
    }
  }

  /** A chromosome is a key for a repeat only when it has regions. */
  lemma {:induction false} ChromsHaveRegions(recs: seq<Option<Recorded>>, rep: string, chrom: string)
    requires chrom in ChromsOf(recs, rep)
    ensures |RegionsOf(recs, rep, chrom)| > 0
  {
    var init := recs[..|recs| - 1];
    if chrom in ChromsOf(init, rep) {
      ChromsHaveRegions(init, rep, chrom);
    }
  }

  // ----------------------------------------------------------- select best

  /** `key=lambda x: x[2]` */
  function ByMean(a: Region, b: Region): bool {
    a.mean <= b.mean
  }

  lemma ByMeanTotal()
    ensures TotalPreorder(ByMean)
  {
  }

  /** The `other` rows of a group, one per region, in order. */
  function OtherRows(rep: string, chrom: string, regions: seq<Region>): (rows: seq<Row>)
    ensures |rows| == |regions|
  {
    if regions == [] then []
    else OtherRows(rep, chrom, regions[..|regions| - 1]) + [Row(rep, regions[|regions| - 1].mean, chrom, Other)]
  }

  lemma {:induction false} OtherRowsAt(rep: string, chrom: string, regions: seq<Region>)
    ensures forall k | 0 <= k < |regions| :: OtherRows(rep, chrom, regions)[k] == Row(rep, regions[k].mean, chrom, Other)
  {
    if regions != [] {
      OtherRowsAt(rep, chrom, regions[..|regions| - 1]);
    }
  }

  /** The rows of one (repeat, chromosome) group: the regions sorted by mean,
      the first tagged best and the rest other. */
  function GroupRows(rep: string, chrom: string, regions: seq<Region>): seq<Row>
    requires |regions| > 0
  {
    var sorted := Sort(regions, ByMean);
    [Row(rep, sorted[0].mean, chrom, Best)] + OtherRows(rep, chrom, sorted[1..])
  }

  /** A group has one row per region, all of its repeat and chromosome, and
      only the first is `best`. */
  lemma GroupRowsTags(rep: string, chrom: string, regions: seq<Region>)
    requires |regions| > 0
    ensures var rows := GroupRows(rep, chrom, regions);
            && |rows| == |regions|
            && rows[0].tag == Best
            && (forall k | 1 <= k < |rows| :: rows[k].tag == Other)
            && (forall k | 0 <= k < |rows| :: rows[k].repeat == rep && rows[k].chrom == chrom)
  {
    var sorted := Sort(regions, ByMean);
    OtherRowsAt(rep, chrom, sorted[1..]);
  }

  /** Row `k` of a group carries the `k`-th smallest mean. */
  lemma GroupRowsShape(rep: string, chrom: string, regions: seq<Region>)
    requires |regions| > 0
    ensures var rows := GroupRows(rep, chrom, regions);
            && |rows| == |regions|
            && (forall k | 0 <= k < |rows| :: rows[k].methylation == Sort(regions, ByMean)[k].mean)
  {
    var sorted := Sort(regions, ByMean);
    OtherRowsAt(rep, chrom, sorted[1..]);
  }

  /** The row values of a group are exactly its regions' means. */
  lemma GroupRowsValues(rep: string, chrom: string, regions: seq<Region>)
    requires |regions| > 0
    ensures var rows := GroupRows(rep, chrom, regions);
            && (forall k | 0 <= k < |rows| :: exists reg | reg in regions :: reg.mean == rows[k].methylation)
            && (forall reg | reg in regions :: exists k | 0 <= k < |rows| :: reg.mean == rows[k].methylation)
  {
    var sorted := Sort(regions, ByMean);
    GroupRowsShape(rep, chrom, regions);
    var rows := GroupRows(rep, chrom, regions);
    forall k | 0 <= k < |rows|
      ensures exists reg | reg in regions :: reg.mean == rows[k].methylation
    {
      assert sorted[k] in multiset(regions);
    }
    forall reg | reg in regions
      ensures exists k | 0 <= k < |rows| :: reg.mean == rows[k].methylation
    {
      assert reg in multiset(sorted);
      var k :| 0 <= k < |sorted| && sorted[k] == reg;
    }
  }

  /** The row values of a group ascend, so the `best` value is the least
      mean of the group. */
  lemma GroupRowsAscending(rep: string, chrom: string, regions: seq<Region>)
    requires |regions| > 0
    ensures var rows := GroupRows(rep, chrom, regions);
            && (forall k, l | 0 <= k < l < |rows| :: rows[k].methylation <= rows[l].methylation)
            && (forall reg | reg in regions :: rows[0].methylation <= reg.mean)
  {
    ByMeanTotal();
    SortSorted(regions, ByMean);
    SortHeadLeast(regions, ByMean);
    GroupRowsShape(rep, chrom, regions);
  }

  /** The groups of one repeat, one per chromosome in dict order. */
  function Groups(rep: string, keys: seq<string>, entries: map<string, seq<Region>>): (gs: seq<seq<Row>>)
    requires forall c | c in keys :: c in entries && |entries[c]| > 0
    ensures |gs| == |keys|
  {
    seq(|keys|, i requires 0 <= i < |keys| => GroupRows(rep, keys[i], entries[keys[i]]))
  }

  /** The groups' rows one after another. */
  function Concat(gs: seq<seq<Row>>): seq<Row> {
    if gs == [] then [] else Concat(gs[..|gs| - 1]) + gs[|gs| - 1]
  }

  /** The rows of one repeat: its chromosomes' groups in dict order. */
  function RepeatRows(rep: string, keys: seq<string>, entries: map<string, seq<Region>>): seq<Row>
    requires forall c | c in keys :: c in entries && |entries[c]| > 0
  {
    Concat(Groups(rep, keys, entries))
  }

  /** Every recorded chromosome has at least one region. */
  ghost predicate NonEmptyGroups(st: Collection) {
    forall rep | rep in st :: st[rep].Valid() &&
      forall c | c in st[rep].keys :: c in st[rep].entries && |st[rep].entries[c]| > 0
  }

  function CountRegions(keys: seq<string>, entries: map<string, seq<Region>>): nat
    requires forall c | c in keys :: c in entries
  {
    if keys == [] then 0 else CountRegions(keys[..|keys| - 1], entries) + |entries[keys[|keys| - 1]]|
  }

  lemma GroupsSnoc(rep: string, keys: seq<string>, entries: map<string, seq<Region>>, i: nat)
    requires forall c | c in keys :: c in entries && |entries[c]| > 0
    requires i < |keys|
    ensures Groups(rep, keys[..i + 1], entries) == Groups(rep, keys[..i], entries) + [GroupRows(rep, keys[i], entries[keys[i]])]
  {
  }

  /** A repeat contributes one row per collected region. */
  lemma {:induction false} RepeatRowsCount(rep: string, keys: seq<string>, entries: map<string, seq<Region>>)
    requires forall c | c in keys :: c in entries && |entries[c]| > 0
    ensures |RepeatRows(rep, keys, entries)| == CountRegions(keys, entries)
  {
    if keys != [] {
      var n := |keys| - 1;
      var gs := Groups(rep, keys, entries);
      RepeatRowsCount(rep, keys[..n], entries);
      assert gs[..n] == Groups(rep, keys[..n], entries);
      GroupRowsTags(rep, keys[n], entries[keys[n]]);
    }
  }

  predicate BestAt(rows: seq<Row>, k: int, c: string) {
    0 <= k < |rows| && rows[k].chrom == c && rows[k].tag == Best
  }

  /** The tags of a group of `chrom`: first `best`, then `other`. */
  predicate Tagged(group: seq<Row>, chrom: string) {
    && |group| > 0
    && group[0].tag == Best && group[0].chrom == chrom
    && forall k | 1 <= k < |group| :: group[k].tag == Other
  }

  lemma GroupRowsTagged(rep: string, chrom: string, regions: seq<Region>)
    requires |regions| > 0
    ensures Tagged(GroupRows(rep, chrom, regions), chrom)
  {
    GroupRowsTags(rep, chrom, regions);
  }

  /** Appending a group adds exactly one `best` row, its first. */
  lemma AppendGroupBest(front: seq<Row>, group: seq<Row>, last: string, c: string)
    requires Tagged(group, last)
    ensures forall l :: BestAt(front + group, l, c) <==> BestAt(front, l, c) || (c == last && l == |front|)
  {
    forall l
      ensures BestAt(front + group, l, c) <==> BestAt(front, l, c) || (c == last && l == |front|)
    {
      if |front| < l < |front| + |group| {
        assert (front + group)[l] == group[l - |front|];
      }
    }
  }

  /** `row` is the one `best` row of `c`. */
  ghost predicate OnlyBest(rows: seq<Row>, c: string, row: Row) {
    exists k :: BestAt(rows, k, c) && rows[k] == row && forall l | BestAt(rows, l, c) :: l == k
  }

  /** In a concatenation of tagged groups with distinct chromosomes, each
      chromosome has exactly one `best` row, the first row of its group, and
      any other chromosome has none. */
  lemma {:induction false} ConcatBest(gs: seq<seq<Row>>, keys: seq<string>, c: string)
    requires |gs| == |keys|
    requires forall i | 0 <= i < |gs| :: Tagged(gs[i], keys[i])
    requires forall i, j | 0 <= i < j < |keys| :: keys[i] != keys[j]
    ensures forall i | 0 <= i < |keys| && keys[i] == c :: |gs[i]| > 0 && OnlyBest(Concat(gs), c, gs[i][0])
    ensures c !in keys ==> forall k :: !BestAt(Concat(gs), k, c)
  {
    if gs != [] {
      var n := |gs| - 1;
      var front := Concat(gs[..n]);
      var rows := Concat(gs);
      assert rows == front + gs[n];
      ConcatBest(gs[..n], keys[..n], c);
      AppendGroupBest(front, gs[n], keys[n], c);
      assert c in keys <==> c in keys[..n] || c == keys[n];
      forall i | 0 <= i < |keys| && keys[i] == c
        ensures |gs[i]| > 0 && OnlyBest(rows, c, gs[i][0])
      {
        if i == n {
          assert c !in keys[..n];
          assert forall l :: !BestAt(front, l, c);
          assert BestAt(rows, |front|, c) && rows[|front|] == gs[n][0];
          forall l | BestAt(rows, l, c)
            ensures l == |front|
          {
            assert !BestAt(front, l, c);
          }
        } else {
          assert keys[..n][i] == c;
          assert OnlyBest(front, c, gs[..n][i][0]);
          var k :| BestAt(front, k, c) && front[k] == gs[..n][i][0] && forall l | BestAt(front, l, c) :: l == k;
          assert BestAt(rows, k, c) && rows[k] == gs[i][0];
          forall l | BestAt(rows, l, c)
            ensures l == k
          {
            assert BestAt(front, l, c);
          }
        }
      }
      if c !in keys {
        forall k
          ensures !BestAt(rows, k, c)
        {
          assert !BestAt(front, k, c);
        }
      }
    }
  }

  /** The `best` row of a group carries the least of its means. */
  lemma GroupBestValue(rep: string, chrom: string, regions: seq<Region>)
    requires |regions| > 0
    ensures var best := GroupRows(rep, chrom, regions)[0];
            && (exists reg | reg in regions :: reg.mean == best.methylation)
            && (forall reg | reg in regions :: best.methylation <= reg.mean)
  {
    GroupRowsAscending(rep, chrom, regions);
    GroupRowsValues(rep, chrom, regions);
    var rows := GroupRows(rep, chrom, regions);
    assert 0 < |rows|;
    assert exists reg | reg in regions :: reg.mean == rows[0].methylation;
  }

  lemma GroupsTagged(rep: string, keys: seq<string>, entries: map<string, seq<Region>>)
    requires forall k | k in keys :: k in entries && |entries[k]| > 0
    ensures forall i | 0 <= i < |keys| :: Tagged(Groups(rep, keys, entries)[i], keys[i])
  {
    forall i | 0 <= i < |keys|
      ensures Tagged(Groups(rep, keys, entries)[i], keys[i])
    {
      GroupRowsTagged(rep, keys[i], entries[keys[i]]);
    }
  }

  /** Within a repeat, each chromosome of the dict has exactly one `best` row,
      whose value is the least mean of that chromosome's regions; no other
      chromosome has a `best` row. */
  lemma RepeatRowsBest(rep: string, keys: seq<string>, entries: map<string, seq<Region>>, c: string)
    requires forall k | k in keys :: k in entries && |entries[k]| > 0
    requires forall i, j | 0 <= i < j < |keys| :: keys[i] != keys[j]
    ensures c in keys ==> exists row ::
              && OnlyBest(RepeatRows(rep, keys, entries), c, row)
              && (exists reg | reg in entries[c] :: reg.mean == row.methylation)
              && (forall reg | reg in entries[c] :: row.methylation <= reg.mean)
    ensures c !in keys ==> forall k :: !BestAt(RepeatRows(rep, keys, entries), k, c)
  {
    var gs := Groups(rep, keys, entries);
    GroupsTagged(rep, keys, entries);
    ConcatBest(gs, keys, c);
    if c in keys {
      var i :| 0 <= i < |keys| && keys[i] == c;
      var group := GroupRows(rep, c, entries[c]);
      assert gs[i] == group;
      GroupBestValue(rep, c, entries[c]);
      assert OnlyBest(RepeatRows(rep, keys, entries), c, group[0]);
    }
  }

  /** The `select_best` loops: for each repeat in dict order, each of its
      chromosomes in dict order, the group's rows. */
  method SelectBest(st: Collection) returns (rows: seq<Row>)
    requires st.Keys == {"Tgut716A", "Tgut191A"}
    requires NonEmptyGroups(st)
    ensures rows == RepeatRows(Repeats[0], st[Repeats[0]].keys, st[Repeats[0]].entries)
                  + RepeatRows(Repeats[1], st[Repeats[1]].keys, st[Repeats[1]].entries)
  {
    var first := RepeatGroupRows(Repeats[0], st[Repeats[0]]);
    var second := RepeatGroupRows(Repeats[1], st[Repeats[1]]);
    rows := first + second;
  }

  /** The inner loops of `select_best` for one repeat. */
  method RepeatGroupRows(rep: string, d: ODict<string, seq<Region>>) returns (rows: seq<Row>)
    requires d.Valid()
    requires forall c | c in d.keys :: c in d.entries && |d.entries[c]| > 0
    ensures rows == RepeatRows(rep, d.keys, d.entries)
  {
    rows := [];
    for i := 0 to |d.keys|
      invariant rows == Concat(Groups(rep, d.keys[..i], d.entries))
    {
      var chrom := d.keys[i];
      var regions := d.entries[chrom];
      var group := SortedGroup(rep, chrom, regions);
      GroupsSnoc(rep, d.keys, d.entries, i);
      ghost var gs := Groups(rep, d.keys[..i + 1], d.entries);
      assert gs[..i] == Groups(rep, d.keys[..i], d.entries);
      rows := rows + group;
    }
    assert d.keys[..|d.keys|] == d.keys;
  }

  /** One group: sort by mean, tag the first `best` and the rest `other`. */
  method SortedGroup(rep: string, chrom: string, regions: seq<Region>) returns (group: seq<Row>)
    requires |regions| > 0
    ensures group == GroupRows(rep, chrom, regions)
  {
    var sorted := Sort(regions, ByMean);
    group := [Row(rep, sorted[0].mean, chrom, Best)];
    for k := 1 to |sorted|
      invariant group == [Row(rep, sorted[0].mean, chrom, Best)] + OtherRows(rep, chrom, sorted[1..k])
    {
      assert sorted[1..k + 1][..k - 1] == sorted[1..k];
      group := group + [Row(rep, sorted[k].mean, chrom, Other)];
    }
    assert sorted[1..|sorted|] == sorted[1..];
  }

  /** `get_methylation_from_bigwig`: the collected regions are turned into
      rows only with `select_best`; otherwise the result is empty. */
  method GetMethylation(lines: seq<string>, fetch: Fetch, minLength: int, selectBest: bool, verbose: bool)
    returns (r: Outcome<seq<Row>>)
    ensures r.Ok? <==> NoCrash(lines) && !(verbose && VerboseCrash(Extractions(lines, fetch, minLength)))
    ensures r.Crash? && NoCrash(lines) ==> r.reason == UnboundValues
    ensures r.Ok? && !selectBest ==> r.value == []
    ensures r.Ok? && selectBest ==> exists st: Collection ::
              && Collects(st, Records(lines, fetch, minLength), |lines|)
              && NonEmptyGroups(st)
              && r.value == RepeatRows(Repeats[0], st[Repeats[0]].keys, st[Repeats[0]].entries)
                          + RepeatRows(Repeats[1], st[Repeats[1]].keys, st[Repeats[1]].entries)
  {
    var collected := CollectRegions(lines, fetch, minLength, verbose);
    if collected.Crash? {
      return Crash(collected.reason);
    }
    var st := collected.value;
    ghost var recs := Records(lines, fetch, minLength);
    assert recs[..|lines|] == recs;
    var rows: seq<Row> := [];
    if selectBest {
      forall rep | rep in st
        ensures forall c | c in st[rep].keys :: c in st[rep].entries && |st[rep].entries[c]| > 0
      {
        forall c | c in st[rep].keys
          ensures c in st[rep].entries && |st[rep].entries[c]| > 0
        {
          ChromsHaveRegions(recs, rep, c);
        }
      }
      rows := SelectBest(st);
    }
    return Ok(rows);
  }
}
