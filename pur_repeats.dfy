/** `PUR_repeats_barchart.py`: how many base pairs of each PUR (a region
    given by chromosome, start and end) fall on each class of annotated
    repeat, per chromosome and haplotype. The plotting is not modelled. */
module PurRepeats {
  import opened Common
  import opened Strings

  // ------------------------------------------------------ parse_gtf_attributes

  /** One `;`-separated part of a GTF attribute column: the key before the
      first space and the value after it with surrounding `"` removed; `None`
      for a blank part or a part without a space. */
  function AttrOf(part: string): Option<(string, string)> {
    AttrOfText(Strip(part))
  }

  /** The same, on the stripped part. */
  function AttrOfText(p: string): Option<(string, string)> {
    if p == [] then None
    else
      match Find(p, " ")
      case None => None
      case Some(i) => Some((p[..i], StripChar(p[i + 1..], '"')))
  }

  /** A part is dropped exactly when it is blank or holds no space. */
  lemma AttrOfDropped(part: string)
    ensures AttrOf(part).None? <==> IsBlank(part) || !Contains(Strip(part), " ")
  {
    StripEmptyIffBlank(part);
  }

  /** A kept part is `key value` with a key free of spaces and a value
      neither starting nor ending with `"`. */
  lemma AttrOfKept(part: string)
    requires AttrOf(part).Some?
    ensures var (k, v) := AttrOf(part).value;
      && ' ' !in k
      && StartsWith(Strip(part), k + " ")
      && (v == [] || (v[0] != '"' && v[|v| - 1] != '"'))
  {
    TextKept(Strip(part));
  }

  lemma TextKept(p: string)
    requires AttrOfText(p).Some?
    ensures var (k, v) := AttrOfText(p).value;
      && ' ' !in k
      && StartsWith(p, k + " ")
      && (v == [] || (v[0] != '"' && v[|v| - 1] != '"'))
  {
    FindSpec(p, " ");
    var i := Find(p, " ").value;
    assert AttrOfText(p).value.0 == p[..i];
    NoneBefore(p, " ", i);
    NoChar(p[..i], ' ');
    assert p[..i + 1] == p[..i] + " " by {
      assert p[i..][..1] == " ";
    }
  }

  /** The attributes of the parts, one `Option` per part. */
  function Pairs(parts: seq<string>): (ps: seq<Option<(string, string)>>)
    ensures |ps| == |parts|
  {
    if parts == [] then [] else Pairs(parts[..|parts| - 1]) + [AttrOf(parts[|parts| - 1])]
  }

  lemma PairsSnoc(parts: seq<string>, i: nat)
    requires i < |parts|
    ensures Pairs(parts[..i + 1]) == Pairs(parts[..i]) + [AttrOf(parts[i])]
  {
    assert parts[..i + 1][..i] == parts[..i];
  }

  /** The dictionary after the given pairs: `attrs[key] = val`, so a later
      key overwrites an earlier one. */
  function Attrs(ps: seq<Option<(string, string)>>): map<string, string> {
    if ps == [] then map[]
    else
      var m := Attrs(ps[..|ps| - 1]);
      match ps[|ps| - 1]
      case None => m
      case Some(kv) => m[kv.0 := kv.1]
  }

  lemma AttrsSnoc(ps: seq<Option<(string, string)>>, p: Option<(string, string)>)
    ensures Attrs(ps + [p]) == if p.Some? then Attrs(ps)[p.value.0 := p.value.1] else Attrs(ps)
  {
    assert (ps + [p])[..|ps|] == ps;
  }

  /** One loop pass: the pair of a part, if it has one. */
  method ReadPart(part: string) returns (kv: Option<(string, string)>)
    ensures kv == AttrOf(part)
  {
    kv := ReadText(Strip(part));
  }

  method ReadText(p: string) returns (kv: Option<(string, string)>)
    ensures kv == AttrOfText(p)
  {
    if p == [] {
      return None;
    }
    var i := Find(p, " ");
    if i.None? {
      return None;
    }
    kv := Some((p[..i.value], StripChar(p[i.value + 1..], '"')));
  }

  /** `parse_gtf_attributes(attr_str)`. */
  method ParseGtfAttributes(attrStr: string) returns (attrs: map<string, string>)
    ensures attrs == Attrs(Pairs(Split(Strip(attrStr), ";")))
  {
    attrs := PartsAttrs(Split(Strip(attrStr), ";"));
  }

  /** The loop of `parse_gtf_attributes` over the `;`-parts. */
  method PartsAttrs(parts: seq<string>) returns (attrs: map<string, string>)
    ensures attrs == Attrs(Pairs(parts))
  {
    attrs := map[];
    ghost var ps: seq<Option<(string, string)>> := [];
    for i := 0 to |parts|
      invariant ps == Pairs(parts[..i])
      invariant attrs == Attrs(ps)
    {
      var kv := ReadPart(parts[i]);
      PairsSnoc(parts, i);
      AttrsSnoc(ps, kv);
      ps := ps + [kv];
      if kv.Some? {
        attrs := attrs[kv.value.0 := kv.value.1];
      }
    }
    assert parts[..|parts|] == parts;
  }

  /** Place `k` holds the last pair with key `key`. */
  ghost predicate LastKey(ps: seq<Option<(string, string)>>, key: string, k: nat) {
    && k < |ps| && ps[k].Some? && ps[k].value.0 == key
    && forall j | k < j < |ps| :: !(ps[j].Some? && ps[j].value.0 == key)
  }

  /** A key is present exactly when some part carries it, and its value is
      the one of the last part that carries it. */
  lemma {:induction false} AttrsLastWins(ps: seq<Option<(string, string)>>, key: string)
    ensures key in Attrs(ps) <==> exists k | 0 <= k < |ps| :: ps[k].Some? && ps[k].value.0 == key
    ensures key in Attrs(ps) ==> exists k: nat :: LastKey(ps, key, k) && Attrs(ps)[key] == ps[k].value.1
  {
    if ps != [] {
      var front := ps[..|ps| - 1];
      var last := ps[|ps| - 1];
      AttrsLastWins(front, key);
      assert forall j | 0 <= j < |front| :: front[j] == ps[j];
      if last.Some? && last.value.0 == key {
        assert LastKey(ps, key, |ps| - 1);
      } else if key in Attrs(front) {
        var k: nat :| LastKey(front, key, k) && Attrs(front)[key] == front[k].value.1;
        assert LastKey(ps, key, k);
      }
    }
  }

  // ----------------------------------------------------------- classify_repeat

  /** The substring tests of `classify_repeat`, in order, with their classes. */
  const Classes: seq<(string, string)> := [
    ("transposon", "Transposon"), ("retrotransposon", "Retrotransposon"),
    ("satellite", "Satellite"), ("simple", "Simple"), ("ltr", "LTR"),
    ("line", "LINE"), ("sine", "SINE"), ("repeat", "Repeat")]

  /** `classify_repeat(feature_type)`. */
  function ClassifyRepeat(featureType: string): string {
    var cls := Lower(featureType);
    if Contains(cls, "transposon") then "Transposon"
    else if Contains(cls, "retrotransposon") then "Retrotransposon"
    else if Contains(cls, "satellite") then "Satellite"
    else if Contains(cls, "simple") then "Simple"
    else if Contains(cls, "ltr") then "LTR"
    else if Contains(cls, "line") then "LINE"
    else if Contains(cls, "sine") then "SINE"
    else if Contains(cls, "repeat") then "Repeat"
    else "Other"
  }

  /** Test `j` is the first one the lowercased type passes. */
  predicate FirstTest(cls: string, j: nat) {
    && j < |Classes| && Contains(cls, Classes[j].0)
    && forall i | 0 <= i < j :: !Contains(cls, Classes[i].0)
  }

  /** The class is `Other` exactly when the lowercased type passes none of
      the tests. */
  lemma ClassifyOther(featureType: string)
    ensures ClassifyRepeat(featureType) == "Other" <==>
      forall j | 0 <= j < |Classes| :: !Contains(Lower(featureType), Classes[j].0)
  {
    ClassesAre();
  }

  /** The class is the one of the first test the lowercased type passes. */
  lemma ClassifyFirst(featureType: string, j: nat)
    requires FirstTest(Lower(featureType), j)
    ensures ClassifyRepeat(featureType) == Classes[j].1
  {
    ClassesAre();
  }

  lemma ClassesAre()
    ensures
      && Classes[0] == ("transposon", "Transposon")
      && Classes[1] == ("retrotransposon", "Retrotransposon")
      && Classes[2] == ("satellite", "Satellite")
      && Classes[3] == ("simple", "Simple")
      && Classes[4] == ("ltr", "LTR")
      && Classes[5] == ("line", "LINE")
      && Classes[6] == ("sine", "SINE")
      && Classes[7] == ("repeat", "Repeat")
  {
    assert Classes[0] == ("transposon", "Transposon");
    assert Classes[1] == ("retrotransposon", "Retrotransposon");
    assert Classes[2] == ("satellite", "Satellite");
    assert Classes[3] == ("simple", "Simple");
    assert Classes[4] == ("ltr", "LTR");
    assert Classes[5] == ("line", "LINE");
    assert Classes[6] == ("sine", "SINE");
    assert Classes[7] == ("repeat", "Repeat");
  }

  /** `transposon` is a substring of `retrotransposon`. */
  lemma TransposonInRetro()
    ensures Contains("retrotransposon", "transposon")
  {
    assert "retrotransposon"[5..15] == "transposon";
    ContainsAt("retrotransposon", "transposon", 5);
  }

  /** The `retrotransposon` branch is unreachable: every type it would match
      already matches `transposon`. So the class is never `Retrotransposon`,
      and never `Unannotated`, the name of the no-hit bucket. */
  lemma ClassifyNeverRetro(featureType: string)
    ensures ClassifyRepeat(featureType) != "Retrotransposon"
    ensures ClassifyRepeat(featureType) != "Unannotated"
  {
    var cls := Lower(featureType);
    if Contains(cls, "retrotransposon") {
      TransposonInRetro();
      ContainsTrans(cls, "retrotransposon", "transposon");
    }
  }

  // ------------------------------------------------------------ simplify_chrom

  /** `simplify_chrom(chrom)`: the chromosome with every `chr` removed and
      its haplotype, read from a `_mat` or `_pat` suffix. */
  function SimplifyChrom(chrom: string): (string, string) {
    Phase(ReplaceAll(chrom, "chr", ""))
  }

  /** The haplotype step of `simplify_chrom`, on the name without `chr`. */
  function Phase(c: string): (string, string) {
    if EndsWith(c, "_mat") then (ReplaceAll(c, "_mat", ""), "mat")
    else if EndsWith(c, "_pat") then (ReplaceAll(c, "_pat", ""), "pat")
    else (c, "unphased")
  }

  /** A text without the letter `c` holds no `chr`. */
  lemma NoChr(s: string)
    requires 'c' !in s
    ensures Find(s, "chr").None?
  {
    forall j | 0 <= j <= |s|
      ensures !StartsWith(s[j..], "chr")
    {
      if j < |s| {
        assert s[j..][0] == s[j];
      }
    }
    FindNone(s, "chr");
  }

  /** Removing `chr` from `chr<rest>` leaves `rest` when `rest` has no `c`. */
  lemma DropChr(rest: string)
    requires 'c' !in rest
    ensures ReplaceAll("chr" + rest, "chr", "") == rest
  {
    var s := "chr" + rest;
    assert s[..3] == "chr";
    assert s[3..] == rest;
    NoChr(rest);
    assert Split(s, "chr") == ["", rest];
    assert ["", rest][1..] == [rest];
    assert Join([rest], "") == rest;
    assert Join(["", rest], "") == "" + "" + Join([rest], "");
  }

  /** Removing a `_`-led suffix from `<b><suffix>` leaves `b` when `b` has no `_`. */
  lemma DropSuffix(b: string, suffix: string)
    requires |suffix| > 0 && suffix[0] == '_' && '_' !in b
    ensures ReplaceAll(b + suffix, suffix, "") == b
  {
    var s := b + suffix;
    assert s[|b|..] == suffix;
    forall j | 0 <= j < |b|
      ensures !StartsWith(s[j..], suffix)
    {
      assert s[j..][0] == b[j];
    }
    FindAt(s, suffix, |b|);
    assert s[|b| + |suffix|..] == [];
    assert Split(s, suffix) == [b] + Split([], suffix);
    assert Split(s, suffix) == [b, ""];
    assert [b, ""][1..] == [""];
    assert Join([""], "") == "";
    assert Join([b, ""], "") == b + "" + Join([""], "");
  }

  /** `chr<b>_mat` and `chr<b>_pat` give `(b, "mat")` and `(b, "pat")` for
      a base name without `c` and `_`. */
  lemma SimplifyPhased(b: string, hap: string)
    requires hap == "mat" || hap == "pat"
    requires 'c' !in b && '_' !in b
    ensures SimplifyChrom("chr" + b + "_" + hap) == (b, hap)
  {
    var rest := b + ("_" + hap);
    assert "chr" + b + "_" + hap == "chr" + rest;
    assert 'c' !in "_" + hap;
    DropChr(rest);
    PhaseOf(b, hap);
  }

  lemma PhaseOf(b: string, hap: string)
    requires hap == "mat" || hap == "pat"
    requires '_' !in b
    ensures Phase(b + ("_" + hap)) == (b, hap)
  {
    var rest := b + ("_" + hap);
    DropSuffix(b, "_" + hap);
    assert rest[|rest| - 4..] == "_" + hap;
    if hap == "pat" {
      assert rest[|rest| - 4..][1] == 'p';
      assert !EndsWith(rest, "_mat");
    }
  }

  /** `chr<b>` for a base name without `c` and without a `_mat`/`_pat`
      suffix gives `(b, "unphased")`. */
  lemma SimplifyUnphased(b: string)
    requires 'c' !in b && !EndsWith(b, "_mat") && !EndsWith(b, "_pat")
    ensures SimplifyChrom("chr" + b) == (b, "unphased")
  {
    DropChr(b);
  }

  /** A name with no `chr` and no haplotype suffix is kept whole and is unphased. */
  lemma SimplifyPlain(chrom: string)
    requires !Contains(chrom, "chr") && !EndsWith(chrom, "_mat") && !EndsWith(chrom, "_pat")
    ensures SimplifyChrom(chrom) == (chrom, "unphased")
  {
    ReplaceAbsent(chrom, "chr", "");
  }

  // --------------------------------------------------- calculate_overlap_tabix

  /** `max(0, min(end, r_end) - max(start, r_start))`. */
  function Overlap(start: int, end: int, rStart: int, rEnd: int): int {
    var lo := if start > rStart then start else rStart;
    var hi := if end < rEnd then end else rEnd;
    if hi - lo > 0 then hi - lo else 0
  }

  /** The overlap is never negative, never longer than either interval, and
      positive exactly when the two half-open intervals are non-empty and
      each starts before the other ends. */
  lemma OverlapSpec(start: int, end: int, rStart: int, rEnd: int)
    ensures var ov := Overlap(start, end, rStart, rEnd);
      && 0 <= ov
      && (start <= end ==> ov <= end - start)
      && (rStart <= rEnd ==> ov <= rEnd - rStart)
      && (ov > 0 <==> start < end && rStart < rEnd && start < rEnd && rStart < end)
  {
  }

  /** A PUR row of the BED file. */
  datatype Pur = Pur(chrom: string, start: int, end: int)

  /** The classified overlap of one tabix record with the PUR `[start, end)`:
      `None` for a record with fewer than five fields or without positive
      overlap, a crash when `int()` rejects a coordinate. */
  function HitOf(start: int, end: int, rec: string): Outcome<Option<(string, int)>> {
    HitOfFields(start, end, Split(Strip(rec), "\t"))
  }

  /** The checks on the tab fields of one record. */
  function HitOfFields(start: int, end: int, fields: seq<string>): Outcome<Option<(string, int)>> {
    if |fields| < 5 then Ok(None)
    else
      match (PyInt(fields[3]), PyInt(fields[4]))
      case (Some(rStart), Some(rEnd)) =>
        var ov := Overlap(start, end, rStart, rEnd);
        if ov > 0 then Ok(Some((ClassifyRepeat(fields[2]), ov))) else Ok(None)
      case _ => Crash("ValueError")
  }

  /** A hit is a positive overlap no longer than the PUR, of a class that is
      not `Unannotated`. */
  lemma HitOfSpec(start: int, end: int, fields: seq<string>)
    requires HitOfFields(start, end, fields).Ok? && HitOfFields(start, end, fields).value.Some?
    ensures var h := HitOfFields(start, end, fields).value.value;
      && 0 < h.1 && (start <= end ==> h.1 <= end - start) && h.0 != "Unannotated"
  {
    OverlapSpec(start, end, PyInt(fields[3]).value, PyInt(fields[4]).value);
    ClassifyNeverRetro(fields[2]);
  }

  /** The check of one record, up to the table update. */
  method ReadHit(start: int, end: int, rec: string) returns (h: Outcome<Option<(string, int)>>)
    ensures h == HitOf(start, end, rec)
  {
    h := ReadHitFields(start, end, Split(Strip(rec), "\t"));
  }

  method ReadHitFields(start: int, end: int, fields: seq<string>) returns (h: Outcome<Option<(string, int)>>)
    ensures h == HitOfFields(start, end, fields)
  {
    if |fields| < 5 {
      return Ok(None);
    }
    var rStart := PyInt(fields[3]);
    var rEnd := PyInt(fields[4]);
    if rStart.None? || rEnd.None? {
      return Crash("ValueError");
    }
    var ov := Overlap(start, end, rStart.value, rEnd.value);
    if ov > 0 {
      return Ok(Some((ClassifyRepeat(fields[2]), ov)));
    }
    return Ok(None);
  }

  /** The check of a record against one PUR. */
  type Check = string -> Outcome<Option<(string, int)>>

  function Probe(start: int, end: int): Check {
    rec => HitOf(start, end, rec)
  }

  /** The hits of the records, in order, until the first crash. */
  function Collect(check: Check, recs: seq<string>): Outcome<seq<(string, int)>> {
    if recs == [] then Ok([])
    else
      match Collect(check, recs[..|recs| - 1])
      case Crash(e) => Crash(e)
      case Ok(hs) =>
        match check(recs[|recs| - 1])
        case Crash(e) => Crash(e)
        case Ok(None) => Ok(hs)
        case Ok(Some(h)) => Ok(hs + [h])
  }

  function Hits(start: int, end: int, recs: seq<string>): Outcome<seq<(string, int)>> {
    Collect(Probe(start, end), recs)
  }

  lemma CollectSnoc(check: Check, recs: seq<string>, i: nat)
    requires i < |recs|
    ensures Collect(check, recs[..i + 1]) ==
      match Collect(check, recs[..i])
      case Crash(e) => Crash(e)
      case Ok(hs) =>
        match check(recs[i])
        case Crash(e) => Crash(e)
        case Ok(None) => Ok(hs)
        case Ok(Some(h)) => Ok(hs + [h])
  {
    assert recs[..i + 1][..i] == recs[..i];
  }

  /** A record that takes part: for a PUR, one with at least five fields,
      integer coordinates and a positive overlap. */
  predicate IsHit(check: Check, rec: string) {
    check(rec).Ok? && check(rec).value.Some?
  }

  /** A record that crashes the pass: for a PUR, one on which `int()` fails. */
  predicate IsBad(check: Check, rec: string) {
    check(rec).Crash?
  }

  /** The record pass crashes exactly when some record is bad. */
  lemma {:induction false} CollectCrash(check: Check, recs: seq<string>)
    ensures Collect(check, recs).Crash? <==> exists k | 0 <= k < |recs| :: IsBad(check, recs[k])
  {
    if recs != [] {
      var front := recs[..|recs| - 1];
      CollectCrash(check, front);
      assert forall k | 0 <= k < |front| :: front[k] == recs[k];
    }
  }

  /** Without a crash, there are no hits exactly when no record takes part. */
  lemma {:induction false} CollectEmpty(check: Check, recs: seq<string>)
    requires Collect(check, recs).Ok?
    ensures Collect(check, recs).value == [] <==> forall k | 0 <= k < |recs| :: !IsHit(check, recs[k])
  {
    if recs != [] {
      var front := recs[..|recs| - 1];
      CollectEmpty(check, front);
      assert forall k | 0 <= k < |front| :: front[k] == recs[k];
    }
  }

  /** A PUR's record pass crashes exactly when some record has at least five
      fields and a coordinate `int()` rejects. */
  lemma HitsCrash(start: int, end: int, recs: seq<string>)
    ensures Hits(start, end, recs).Crash? <==>
      exists k | 0 <= k < |recs| :: HitOf(start, end, recs[k]).Crash?
  {
    CollectCrash(Probe(start, end), recs);
  }

  /** Without a crash, every hit is a positive overlap no longer than the
      PUR, of a class that is not `Unannotated`. */
  lemma HitsBounds(start: int, end: int, recs: seq<string>)
    requires Hits(start, end, recs).Ok?
    ensures var hs := Hits(start, end, recs).value;
      forall k | 0 <= k < |hs| :: 0 < hs[k].1 && (start <= end ==> hs[k].1 <= end - start) && hs[k].0 != "Unannotated"
  {
    var hs := Hits(start, end, recs).value;
    CollectFrom(Probe(start, end), recs);
    forall i | 0 <= i < |hs|
      ensures 0 < hs[i].1 && (start <= end ==> hs[i].1 <= end - start) && hs[i].0 != "Unannotated"
    {
      assert HitFrom(Probe(start, end), recs, hs[i]);
      var k :| 0 <= k < |recs| && IsHit(Probe(start, end), recs[k]) && hs[i] == HitOf(start, end, recs[k]).value.value;
      HitOfSpec(start, end, Split(Strip(recs[k]), "\t"));
    }
  }

  /** `h` is the hit of some record that takes part. */
  ghost predicate HitFrom(check: Check, recs: seq<string>, h: (string, int)) {
    exists k | 0 <= k < |recs| :: IsHit(check, recs[k]) && h == check(recs[k]).value.value
  }

  /** Without a crash, every hit comes from a record that takes part. */
  lemma {:induction false} CollectFrom(check: Check, recs: seq<string>)
    requires Collect(check, recs).Ok?
    ensures forall i | 0 <= i < |Collect(check, recs).value| :: HitFrom(check, recs, Collect(check, recs).value[i])
  {
    if recs != [] {
      var front := recs[..|recs| - 1];
      CollectFrom(check, front);
      var hs0 := Collect(check, front).value;
      var hs := Collect(check, recs).value;
      forall i | 0 <= i < |hs|
        ensures HitFrom(check, recs, hs[i])
      {
        if i < |hs0| {
          assert hs[i] == hs0[i];
          assert HitFrom(check, front, hs0[i]);
          var k :| 0 <= k < |front| && IsHit(check, front[k]) && hs0[i] == check(front[k]).value.value;
          assert front[k] == recs[k];
        } else {
          assert IsHit(check, recs[|recs| - 1]);
        }
      }
    }
  }

  /** What one PUR adds, as `(class, bp)` pairs: its full length to
      `Unannotated` when the fetch fails (`fetched` is `None`, tabix's
      ValueError) or no record takes part, else its hits. */
  function PurAdds(p: Pur, fetched: Option<seq<string>>): Outcome<seq<(string, int)>> {
    var purLen := p.end - p.start;
    match fetched
    case None => Ok([("Unannotated", purLen)])
    case Some(recs) =>
      match Hits(p.start, p.end, recs)
      case Crash(e) => Crash(e)
      case Ok(hs) => if hs == [] then Ok([("Unannotated", purLen)]) else Ok(hs)
  }

  /** The fetch failed or none of the PUR's records takes part. */
  predicate NoHit(p: Pur, fetched: Option<seq<string>>) {
    fetched.None? || forall k | 0 <= k < |fetched.value| :: !IsHit(Probe(p.start, p.end), fetched.value[k])
  }

  /** A PUR adds to `Unannotated` exactly when its fetch fails or none of its
      records takes part, and then it adds its full length there and nothing
      else. */
  lemma PurAddsUnannotated(p: Pur, fetched: Option<seq<string>>)
    requires PurAdds(p, fetched).Ok?
    ensures var adds := PurAdds(p, fetched).value;
      && ((exists k | 0 <= k < |adds| :: adds[k].0 == "Unannotated") <==> NoHit(p, fetched))
      && (NoHit(p, fetched) ==> adds == [("Unannotated", p.end - p.start)])
  {
    var adds := PurAdds(p, fetched).value;
    if fetched.Some? {
      var hs := Hits(p.start, p.end, fetched.value).value;
      CollectEmpty(Probe(p.start, p.end), fetched.value);
      if hs != [] {
        HitsBounds(p.start, p.end, fetched.value);
        assert adds == hs;
      }
    }
    if NoHit(p, fetched) {
      assert adds[0].0 == "Unannotated";
    }
  }

  /** Otherwise the PUR adds exactly its hits: positive overlaps no longer
      than the PUR. */
  lemma PurAddsHits(p: Pur, fetched: Option<seq<string>>)
    requires PurAdds(p, fetched).Ok? && !NoHit(p, fetched)
    ensures var adds := PurAdds(p, fetched).value;
      && adds == Hits(p.start, p.end, fetched.value).value
      && forall k | 0 <= k < |adds| :: 0 < adds[k].1 && (p.start <= p.end ==> adds[k].1 <= p.end - p.start)
  {
    HitsNonEmpty(p, fetched);
    HitsBounds(p.start, p.end, fetched.value);
  }

  lemma HitsNonEmpty(p: Pur, fetched: Option<seq<string>>)
    requires fetched.Some? && Hits(p.start, p.end, fetched.value).Ok? && !NoHit(p, fetched)
    ensures Hits(p.start, p.end, fetched.value).value != []
  {
    CollectEmpty(Probe(p.start, p.end), fetched.value);
  }

  /** A cell of the nested `data[chrom][hap][cls]` dictionary. */
  type Cell = (string, string, string)

  /** `data[...]` of a `defaultdict(int)`: absent cells read as 0. */
  function Get(t: map<Cell, int>, c: Cell): int {
    if c in t then t[c] else 0
  }

  /** `data[chrom][hap][cls] += n`. */
  function AddTo(t: map<Cell, int>, c: Cell, n: int): map<Cell, int> {
    t[c := Get(t, c) + n]
  }

  /** The additions of one PUR applied to the cells of its base and haplotype. */
  function Apply(t: map<Cell, int>, base: string, hap: string, adds: seq<(string, int)>): map<Cell, int> {
    if adds == [] then t
    else
      var t' := Apply(t, base, hap, adds[..|adds| - 1]);
      var a := adds[|adds| - 1];
      AddTo(t', (base, hap, a.0), a.1)
  }

  /** The total the additions give class `cls`. */
  function AmountFor(adds: seq<(string, int)>, cls: string): int {
    if adds == [] then 0
    else
      var a := adds[|adds| - 1];
      AmountFor(adds[..|adds| - 1], cls) + (if a.0 == cls then a.1 else 0)
  }

  /** Applying additions adds to each cell of the PUR's base and haplotype
      the total for its class, creates exactly the cells of the classes
      added, and leaves every other cell alone. */
  lemma {:induction false} ApplySpec(t: map<Cell, int>, base: string, hap: string, adds: seq<(string, int)>, c: Cell)
    ensures Get(Apply(t, base, hap, adds), c) ==
      Get(t, c) + (if c.0 == base && c.1 == hap then AmountFor(adds, c.2) else 0)
    ensures c in Apply(t, base, hap, adds) <==>
      c in t || (c.0 == base && c.1 == hap && exists k | 0 <= k < |adds| :: adds[k].0 == c.2)
  {
    if adds != [] {
      var front := adds[..|adds| - 1];
      ApplySpec(t, base, hap, front, c);
      assert forall k | 0 <= k < |front| :: front[k] == adds[k];
    }
  }

  /** The table after one PUR, or the crash of its record pass. */
  function AfterPur(t: map<Cell, int>, p: Pur, fetched: Option<seq<string>>): Outcome<map<Cell, int>> {
    var (base, hap) := SimplifyChrom(p.chrom);
    match PurAdds(p, fetched)
    case Crash(e) => Crash(e)
    case Ok(adds) => Ok(Apply(t, base, hap, adds))
  }

  lemma ApplySnoc(t: map<Cell, int>, base: string, hap: string, hs: seq<(string, int)>, h: (string, int))
    ensures Apply(t, base, hap, hs + [h]) == AddTo(Apply(t, base, hap, hs), (base, hap, h.0), h.1)
  {
    assert (hs + [h])[..|hs|] == hs;
  }

  /** The body of the PUR loop: the fetch result is given, `None` standing
      for tabix's ValueError. */
  method AccountPur(t: map<Cell, int>, p: Pur, fetched: Option<seq<string>>) returns (r: Outcome<map<Cell, int>>)
    ensures r == AfterPur(t, p, fetched)
  {
    var (base, hap) := SimplifyChrom(p.chrom);
    var purLen := p.end - p.start;
    if fetched.None? {
      return Ok(Apply(t, base, hap, [("Unannotated", purLen)]));
    }
    var data, hit := RecordPass(t, base, hap, p.start, p.end, fetched.value);
    if data.Crash? || hit {
      return data;
    }
    assert Apply(t, base, hap, [("Unannotated", purLen)]) == AddTo(t, (base, hap, "Unannotated"), purLen);
    return Ok(AddTo(data.value, (base, hap, "Unannotated"), purLen));
  }

  /** The record loop of one PUR: the table with the hits added and whether
      there was any, or the crash of the first bad record. */
  method RecordPass(t: map<Cell, int>, base: string, hap: string, start: int, end: int, recs: seq<string>)
    returns (r: Outcome<map<Cell, int>>, hit: bool)
    ensures Hits(start, end, recs).Crash? ==> r == Crash(Hits(start, end, recs).reason)
    ensures Hits(start, end, recs).Ok? ==>
      r == Ok(Apply(t, base, hap, Hits(start, end, recs).value)) && (hit <==> Hits(start, end, recs).value != [])
  {
    var data := t;
    hit := false;
    ghost var hs: seq<(string, int)> := [];
    ghost var check := Probe(start, end);
    for i := 0 to |recs|
      invariant Collect(check, recs[..i]) == Ok(hs)
      invariant data == Apply(t, base, hap, hs)
      invariant hit <==> hs != []
    {
      CollectSnoc(check, recs, i);
      var h := ReadHit(start, end, recs[i]);
      assert h == check(recs[i]);
      if h.Crash? {
        CollectCrashStays(check, recs, i + 1);
        return Crash(h.reason), hit;
      }
      if h.value.Some? {
        var cls := h.value.value.0;
        var ov := h.value.value.1;
        ApplySnoc(t, base, hap, hs, (cls, ov));
        hs := hs + [(cls, ov)];
        data := AddTo(data, (base, hap, cls), ov);
        hit := true;
      }
    }
    assert recs[..|recs|] == recs;
    r := Ok(data);
  }

  /** Once the record pass has crashed it stays crashed. */
  lemma {:induction false} CollectCrashStays(check: Check, recs: seq<string>, i: nat)
    requires i <= |recs| && Collect(check, recs[..i]).Crash?
    ensures Collect(check, recs) == Collect(check, recs[..i])
    decreases |recs| - i
  {
    if i < |recs| {
      assert recs[..i + 1][..i] == recs[..i];
      CollectCrashStays(check, recs, i + 1);
    } else {
      assert recs[..i] == recs;
    }
  }

  /** The table after the given PURs, `fetch` standing for the tabix query. */
  function Tallies(purs: seq<Pur>, fetch: (string, int, int) -> Option<seq<string>>): Outcome<map<Cell, int>> {
    if purs == [] then Ok(map[])
    else
      var p := purs[|purs| - 1];
      match Tallies(purs[..|purs| - 1], fetch)
      case Crash(e) => Crash(e)
      case Ok(t) => AfterPur(t, p, fetch(p.chrom, p.start, p.end))
  }

  /** `calculate_overlap_tabix` over the rows of the PUR file. */
  method CalculateOverlap(purs: seq<Pur>, fetch: (string, int, int) -> Option<seq<string>>) returns (r: Outcome<map<Cell, int>>)
    ensures r == Tallies(purs, fetch)
  {
    var data := map[];
    for i := 0 to |purs|
      invariant Tallies(purs[..i], fetch) == Ok(data)
    {
      assert purs[..i + 1][..i] == purs[..i];
      var p := purs[i];
      var step := AccountPur(data, p, fetch(p.chrom, p.start, p.end));
      if step.Crash? {
        assert purs[..i + 1] == purs[..i] + [p];
        CrashStays(purs, fetch, i + 1);
        return step;
      }
      data := step.value;
    }
    assert purs[..|purs|] == purs;
    r := Ok(data);
  }

  /** Once the run has crashed it stays crashed. */
  lemma {:induction false} CrashStays(purs: seq<Pur>, fetch: (string, int, int) -> Option<seq<string>>, i: nat)
    requires i <= |purs| && Tallies(purs[..i], fetch).Crash?
    ensures Tallies(purs, fetch) == Tallies(purs[..i], fetch)
    decreases |purs| - i
  {
    if i < |purs| {
      assert purs[..i + 1][..i] == purs[..i];
      CrashStays(purs, fetch, i + 1);
    } else {
      assert purs[..i] == purs;
    }
  }

  /** What PUR `p` contributes to cell `c`: 0 unless the cell is on the PUR's
      base and haplotype. */
  function Contribution(p: Pur, fetched: Option<seq<string>>, c: Cell): int
    requires PurAdds(p, fetched).Ok?
  {
    var (base, hap) := SimplifyChrom(p.chrom);
    if c.0 == base && c.1 == hap then AmountFor(PurAdds(p, fetched).value, c.2) else 0
  }

  /** The per-PUR contributions to a cell, up to the first crash. */
  function Contributions(purs: seq<Pur>, fetch: (string, int, int) -> Option<seq<string>>, c: Cell): seq<int>
    requires Tallies(purs, fetch).Ok?
  {
    if purs == [] then []
    else
      var p := purs[|purs| - 1];
      assert Tallies(purs[..|purs| - 1], fetch).Ok?;
      Contributions(purs[..|purs| - 1], fetch, c) + [Contribution(p, fetch(p.chrom, p.start, p.end), c)]
  }

  /** Every cell of the final table is the sum of what each PUR contributes
      to it. */
  lemma {:induction false} TalliesCell(purs: seq<Pur>, fetch: (string, int, int) -> Option<seq<string>>, c: Cell)
    requires Tallies(purs, fetch).Ok?
    ensures Get(Tallies(purs, fetch).value, c) == Sum(Contributions(purs, fetch, c))
  {
    if purs != [] {
      var front := purs[..|purs| - 1];
      var p := purs[|purs| - 1];
      var t := Tallies(front, fetch).value;
      TalliesCell(front, fetch, c);
      var (base, hap) := SimplifyChrom(p.chrom);
      var fetched := fetch(p.chrom, p.start, p.end);
      ApplySpec(t, base, hap, PurAdds(p, fetched).value, c);
    }
  }
}
