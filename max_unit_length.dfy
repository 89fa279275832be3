/** `max_unit_length_per_chromosome.py`: the longest annotated unit per
    chromosome of a GFF file, reported in chromosome-name order. */
module MaxUnitLength {
  import opened Common
  import opened Strings
  import opened Sorting

  /** A usable GFF line: its chromosome and `end - start + 1`. */
  datatype Unit = Unit(chrom: string, length: int)

  /** The checks of one loop pass: blank and `#` lines, lines with fewer than
      five tab fields and lines whose coordinates `int()` rejects are skipped. */
  function UnitOf(line: string): Option<Unit> {
    if IsBlank(line) || StartsWith(line, "#") then None
    else UnitOfFields(Split(Strip(line), "\t"))
  }

  /** The checks on the tab fields of a line that is neither blank nor a comment. */
  function UnitOfFields(fields: seq<string>): Option<Unit> {
    if |fields| < 5 then None
    else
      match (PyInt(fields[3]), PyInt(fields[4]))
      case (Some(start), Some(end)) => Some(Unit(fields[0], end - start + 1))
      case _ => None
  }

  /** One pass of the loop body, up to the dictionary update. */
  method ReadUnit(line: string) returns (u: Option<Unit>)
    ensures u == UnitOf(line)
  {
    StripEmptyIffBlank(line);
    if Strip(line) == [] || StartsWith(line, "#") {
      return None;
    }
    u := ReadFields(Split(Strip(line), "\t"));
  }

  /** The field checks of one loop pass. */
  method ReadFields(fields: seq<string>) returns (u: Option<Unit>)
    ensures u == UnitOfFields(fields)
  {
    if |fields| < 5 {
      return None;
    }
    var chrom := fields[0];
    var start := PyInt(fields[3]);
    if start.None? {
      return None;
    }
    var end := PyInt(fields[4]);
    if end.None? {
      return None;
    }
    u := Some(Unit(chrom, end.value - start.value + 1));
  }

  /** `if unit_len > max_len[chrom]: max_len[chrom] = unit_len`. The lookup
      alone inserts the chromosome with 0. */
  function Record(d: ODict<string, int>, u: Unit): (d': ODict<string, int>)
    requires d.Valid()
    ensures d'.Valid()
  {
    var current := if u.chrom in d.entries then d.entries[u.chrom] else 0;
    d.Put(u.chrom, if u.length > current then u.length else current)
  }

  /** The units of the lines, `None` for each skipped line. */
  function Units(lines: seq<string>): (us: seq<Option<Unit>>)
    ensures |us| == |lines|
  {
    if lines == [] then [] else Units(lines[..|lines| - 1]) + [UnitOf(lines[|lines| - 1])]
  }

  lemma {:induction false} UnitsAt(lines: seq<string>, k: nat)
    requires k < |lines|
    ensures Units(lines)[k] == UnitOf(lines[k])
  {
    if k < |lines| - 1 {
      UnitsAt(lines[..|lines| - 1], k);
    }
  }

  lemma UnitsSnoc(lines: seq<string>, i: nat)
    requires i < |lines|
    ensures Units(lines[..i + 1]) == Units(lines[..i]) + [UnitOf(lines[i])]
  {
    assert lines[..i + 1][..i] == lines[..i];
  }

  /** The dictionary after the given units. */
  function MaxLens(units: seq<Option<Unit>>): (d: ODict<string, int>)
    ensures d.Valid()
  {
    if units == [] then EmptyDict()
    else
      var d := MaxLens(units[..|units| - 1]);
      match units[|units| - 1]
      case None => d
      case Some(u) => Record(d, u)
  }

  lemma MaxLensSnoc(units: seq<Option<Unit>>, u: Option<Unit>)
    ensures MaxLens(units + [u]) == if u.Some? then Record(MaxLens(units), u.value) else MaxLens(units)
  {
    assert (units + [u])[..|units|] == units;
  }

  /** The dictionary update of one loop pass. */
  method RecordUnit(d: ODict<string, int>, u: Unit) returns (d': ODict<string, int>)
    requires d.Valid()
    ensures d' == Record(d, u)
  {
    var chrom := u.chrom;
    var current := if chrom in d.entries then d.entries[chrom] else 0;
    d' := d.Put(chrom, current);
    if u.length > current {
      d.PutTwice(chrom, current, u.length);
      d' := d'.Put(chrom, u.length);
    }
  }

  /** The loop of `parse_gff_compute_lengths` over the file's lines. */
  method ComputeLengths(lines: seq<string>) returns (d: ODict<string, int>)
    ensures d == MaxLens(Units(lines))
  {
    d := EmptyDict();
    for i := 0 to |lines|
      invariant d == MaxLens(Units(lines[..i]))
    {
      var u := ReadUnit(lines[i]);
      UnitsSnoc(lines, i);
      MaxLensSnoc(Units(lines[..i]), u);
      if u.Some? {
        d := RecordUnit(d, u.value);
      }
    }
    assert lines[..|lines|] == lines;
  }

  /** Some unit is on chromosome `c`. */
  ghost predicate HasUnit(units: seq<Option<Unit>>, c: string) {
    exists k | 0 <= k < |units| :: units[k].Some? && units[k].value.chrom == c
  }

  lemma HasUnitFront(units: seq<Option<Unit>>, c: string)
    requires units != []
    ensures var u := units[|units| - 1];
      HasUnit(units, c) <==> HasUnit(units[..|units| - 1], c) || (u.Some? && u.value.chrom == c)
  {
    var front := units[..|units| - 1];
    if HasUnit(front, c) {
      var k :| 0 <= k < |front| && front[k].Some? && front[k].value.chrom == c;
      assert units[k] == front[k];
    }
  }

  /** Every chromosome with a usable line is reported, even when all its unit
      lengths are at most 0, and no other. */
  lemma {:induction false} MaxLensKeys(units: seq<Option<Unit>>, c: string)
    ensures c in MaxLens(units).entries <==> HasUnit(units, c)
  {
    if units != [] {
      MaxLensKeys(units[..|units| - 1], c);
      HasUnitFront(units, c);
    }
  }

  /** The reported value is at least 0 and at least every unit length of the
      chromosome. */
  lemma {:induction false} MaxLensBound(units: seq<Option<Unit>>, c: string)
    ensures c in MaxLens(units).entries ==> MaxLens(units).entries[c] >= 0
    ensures c in MaxLens(units).entries ==>
      forall k | 0 <= k < |units| && units[k].Some? && units[k].value.chrom == c ::
        units[k].value.length <= MaxLens(units).entries[c]
  {
    if units != [] {
      var front := units[..|units| - 1];
      MaxLensBound(front, c);
      MaxLensKeys(front, c);
      var d' := MaxLens(units);
      if c in d'.entries {
        forall k | 0 <= k < |units| && units[k].Some? && units[k].value.chrom == c
          ensures units[k].value.length <= d'.entries[c]
        {
          if k < |front| {
            assert units[k] == front[k];
            assert HasUnit(front, c);
          }
        }
      }
    }
  }

  /** The reported value is 0 or the length of one of the chromosome's units. */
  lemma {:induction false} MaxLensAttained(units: seq<Option<Unit>>, c: string)
    ensures c in MaxLens(units).entries ==>
      || MaxLens(units).entries[c] == 0
      || exists k | 0 <= k < |units| :: units[k] == Some(Unit(c, MaxLens(units).entries[c]))
  {
    if units != [] {
      var front := units[..|units| - 1];
      MaxLensAttained(front, c);
      var d := MaxLens(front);
      var d' := MaxLens(units);
      if c in d.entries && d.entries[c] != 0 && c in d'.entries && d'.entries[c] == d.entries[c] {
        var k :| 0 <= k < |front| && front[k] == Some(Unit(c, d.entries[c]));
        assert units[k] == front[k];
      }
      if c in d'.entries && d'.entries[c] != 0 && !(c in d.entries && d'.entries[c] == d.entries[c]) {
        assert units[|units| - 1] == Some(Unit(c, d'.entries[c]));
      }
    }
  }

  /** `sorted(max_len)`. */
  function ReportOrder(lines: seq<string>): seq<string> {
    Sort(MaxLens(Units(lines)).keys, LexLe)
  }

  lemma LexLeTotalPreorder()
    ensures TotalPreorder(LexLe)
  {
    forall a, b
      ensures LexLe(a, b) || LexLe(b, a)
    {
      LexLeTotal(a, b);
    }
    forall a, b, c | LexLe(a, b) && LexLe(b, c)
      ensures LexLe(a, c)
    {
      LexLeTrans(a, b, c);
    }
  }

  /** The printed chromosomes are the dictionary's keys, each once, in
      strictly increasing name order. */
  lemma ReportOrderSpec(lines: seq<string>)
    ensures var names := ReportOrder(lines);
      && (forall c :: c in names <==> HasUnit(Units(lines), c))
      && (forall i, j | 0 <= i < j < |names| :: names[i] != names[j])
      && (forall i, j | 0 <= i < j < |names| :: LexLe(names[i], names[j]))
  {
    var d := MaxLens(Units(lines));
    var names := ReportOrder(lines);
    LexLeTotalPreorder();
    SortSorted(d.keys, LexLe);
    PermDistinct(d.keys, names);
    forall c
      ensures c in names <==> HasUnit(Units(lines), c)
    {
      MaxLensKeys(Units(lines), c);
      assert c in names <==> c in multiset(d.keys);
    }
  }

  /** The printed lines: chromosome, tab, maximal unit length. */
  function Report(lines: seq<string>): (out: seq<string>)
    ensures |out| == |ReportOrder(lines)|
  {
    var d := MaxLens(Units(lines));
    var names := ReportOrder(lines);
    assert forall c | c in names :: c in d.entries by {
      assert forall c | c in names :: c in multiset(d.keys);
    }
    seq(|names|, i requires 0 <= i < |names| => names[i] + "\t" + IntToString(d.entries[names[i]]))
  }

  /** Each printed line starts with its chromosome and a tab, and the value
      after the tab reads back as the chromosome's maximal unit length. */
  lemma ReportLines(lines: seq<string>, i: nat)
    requires i < |ReportOrder(lines)|
    ensures var c := ReportOrder(lines)[i];
      && c in MaxLens(Units(lines)).entries
      && Report(lines)[i] == c + "\t" + IntToString(MaxLens(Units(lines)).entries[c])
      && ParseInt(IntToString(MaxLens(Units(lines)).entries[c])) == Some(MaxLens(Units(lines)).entries[c])
  {
    var d := MaxLens(Units(lines));
    var c := ReportOrder(lines)[i];
    assert c in multiset(d.keys);
    ParseIntToString(d.entries[c]);
  }
}
