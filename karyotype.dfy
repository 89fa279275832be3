/** `centromere_karyotype_svg.py`, the part before drawing: chromosome
    lengths from a FASTA index, the widest centromere span per chromosome
    from a GFF file, and the karyotype order of the chromosomes drawn. */
module Karyotype {
  import opened Common
  import opened Strings
  import opened Sorting

  // ---------------------------------------------------------------- read_fai

  /** A FASTA index line: name and length, unless the line is blank, has
      fewer than two tab fields or a length `int()` rejects. */
  function FaiEntry(line: string): Option<(string, int)> {
    if IsBlank(line) then None
    else FaiFields(Split(line, "\t"))
  }

  function FaiFields(p: seq<string>): Option<(string, int)> {
    if |p| < 2 then None
    else
      match PyInt(p[1])
      case None => None
      case Some(n) => Some((p[0], n))
  }

  method ReadFaiLine(line: string) returns (e: Option<(string, int)>)
    ensures e == FaiEntry(line)
  {
    StripEmptyIffBlank(line);
    if Strip(line) == [] {
      return None;
    }
    var p := Split(line, "\t");
    if |p| < 2 {
      return None;
    }
    var n := PyInt(p[1]);
    if n.None? {
      return None;
    }
    e := Some((p[0], n.value));
  }

  function FaiEntries(lines: seq<string>): (es: seq<Option<(string, int)>>)
    ensures |es| == |lines|
  {
    if lines == [] then [] else FaiEntries(lines[..|lines| - 1]) + [FaiEntry(lines[|lines| - 1])]
  }

  lemma FaiEntriesSnoc(lines: seq<string>, i: nat)
    requires i < |lines|
    ensures FaiEntries(lines[..i + 1]) == FaiEntries(lines[..i]) + [FaiEntry(lines[i])]
  {
    assert lines[..i + 1][..i] == lines[..i];
  }

  /** `lens` after the given entries: a later entry overwrites an earlier one. */
  function Lengths(es: seq<Option<(string, int)>>): map<string, int> {
    if es == [] then map[]
    else
      var m := Lengths(es[..|es| - 1]);
      match es[|es| - 1]
      case None => m
      case Some((name, n)) => m[name := n]
  }

  method ReadFai(lines: seq<string>) returns (lens: map<string, int>)
    ensures lens == Lengths(FaiEntries(lines))
  {
    lens := map[];
    for i := 0 to |lines|
      invariant lens == Lengths(FaiEntries(lines[..i]))
    {
      var e := ReadFaiLine(lines[i]);
      FaiEntriesSnoc(lines, i);
      assert FaiEntries(lines[..i + 1])[..i] == FaiEntries(lines[..i]);
      if e.Some? {
        lens := lens[e.value.0 := e.value.1];
      }
    }
    assert lines[..|lines|] == lines;
  }

  /** Entry `k` is the last one naming `name`. */
  ghost predicate LastFor(es: seq<Option<(string, int)>>, name: string, k: nat) {
    && k < |es| && es[k].Some? && es[k].value.0 == name
    && forall j | k < j < |es| :: !(es[j].Some? && es[j].value.0 == name)
  }

  /** A name has a length exactly when some entry names it, and its length
      is the one of the last such entry. */
  lemma {:induction false} LengthsLastWins(es: seq<Option<(string, int)>>, name: string)
    ensures name in Lengths(es) <==> exists k | 0 <= k < |es| :: es[k].Some? && es[k].value.0 == name
    ensures name in Lengths(es) ==> exists k: nat :: LastFor(es, name, k) && Lengths(es)[name] == es[k].value.1
  {
    if es != [] {
      var front := es[..|es| - 1];
      var last := es[|es| - 1];
      LengthsLastWins(front, name);
      assert forall j | 0 <= j < |front| :: front[j] == es[j];
      if last.Some? && last.value.0 == name {
        assert LastFor(es, name, |es| - 1);
      } else if name in Lengths(front) {
        var k: nat :| LastFor(front, name, k) && Lengths(front)[name] == front[k].value.1;
        assert LastFor(es, name, k);
      }
    }
  }

  // -------------------------------------------------------- read_centromeres

  /** A centromere feature: its sequence name and its coordinates, swapped
      when given in reverse. */
  datatype Span = Span(name: string, s: int, e: int)

  function Width(sp: Span): int {
    sp.e - sp.s
  }

  /** A GFF line: none for blank and `#` lines, lines with fewer than five tab
      fields and coordinates `int()` rejects. */
  function CenEntry(line: string): (r: Option<Span>)
    ensures r.Some? ==> r.value.s <= r.value.e
  {
    if IsBlank(line) || StartsWith(line, "#") then None
    else CenFields(Split(line, "\t"))
  }

  function CenFields(p: seq<string>): (r: Option<Span>)
    ensures r.Some? ==> r.value.s <= r.value.e
  {
    if |p| < 5 then None
    else
      match (PyInt(p[3]), PyInt(p[4]))
      case (Some(s), Some(e)) => Some(if e < s then Span(p[0], e, s) else Span(p[0], s, e))
      case _ => None
  }

  method ReadCenLine(line: string) returns (r: Option<Span>)
    ensures r == CenEntry(line)
  {
    StripEmptyIffBlank(line);
    if Strip(line) == [] || StartsWith(line, "#") {
      return None;
    }
    r := ReadCenFields(Split(line, "\t"));
  }

  method ReadCenFields(p: seq<string>) returns (r: Option<Span>)
    ensures r == CenFields(p)
  {
    if |p| < 5 {
      return None;
    }
    var name := p[0];
    var s := PyInt(p[3]);
    var e := PyInt(p[4]);
    if s.None? || e.None? {
      return None;
    }
    var lo, hi := s.value, e.value;
    if hi < lo {
      lo, hi := hi, lo;
    }
    r := Some(Span(name, lo, hi));
  }

  function CenEntries(lines: seq<string>): (es: seq<Option<Span>>)
    ensures |es| == |lines|
  {
    if lines == [] then [] else CenEntries(lines[..|lines| - 1]) + [CenEntry(lines[|lines| - 1])]
  }

  lemma CenEntriesSnoc(lines: seq<string>, i: nat)
    requires i < |lines|
    ensures CenEntries(lines[..i + 1]) == CenEntries(lines[..i]) + [CenEntry(lines[i])]
  {
    assert lines[..i + 1][..i] == lines[..i];
  }

  /** One update of `best`: a new name, or a strictly wider span, replaces
      what is stored. */
  function Keep(best: ODict<string, (int, int)>, sp: Span): (d: ODict<string, (int, int)>)
    requires best.Valid()
    ensures d.Valid()
  {
    if sp.name !in best.entries || Width(sp) > best.entries[sp.name].1 - best.entries[sp.name].0
    then best.Put(sp.name, (sp.s, sp.e))
    else best
  }

  /** `best` after the given entries. */
  function Best(es: seq<Option<Span>>): (d: ODict<string, (int, int)>)
    ensures d.Valid()
  {
    if es == [] then EmptyDict()
    else
      var d := Best(es[..|es| - 1]);
      match es[|es| - 1]
      case None => d
      case Some(sp) => Keep(d, sp)
  }

  lemma BestSnoc(es: seq<Option<Span>>, e: Option<Span>)
    ensures Best(es + [e]) == if e.Some? then Keep(Best(es), e.value) else Best(es)
  {
    assert (es + [e])[..|es|] == es;
  }

  method ReadCentromeres(lines: seq<string>) returns (best: ODict<string, (int, int)>)
    ensures best == Best(CenEntries(lines))
  {
    best := EmptyDict();
    for i := 0 to |lines|
      invariant best == Best(CenEntries(lines[..i]))
    {
      var r := ReadCenLine(lines[i]);
      CenEntriesSnoc(lines, i);
      BestSnoc(CenEntries(lines[..i]), r);
      if r.Some? {
        var sp := r.value;
        if sp.name !in best.entries || sp.e - sp.s > best.entries[sp.name].1 - best.entries[sp.name].0 {
          best := best.Put(sp.name, (sp.s, sp.e));
        }
      }
    }
    assert lines[..|lines|] == lines;
  }

  /** Entry `k` is the first of the widest spans of `name`. */
  ghost predicate FirstWidest(es: seq<Option<Span>>, name: string, k: nat) {
    && k < |es| && es[k].Some? && es[k].value.name == name
    && (forall j | 0 <= j < |es| && es[j].Some? && es[j].value.name == name :: Width(es[j].value) <= Width(es[k].value))
    && (forall j | 0 <= j < k && es[j].Some? && es[j].value.name == name :: Width(es[j].value) < Width(es[k].value))
  }

  ghost predicate Named(es: seq<Option<Span>>, name: string) {
    exists k | 0 <= k < |es| :: es[k].Some? && es[k].value.name == name
  }

  lemma NamedFront(es: seq<Option<Span>>, name: string)
    requires es != []
    ensures var e := es[|es| - 1];
      Named(es, name) <==> Named(es[..|es| - 1], name) || (e.Some? && e.value.name == name)
  {
    var front := es[..|es| - 1];
    if Named(front, name) {
      var k :| 0 <= k < |front| && front[k].Some? && front[k].value.name == name;
      assert es[k] == front[k];
    }
  }

  /** Every chromosome with a usable line has a span, and no other. */
  lemma {:induction false} BestKeys(es: seq<Option<Span>>, name: string)
    ensures name in Best(es).entries <==> Named(es, name)
  {
    if es != [] {
      BestKeys(es[..|es| - 1], name);
      NamedFront(es, name);
    }
  }

  /** A last entry that is not wider keeps the first widest place. */
  lemma WidestKept(es: seq<Option<Span>>, name: string, k: nat)
    requires es != [] && FirstWidest(es[..|es| - 1], name, k)
    requires var last := es[|es| - 1];
      !(last.Some? && last.value.name == name && Width(last.value) > Width(es[k].value))
    ensures FirstWidest(es, name, k)
  {
    var front := es[..|es| - 1];
    assert forall j | 0 <= j < |front| :: front[j] == es[j];
  }

  /** A last entry wider than every earlier one of its name is the first widest. */
  lemma WidestLast(es: seq<Option<Span>>, name: string)
    requires es != []
    requires var last := es[|es| - 1]; last.Some? && last.value.name == name
    requires forall j | 0 <= j < |es| - 1 && es[j].Some? && es[j].value.name == name ::
      Width(es[j].value) < Width(es[|es| - 1].value)
    ensures FirstWidest(es, name, |es| - 1)
  {
  }

  /** What one update stores for `name`. */
  lemma KeepEntry(d: ODict<string, (int, int)>, e: Option<Span>, name: string)
    requires d.Valid()
    ensures e.Some? && name in Keep(d, e.value).entries ==>
      Keep(d, e.value).entries[name] ==
        if e.value.name == name && (name !in d.entries || Width(e.value) > d.entries[name].1 - d.entries[name].0)
        then (e.value.s, e.value.e) else d.entries[name]
  {
  }

  /** The stored span of a chromosome is its widest one, the first of them
      on equal widths. */
  lemma {:induction false} BestWidest(es: seq<Option<Span>>, name: string)
    requires name in Best(es).entries
    ensures exists k: nat :: FirstWidest(es, name, k) && Best(es).entries[name] == (es[k].value.s, es[k].value.e)
  {
    var front := es[..|es| - 1];
    var last := es[|es| - 1];
    var d := Best(front);
    var stored := Best(es).entries[name];
    assert last.None? ==> stored == d.entries[name];
    assert last.Some? ==> stored == Keep(d, last.value).entries[name];
    KeepEntry(d, last, name);
    BestKeys(front, name);
    if name in d.entries {
      BestWidest(front, name);
      var k: nat :| FirstWidest(front, name, k) && d.entries[name] == (front[k].value.s, front[k].value.e);
      assert front[k] == es[k];
      if last.Some? && last.value.name == name && Width(last.value) > Width(es[k].value) {
        forall j | 0 <= j < |es| - 1 && es[j].Some? && es[j].value.name == name
          ensures Width(es[j].value) < Width(last.value)
        {
          assert front[j] == es[j];
        }
        WidestLast(es, name);
      } else {
        WidestKept(es, name, k);
      }
    } else {
      assert last.Some? && last.value.name == name;
      forall j | 0 <= j < |es| - 1
        ensures !(es[j].Some? && es[j].value.name == name)
      {
        assert front[j] == es[j];
      }
      WidestLast(es, name);
    }
  }

  // -------------------------------------------------------- sort_chromosomes

  predicate IsLetter(c: char) {
    ('A' <= c <= 'Z') || ('a' <= c <= 'z')
  }

  /** `re.match(r"^chr(\d+)([A-Za-z]?)(_.*)?$", n)`: the number and the
      (possibly empty) letter suffix. The digit run is maximal, since a
      shorter one would leave a digit where a letter, `_` or the end must
      follow. */
  function ChrNumber(n: string): (r: Option<(nat, string)>)
    ensures r.Some? ==> |r.value.1| <= 1
  {
    if !StartsWith(n, "chr") then None
    else
      var rest := n[3..];
      var d := DigitRun(rest);
      if d == 0 then None
      else
        var num := DigitsValue(rest[..d]);
        var tail := rest[d..];
        if tail == [] || tail[0] == '_' then Some((num, ""))
        else if IsLetter(tail[0]) && (|tail| == 1 || tail[1] == '_') then Some((num, [tail[0]]))
        else None
  }

  /** The sort key tuple. */
  datatype Key = Key(major: int, suffixed: int, letter: int, name: string)

  const ZMajor := 10_000_000
  const WMajor := 10_000_001
  const UnmatchedMajor := 9_999_999

  /** `key` of `sort_chromosomes`. */
  function SortKey(n: string): Key {
    if StartsWith(n, "chrZ") then Key(ZMajor, 0, 0, n)
    else if StartsWith(n, "chrW") then Key(WMajor, 0, 0, n)
    else
      match ChrNumber(n)
      case Some((num, suff)) =>
        Key(num, if suff == "" then 0 else 1, if suff == "" then -1 else suff[0] as int, n)
      case None => Key(UnmatchedMajor, 0, 0, n)
  }

  /** Python's tuple `<=`. */
  predicate KeyLe(a: Key, b: Key) {
    || a.major < b.major
    || (a.major == b.major && a.suffixed < b.suffixed)
    || (a.major == b.major && a.suffixed == b.suffixed && a.letter < b.letter)
    || (a.major == b.major && a.suffixed == b.suffixed && a.letter == b.letter && LexLe(a.name, b.name))
  }

  predicate ChromLe(a: string, b: string) {
    KeyLe(SortKey(a), SortKey(b))
  }

  lemma KeyLeTrans(a: Key, b: Key, c: Key)
    requires KeyLe(a, b) && KeyLe(b, c)
    ensures KeyLe(a, c)
  {
    if LexLe(a.name, b.name) && LexLe(b.name, c.name) {
      LexLeTrans(a.name, b.name, c.name);
    }
  }

  lemma ChromLeTotal()
    ensures TotalPreorder(ChromLe)
  {
    forall a, b
      ensures ChromLe(a, b) || ChromLe(b, a)
    {
      LexLeTotal(SortKey(a).name, SortKey(b).name);
    }
    forall a, b, c | ChromLe(a, b) && ChromLe(b, c)
      ensures ChromLe(a, c)
    {
      KeyLeTrans(SortKey(a), SortKey(b), SortKey(c));
    }
  }

  function SortChromosomes(names: seq<string>): seq<string> {
    Sort(names, ChromLe)
  }

  /** `sorted` returns a rearrangement of its input in key order. */
  lemma SortChromosomesSpec(names: seq<string>)
    ensures multiset(SortChromosomes(names)) == multiset(names)
    ensures Sorted(SortChromosomes(names), ChromLe)
  {
    ChromLeTotal();
    SortSorted(names, ChromLe);
  }

  /** The four groups: numbered names, other names, `chrZ*`, `chrW*`. */
  function Group(n: string): nat {
    if StartsWith(n, "chrZ") then 2
    else if StartsWith(n, "chrW") then 3
    else if ChrNumber(n).Some? then 0
    else 1
  }

  /** A numbered name whose number is below the sentinel of unmatched names. */
  predicate SmallNumber(n: string) {
    Group(n) == 0 ==> ChrNumber(n).value.0 < UnmatchedMajor
  }

  /** Groups come in order: numbered, others, Z, W (for numbers below the
      sentinels). */
  lemma GroupOrder(a: string, b: string)
    requires SmallNumber(a) && SmallNumber(b)
    ensures ChromLe(a, b) ==> Group(a) <= Group(b)
  {
  }

  /** Within the numbered names: by number, then the unsuffixed name first,
      then by suffix letter. */
  lemma NumberedOrder(a: string, b: string)
    requires Group(a) == 0 && Group(b) == 0
    ensures var (na, sa) := ChrNumber(a).value;
      var (nb, sb) := ChrNumber(b).value;
      ChromLe(a, b) ==>
        && na <= nb
        && (na == nb && sa != "" ==> sb != "")
        && (na == nb && sa != "" && sb != "" ==> sa[0] <= sb[0])
  {
  }

  /** The sorted names keep the group order. */
  lemma SortedGroups(names: seq<string>, i: nat, j: nat)
    requires forall n | n in names :: SmallNumber(n)
    requires i < j < |SortChromosomes(names)|
    ensures Group(SortChromosomes(names)[i]) <= Group(SortChromosomes(names)[j])
  {
    var r := SortChromosomes(names);
    SortChromosomesSpec(names);
    assert r[i] in multiset(names) && r[j] in multiset(names);
    GroupOrder(r[i], r[j]);
  }

  /** The sentinels are plain numbers: a numbered name whose number exceeds
      the one given to `chrW*` names is placed after them. */
  lemma LargeNumberAfterW(n: string, w: string)
    requires Group(n) == 0 && ChrNumber(n).value.0 > WMajor
    requires StartsWith(w, "chrW")
    ensures Group(w) == 3
    ensures ChromLe(w, n) && !ChromLe(n, w)
  {
  }

  // ------------------------------------------------------------- drawn names

  /** `[n for n in sorted_names if n in lengths]` */
  function InLengths(names: seq<string>, lengths: map<string, int>): (r: seq<string>)
    ensures forall n | n in r :: n in names && n in lengths
    ensures forall n | n in names && n in lengths :: n in r
  {
    if names == [] then []
    else
      var n := names[|names| - 1];
      var front := names[..|names| - 1];
      assert forall x | x in names :: x in front || x == n;
      InLengths(front, lengths) + (if n in lengths then [n] else [])
  }

  /** The chromosomes drawn; none in common ends the run (`sys.exit(1)`). */
  function Drawn(best: ODict<string, (int, int)>, lengths: map<string, int>): Outcome<seq<string>> {
    var names := InLengths(SortChromosomes(best.keys), lengths);
    if names == [] then Crash("SystemExit") else Ok(names)
  }

  /** `InLengths` keeps the order of what it filters. */
  lemma {:induction false} InLengthsSorted(names: seq<string>, lengths: map<string, int>)
    requires Sorted(names, ChromLe)
    ensures Sorted(InLengths(names, lengths), ChromLe)
  {
    if names != [] {
      var front := names[..|names| - 1];
      var n := names[|names| - 1];
      InLengthsSorted(front, lengths);
      var r := InLengths(front, lengths);
      forall i | 0 <= i < |r|
        ensures ChromLe(r[i], n)
      {
        assert r[i] in front;
        var k :| 0 <= k < |front| && front[k] == r[i];
        assert names[k] == front[k];
      }
    }
  }

  /** The drawn names are exactly the centromere names with a length, in
      karyotype order. */
  lemma DrawnSpec(best: ODict<string, (int, int)>, lengths: map<string, int>)
    requires best.Valid()
    requires Drawn(best, lengths).Ok?
    ensures var names := Drawn(best, lengths).value;
      && (forall n :: n in names <==> n in best.entries && n in lengths)
      && Sorted(names, ChromLe)
  {
    var sorted := SortChromosomes(best.keys);
    SortChromosomesSpec(best.keys);
    InLengthsSorted(sorted, lengths);
    forall n
      ensures n in sorted <==> n in best.keys
    {
      assert n in sorted <==> n in multiset(best.keys);
    }
  }

  /** Nothing is drawn, and the run ends, exactly when no centromere name has
      a length. */
  lemma DrawnEmpty(best: ODict<string, (int, int)>, lengths: map<string, int>)
    requires best.Valid()
    ensures Drawn(best, lengths).Crash? <==> forall n | n in best.entries :: n !in lengths
  {
    var sorted := SortChromosomes(best.keys);
    SortChromosomesSpec(best.keys);
    forall n
      ensures n in sorted <==> n in best.keys
    {
      assert n in sorted <==> n in multiset(best.keys);
    }
    var r := InLengths(sorted, lengths);
    if r != [] {
      assert r[0] in r;
    }
  }
}
