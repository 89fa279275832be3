/** `plot_chr_lengths_split_hap.py`: chromosome lengths from one FASTA index
    holding both haplotypes, summed per base name and haplotype, and ordered
    for plotting by a diploid-equivalent length. */
module ChrLengthsSplitHap {
  import opened Common
  import opened Strings
  import opened Sorting

  datatype Hap = Mat | Pat

  /** The first two columns of an index line: sequence name and length. */
  datatype FaiRow = FaiRow(name: string, length: nat)

  /** `str.extract(r'_(mat|pat)$')`: the haplotype named by a trailing suffix. */
  function HapOf(name: string): Option<Hap> {
    if EndsWith(name, "_mat") then Some(Mat)
    else if EndsWith(name, "_pat") then Some(Pat)
    else None
  }

  function Suffix(h: Hap): string {
    match h
    case Mat => "_mat"
    case Pat => "_pat"
  }

  /** `str.replace(r'_(mat|pat)$', '')`: the name without that suffix. */
  function BaseOf(name: string): string {
    if HapOf(name).Some? then name[..|name| - 4] else name
  }

  /** The base name and the suffix put back together give the name; a name
      without a haplotype suffix is its own base. */
  lemma BaseAndSuffix(name: string)
    ensures HapOf(name).Some? ==> BaseOf(name) + Suffix(HapOf(name).value) == name
    ensures HapOf(name).None? ==> BaseOf(name) == name
    ensures HapOf(name) == Some(Mat) <==> EndsWith(name, "_mat")
    ensures HapOf(name) == Some(Pat) <==> EndsWith(name, "_pat")
  {
    if EndsWith(name, "_mat") {
      assert name == name[..|name| - 4] + name[|name| - 4..];
    } else if EndsWith(name, "_pat") {
      assert name == name[..|name| - 4] + name[|name| - 4..];
      assert !EndsWith(name, "_mat") by {
        assert name[|name| - 4..][1] == 'p';
      }
    }
  }

  /** One pivot-table row: the summed maternal and paternal lengths, with a
      missing haplotype counting as 0. */
  datatype Lengths = Lengths(mat: nat, pat: nat)

  function AddLength(l: Lengths, h: Hap, n: nat): Lengths {
    match h
    case Mat => l.(mat := l.mat + n)
    case Pat => l.(pat := l.pat + n)
  }

  /** `pivot_table(index='chr_base', columns='hap', aggfunc='sum').fillna(0)`:
      rows without a haplotype fall out of the table. */
  function Totals(rows: seq<FaiRow>): map<string, Lengths> {
    if rows == [] then map[]
    else
      var t := Totals(rows[..|rows| - 1]);
      var r := rows[|rows| - 1];
      match HapOf(r.name)
      case None => t
      case Some(h) =>
        var b := BaseOf(r.name);
        var l := if b in t then t[b] else Lengths(0, 0);
        t[b := AddLength(l, h, r.length)]
  }

  /** The summed length of the rows of base `b` and haplotype `h`. */
  function HapSum(rows: seq<FaiRow>, b: string, h: Hap): nat {
    if rows == [] then 0
    else
      var r := rows[|rows| - 1];
      HapSum(rows[..|rows| - 1], b, h) + (if BaseOf(r.name) == b && HapOf(r.name) == Some(h) then r.length else 0)
  }

  /** Some row of base `b` carries a haplotype. */
  ghost predicate Phased(rows: seq<FaiRow>, b: string) {
    exists k | 0 <= k < |rows| :: BaseOf(rows[k].name) == b && HapOf(rows[k].name).Some?
  }

  /** A base is in the table exactly when one of its rows is phased. */
  lemma {:induction false} TotalsKeys(rows: seq<FaiRow>, b: string)
    ensures b in Totals(rows) <==> Phased(rows, b)
  {
    if rows != [] {
      var front := rows[..|rows| - 1];
      var r := rows[|rows| - 1];
      TotalsKeys(front, b);
      var t := Totals(front);
      if HapOf(r.name).None? {
        assert Totals(rows) == t;
      } else {
        assert Totals(rows).Keys == t.Keys + {BaseOf(r.name)};
      }
      PhasedFront(rows, b);
    }
  }

  /** Phased rows of a sequence are those of its front and its last row. */
  lemma PhasedFront(rows: seq<FaiRow>, b: string)
    requires rows != []
    ensures var r := rows[|rows| - 1];
      Phased(rows, b) <==> Phased(rows[..|rows| - 1], b) || (BaseOf(r.name) == b && HapOf(r.name).Some?)
  {
    var front := rows[..|rows| - 1];
    if Phased(front, b) {
      var k :| 0 <= k < |front| && BaseOf(front[k].name) == b && HapOf(front[k].name).Some?;
      assert rows[k] == front[k];
    }
    if Phased(rows, b) {
      var k :| 0 <= k < |rows| && BaseOf(rows[k].name) == b && HapOf(rows[k].name).Some?;
      if k < |front| {
        assert rows[k] == front[k];
      }
    }
  }

  /** A table entry holds the per-haplotype sums of its base; a base without
      an entry has none. */
  lemma {:induction false} TotalsSums(rows: seq<FaiRow>, b: string)
    ensures b in Totals(rows) ==> Totals(rows)[b] == Lengths(HapSum(rows, b, Mat), HapSum(rows, b, Pat))
    ensures b !in Totals(rows) ==> HapSum(rows, b, Mat) == 0 && HapSum(rows, b, Pat) == 0
  {
    if rows != [] {
      var front := rows[..|rows| - 1];
      var r := rows[|rows| - 1];
      TotalsSums(front, b);
      var t := Totals(front);
      var m := HapSum(front, b, Mat);
      var p := HapSum(front, b, Pat);
      assert HapSum(rows, b, Mat) == m + (if BaseOf(r.name) == b && HapOf(r.name) == Some(Mat) then r.length else 0);
      assert HapSum(rows, b, Pat) == p + (if BaseOf(r.name) == b && HapOf(r.name) == Some(Pat) then r.length else 0);
      match HapOf(r.name)
      case None =>
        assert Totals(rows) == t;
      case Some(h) =>
        var l := if BaseOf(r.name) in t then t[BaseOf(r.name)] else Lengths(0, 0);
        assert Totals(rows) == t[BaseOf(r.name) := AddLength(l, h, r.length)];
    }
  }

  lemma TotalsSpec(rows: seq<FaiRow>, b: string)
    ensures b in Totals(rows) <==> Phased(rows, b)
    ensures b in Totals(rows) ==> Totals(rows)[b] == Lengths(HapSum(rows, b, Mat), HapSum(rows, b, Pat))
    ensures b !in Totals(rows) ==> HapSum(rows, b, Mat) == 0 && HapSum(rows, b, Pat) == 0
  {
    TotalsKeys(rows, b);
    TotalsSums(rows, b);
  }

  /** `compute_diploid_length`: the sum when both haplotypes are present,
      else twice the one that is. */
  function Diploid(l: Lengths): nat {
    if l.mat > 0 && l.pat > 0 then l.mat + l.pat
    else 2 * (if l.mat >= l.pat then l.mat else l.pat)
  }

  /** The diploid length treats the haplotypes alike, is never below their
      sum and never above twice the longer one. */
  lemma DiploidBounds(l: Lengths)
    ensures Diploid(l) == Diploid(Lengths(l.pat, l.mat))
    ensures l.mat + l.pat <= Diploid(l) <= 2 * (if l.mat >= l.pat then l.mat else l.pat)
    ensures Diploid(l) == l.mat + l.pat <==> (l.mat > 0 && l.pat > 0) || l.mat == l.pat
  {
  }

  /** One bar of the plot. */
  datatype Bar = Bar(chrom: string, lengths: Lengths)

  predicate NameLe(a: string, b: string) {
    LexLe(a, b)
  }

  /** `sort_values('sort_total', ascending=False)` compares bars this way. */
  predicate LongerOrEqual(a: Bar, b: Bar) {
    Diploid(a.lengths) >= Diploid(b.lengths)
  }

  lemma NameLeTotal()
    ensures TotalPreorder(NameLe)
  {
    forall a, b
      ensures NameLe(a, b) || NameLe(b, a)
    {
      LexLeTotal(a, b);
    }
    forall a, b, c | NameLe(a, b) && NameLe(b, c)
      ensures NameLe(a, c)
    {
      LexLeTrans(a, b, c);
    }
  }

  lemma LongerTotal()
    ensures TotalPreorder(LongerOrEqual)
  {
  }

  /** The base names that carry a haplotype, in row order, once each. */
  function PhasedBases(rows: seq<FaiRow>): seq<string> {
    if rows == [] then []
    else
      var bs := PhasedBases(rows[..|rows| - 1]);
      var r := rows[|rows| - 1];
      if HapOf(r.name).Some? then bs + [BaseOf(r.name)] else bs
  }

  lemma {:induction false} PhasedBasesSpec(rows: seq<FaiRow>, b: string)
    ensures b in PhasedBases(rows) <==> Phased(rows, b)
  {
    if rows != [] {
      PhasedBasesSpec(rows[..|rows| - 1], b);
      PhasedFront(rows, b);
    }
  }

  /** The pivot table's index: the phased base names in name order. */
  function Index(rows: seq<FaiRow>): seq<string> {
    Sort(Dedup(PhasedBases(rows)), NameLe)
  }

  function BarsOf(names: seq<string>, t: map<string, Lengths>): (bars: seq<Bar>)
    requires forall n | n in names :: n in t
    ensures |bars| == |names|
    ensures forall i | 0 <= i < |names| :: bars[i] == Bar(names[i], t[names[i]])
  {
    if names == [] then [] else [Bar(names[0], t[names[0]])] + BarsOf(names[1..], t)
  }

  lemma IndexInTotals(rows: seq<FaiRow>)
    ensures forall n | n in Index(rows) :: n in Totals(rows)
  {
    forall n | n in Index(rows)
      ensures n in Totals(rows)
    {
      assert n in multiset(Index(rows));
      assert n in Dedup(PhasedBases(rows));
      PhasedBasesSpec(rows, n);
      TotalsSpec(rows, n);
    }
  }

  /** The chromosomes in plotting order, with their lengths. */
  function Plotted(rows: seq<FaiRow>): seq<Bar> {
    IndexInTotals(rows);
    Sort(BarsOf(Index(rows), Totals(rows)), LongerOrEqual)
  }

  ghost predicate Descending(bars: seq<Bar>) {
    forall i, j | 0 <= i < j < |bars| :: Diploid(bars[i].lengths) >= Diploid(bars[j].lengths)
  }

  /** Each bar is a base name of the index with its table row. */
  ghost predicate FromIndex(bars: seq<Bar>, rows: seq<FaiRow>) {
    forall i | 0 <= i < |bars| ::
      && bars[i].chrom in Index(rows)
      && bars[i].chrom in Totals(rows)
      && bars[i].lengths == Totals(rows)[bars[i].chrom]
  }

  /** The bars are in non-increasing diploid length. */
  lemma PlottedDescending(rows: seq<FaiRow>)
    ensures Descending(Plotted(rows))
  {
    IndexInTotals(rows);
    LongerTotal();
    SortSorted(BarsOf(Index(rows), Totals(rows)), LongerOrEqual);
  }

  lemma PlottedFromIndex(rows: seq<FaiRow>)
    ensures FromIndex(Plotted(rows), rows)
  {
    IndexInTotals(rows);
    var t := Totals(rows);
    var names := Index(rows);
    var unsorted := BarsOf(names, t);
    var bars := Plotted(rows);
    assert multiset(bars) == multiset(unsorted);
    forall i | 0 <= i < |bars|
      ensures bars[i].chrom in names && bars[i].chrom in t && bars[i].lengths == t[bars[i].chrom]
    {
      assert bars[i] in multiset(unsorted);
      var k :| 0 <= k < |unsorted| && unsorted[k] == bars[i];
      assert bars[i] == Bar(names[k], t[names[k]]);
    }
  }

  /** Each bar carries the per-haplotype sums of its base name. */
  lemma PlottedSums(rows: seq<FaiRow>)
    ensures var bars := Plotted(rows);
      forall i | 0 <= i < |bars| ::
        bars[i].lengths == Lengths(HapSum(rows, bars[i].chrom, Mat), HapSum(rows, bars[i].chrom, Pat))
  {
    var bars := Plotted(rows);
    PlottedFromIndex(rows);
    forall i | 0 <= i < |bars|
      ensures bars[i].lengths == Lengths(HapSum(rows, bars[i].chrom, Mat), HapSum(rows, bars[i].chrom, Pat))
    {
      TotalsSpec(rows, bars[i].chrom);
    }
  }

  /** No base name gets two bars. */
  lemma PlottedDistinct(rows: seq<FaiRow>)
    ensures var bars := Plotted(rows);
      forall i, j | 0 <= i < j < |bars| :: bars[i].chrom != bars[j].chrom
  {
    IndexInTotals(rows);
    var t := Totals(rows);
    var names := Index(rows);
    var unsorted := BarsOf(names, t);
    var bars := Plotted(rows);
    var ds := Dedup(PhasedBases(rows));
    assert multiset(bars) == multiset(unsorted);
    assert multiset(names) == multiset(ds);
    PlottedFromIndex(rows);
    forall i, j | 0 <= i < j < |bars|
      ensures bars[i].chrom != bars[j].chrom
    {
      var n := bars[i].chrom;
      CountTwo(bars, i, j);
      BarsCount(names, t, n, t[n]);
      DistinctCount(ds, n);
    }
  }

  /** There is a bar for a base name exactly when one of its rows is phased. */
  lemma PlottedCovers(rows: seq<FaiRow>, b: string)
    ensures var bars := Plotted(rows);
      (exists i | 0 <= i < |bars| :: bars[i].chrom == b) <==> Phased(rows, b)
  {
    IndexInTotals(rows);
    var t := Totals(rows);
    var names := Index(rows);
    var unsorted := BarsOf(names, t);
    var bars := Plotted(rows);
    var ds := Dedup(PhasedBases(rows));
    assert multiset(bars) == multiset(unsorted);
    assert multiset(names) == multiset(ds);
    PhasedBasesSpec(rows, b);
    if Phased(rows, b) {
      assert b in multiset(names);
      var k :| 0 <= k < |names| && names[k] == b;
      assert unsorted[k] in multiset(bars);
      var i :| 0 <= i < |bars| && bars[i] == unsorted[k];
      assert bars[i].chrom == b;
    }
    if exists i | 0 <= i < |bars| :: bars[i].chrom == b {
      var i :| 0 <= i < |bars| && bars[i].chrom == b;
      PlottedFromIndex(rows);
      assert b in multiset(ds);
    }
  }

  /** A bar occurs in `BarsOf` no more often than its name among the names. */
  lemma {:induction false} BarsCount(names: seq<string>, t: map<string, Lengths>, n: string, l: Lengths)
    requires forall m | m in names :: m in t
    ensures multiset(BarsOf(names, t))[Bar(n, l)] <= multiset(names)[n]
  {
    if names != [] {
      var rest := names[1..];
      var x := Bar(names[0], t[names[0]]);
      BarsCount(rest, t, n, l);
      assert multiset(names)[n] == multiset{names[0]}[n] + multiset(rest)[n] by {
        assert names == [names[0]] + rest;
      }
      assert multiset(BarsOf(names, t))[Bar(n, l)] == multiset{x}[Bar(n, l)] + multiset(BarsOf(rest, t))[Bar(n, l)] by {
        assert BarsOf(names, t) == [x] + BarsOf(rest, t);
      }
    }
  }
}
