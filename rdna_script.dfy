/** `rDNAscript.py`: rDNA morphs are read from FASTA records whose description
    carries a `coverage<digits>` tag, each morph's copy number is the observed
    coverage divided by the unit coverage and rounded, and a mixed sequence is
    built from a shuffled list holding each morph as many times as its copy
    number. Biopython's FASTA parsing, the seeded shuffle, the output file and
    the printed statistics are not modelled. */
module RDnaScript {
  import opened Common
  import opened Strings

  /** A FASTA record as Biopython yields it. */
  datatype Record = Record(id: string, description: string, bases: string)

  /** `(record.id, str(record.seq), expected_copies, observed_copies)`. */
  datatype Morph = Morph(id: string, bases: string, expected: int, observed: nat)

  // ---------------------------------------------------------- coverage<digits>

  /** `coverage(\d+)` matches starting at `i`. */
  predicate CoverageAt(s: string, i: nat) {
    i + 8 < |s| && s[i..i + 8] == "coverage" && IsDigit(s[i + 8])
  }

  /** Where `re.search` finds its match: the leftmost starting index. */
  function CoverageIndex(s: string): (r: Option<nat>)
    ensures r.Some? ==> r.value + 8 < |s|
    decreases |s|
  {
    if CoverageAt(s, 0) then Some(0)
    else if s == [] then None
    else
      match CoverageIndex(s[1..])
      case None => None
      case Some(i) => Some(i + 1)
  }

  lemma CoverageShift(s: string, j: nat)
    requires s != []
    ensures CoverageAt(s[1..], j) <==> CoverageAt(s, j + 1)
  {
    if j + 9 < |s| {
      assert s[1..][j..j + 8] == s[j + 1..j + 9];
    }
  }

  /** The search reports the leftmost match, and none when there is none. */
  lemma {:induction false} CoverageIndexSpec(s: string)
    ensures CoverageIndex(s).Some? ==> CoverageAt(s, CoverageIndex(s).value)
    ensures CoverageIndex(s).Some? ==> forall j: nat | j < CoverageIndex(s).value :: !CoverageAt(s, j)
    ensures CoverageIndex(s).None? ==> forall j: nat :: !CoverageAt(s, j)
    decreases |s|
  {
    if !CoverageAt(s, 0) && s != [] {
      CoverageIndexSpec(s[1..]);
      var r := CoverageIndex(s[1..]);
      forall j: nat | r.None? || j < r.value + 1
        ensures !CoverageAt(s, j)
      {
        if j > 0 {
          CoverageShift(s, j - 1);
        }
      }
      if r.Some? {
        CoverageShift(s, r.value);
      }
    }
  }

  /** `int(match.group(1))`: the value of the greedy digit run after the
      leftmost `coverage` that is followed by a digit. */
  function Coverage(description: string): Option<nat> {
    match CoverageIndex(description)
    case None => None
    case Some(i) =>
      var t := description[i + 8..];
      Some(DigitsValue(t[..DigitRun(t)]))
  }

  /** A record is kept exactly when its description has `coverage` followed
      by a digit. */
  lemma CoverageNone(description: string)
    ensures Coverage(description).None? <==> forall j: nat :: !CoverageAt(description, j)
  {
    CoverageIndexSpec(description);
  }

  /** The observed count is the value of the whole, non-empty digit run
      that follows the leftmost match. */
  lemma CoverageSome(description: string)
    requires Coverage(description).Some?
    ensures var i := CoverageIndex(description).value;
      var t := description[i + 8..];
      var n := DigitRun(t);
      && CoverageAt(description, i)
      && (forall j: nat | j < i :: !CoverageAt(description, j))
      && 0 < n
      && (n == |t| || !IsDigit(t[n]))
      && Coverage(description).value == DigitsValue(t[..n])
  {
    CoverageIndexSpec(description);
    var i := CoverageIndex(description).value;
    var t := description[i + 8..];
    assert t[0] == description[i + 8];
  }

  /** A description that starts with `coverage<n>` followed by a non-digit
      gives back `n`. */
  lemma CoverageWritten(n: nat, rest: string)
    requires rest == [] || !IsDigit(rest[0])
    ensures Coverage("coverage" + NatToString(n) + rest) == Some(n)
  {
    var d := NatToString(n);
    var t := d + rest;
    var s := "coverage" + t;
    assert "coverage" + d + rest == s;
    assert s[8..] == t;
    assert CoverageAt(s, 0) by {
      assert s[..8] == "coverage";
      assert s[8] == t[0] == d[0];
    }
    DigitRunOf(d, rest);
    assert t[..|d|] == d;
    NatToStringValue(n);
  }

  /** The digit run of `d + rest` is `d` when `rest` does not start with a digit. */
  lemma {:induction false} DigitRunOf(d: string, rest: string)
    requires AllDigits(d)
    requires rest == [] || !IsDigit(rest[0])
    ensures DigitRun(d + rest) == |d|
  {
    if d != [] {
      assert (d + rest)[1..] == d[1..] + rest;
      DigitRunOf(d[1..], rest);
    } else {
      assert d + rest == rest;
    }
  }

  // ------------------------------------------------------------ expected copies

  type PosNat = n: nat | n > 0 witness 1

  /** `unit_coverage`, the float given on the command line, as the exact
      ratio `num / den`. */
  datatype UnitCoverage = UnitCoverage(num: int, den: PosNat)

  /** Python's `round(a / b)`: the nearest integer, ties to the even one. */
  function RoundHalfEven(a: int, b: PosNat): int {
    var q := a / b;
    var r := a % b;
    if 2 * r < b then q
    else if 2 * r > b then q + 1
    else if q % 2 == 0 then q
    else q + 1
  }

  /** The rounded value is within half of `a / b`, and even on a tie. */
  lemma RoundHalfEvenSpec(a: int, b: PosNat)
    ensures var n := RoundHalfEven(a, b);
      && -(b as int) <= 2 * (a - n * b) <= b
      && (2 * (a - n * b) == b || 2 * (a - n * b) == -(b as int) ==> n % 2 == 0)
  {
  }

  /** `round(observed_copies / unit_coverage)`; a zero unit coverage raises
      ZeroDivisionError. */
  function Expected(observed: nat, unit: UnitCoverage): Outcome<int> {
    if unit.num == 0 then Crash("ZeroDivisionError")
    else if unit.num > 0 then Ok(RoundHalfEven(observed * unit.den, unit.num))
    else Ok(RoundHalfEven(-(observed * unit.den), -unit.num))
  }

  /** The expected count is the integer nearest to `observed / unit`. */
  lemma ExpectedNearest(observed: nat, unit: UnitCoverage)
    requires unit.num != 0
    ensures var e := Expected(observed, unit).value;
      var n := if unit.num > 0 then unit.num else -unit.num;
      -n <= 2 * (observed * unit.den - e * unit.num) * (if unit.num > 0 then 1 else -1) <= n
  {
    if unit.num > 0 {
      RoundHalfEvenSpec(observed * unit.den, unit.num);
    } else {
      RoundHalfEvenSpec(-(observed * unit.den), -unit.num);
    }
  }

  // --------------------------------------------------------------- parse_fasta

  /** What one record contributes to `morphs`. */
  function MorphOf(rec: Record, unit: UnitCoverage): Outcome<Option<Morph>> {
    match Coverage(rec.description)
    case None => Ok(None)
    case Some(observed) =>
      match Expected(observed, unit)
      case Crash(e) => Crash(e)
      case Ok(expected) => Ok(Some(Morph(rec.id, rec.bases, expected, observed)))
  }

  /** The `morphs` list after the given records. */
  function Morphs(records: seq<Record>, unit: UnitCoverage): Outcome<seq<Morph>> {
    if records == [] then Ok([])
    else
      match Morphs(records[..|records| - 1], unit)
      case Crash(e) => Crash(e)
      case Ok(ms) =>
        match MorphOf(records[|records| - 1], unit)
        case Crash(e) => Crash(e)
        case Ok(None) => Ok(ms)
        case Ok(Some(m)) => Ok(ms + [m])
  }

  /** `total_expected_copies`: the sum of the morphs' expected copies. */
  function TotalExpected(morphs: seq<Morph>): int {
    if morphs == [] then 0 else TotalExpected(morphs[..|morphs| - 1]) + morphs[|morphs| - 1].expected
  }

  /** Morph `m` is what record `rec` gives. */
  predicate MadeFrom(m: Morph, rec: Record, unit: UnitCoverage) {
    && m.id == rec.id && m.bases == rec.bases
    && Coverage(rec.description) == Some(m.observed)
    && Expected(m.observed, unit) == Ok(m.expected)
  }

  /** Records with a coverage tag among `records`. */
  function Tagged(records: seq<Record>): nat {
    if records == [] then 0
    else Tagged(records[..|records| - 1]) + (if Coverage(records[|records| - 1].description).Some? then 1 else 0)
  }

  /** A zero unit coverage raises exactly when some record has a coverage
      tag; otherwise there is one morph per tagged record, in record order,
      each made from its record. */
  lemma {:induction false} MorphsSpec(records: seq<Record>, unit: UnitCoverage)
    ensures Morphs(records, unit).Crash? <==> unit.num == 0 && Tagged(records) > 0
    ensures Morphs(records, unit).Ok? ==> |Morphs(records, unit).value| == Tagged(records)
    ensures Morphs(records, unit).Ok? ==> forall k | 0 <= k < |Morphs(records, unit).value| ::
      exists i | 0 <= i < |records| :: MadeFrom(Morphs(records, unit).value[k], records[i], unit)
  {
    if records != [] {
      var front := records[..|records| - 1];
      var rec := records[|records| - 1];
      MorphsSpec(front, unit);
      if Morphs(records, unit).Ok? {
        var ms := Morphs(front, unit).value;
        var out := Morphs(records, unit).value;
        forall k | 0 <= k < |out|
          ensures exists i | 0 <= i < |records| :: MadeFrom(out[k], records[i], unit)
        {
          if k < |ms| {
            var i :| 0 <= i < |front| && MadeFrom(ms[k], front[i], unit);
            assert records[i] == front[i];
          } else {
            assert MadeFrom(out[k], records[|records| - 1], unit);
          }
        }
      }
    }
  }

  /** Every tagged record gives a morph. */
  lemma {:induction false} MorphsCover(records: seq<Record>, unit: UnitCoverage)
    requires Morphs(records, unit).Ok?
    ensures forall i | 0 <= i < |records| && Coverage(records[i].description).Some? ::
      exists m | m in Morphs(records, unit).value :: MadeFrom(m, records[i], unit)
  {
    if records != [] {
      var front := records[..|records| - 1];
      MorphsCover(front, unit);
      var ms := Morphs(front, unit).value;
      var out := Morphs(records, unit).value;
      forall i | 0 <= i < |records| && Coverage(records[i].description).Some?
        ensures exists m | m in out :: MadeFrom(m, records[i], unit)
      {
        if i < |front| {
          assert records[i] == front[i];
          var m :| m in ms && MadeFrom(m, front[i], unit);
          assert m in out;
        } else {
          var m := MorphOf(records[i], unit).value.value;
          assert MadeFrom(m, records[i], unit) && m in out;
        }
      }
    }
  }

  /** `parse_fasta(fasta_file, unit_coverage)` on the parsed records. */
  method ParseFasta(records: seq<Record>, unit: UnitCoverage) returns (r: Outcome<(seq<Morph>, int)>)
    ensures r.Crash? <==> Morphs(records, unit).Crash?
    ensures r.Ok? ==> r.value.0 == Morphs(records, unit).value
    ensures r.Ok? ==> r.value.1 == TotalExpected(r.value.0)
  {
    var morphs: seq<Morph> := [];
    var total := 0;
    for i := 0 to |records|
      invariant Morphs(records[..i], unit) == Ok(morphs)
      invariant total == TotalExpected(morphs)
    {
      assert records[..i + 1][..i] == records[..i];
      var m := MorphOf(records[i], unit);
      if m.Crash? {
        MorphsCrashStays(records, unit, i + 1);
        return Crash(m.reason);
      }
      if m.value.Some? {
        assert (morphs + [m.value.value])[..|morphs|] == morphs;
        morphs := morphs + [m.value.value];
        total := total + m.value.value.expected;
      }
    }
    assert records[..|records|] == records;
    return Ok((morphs, total));
  }

  /** Once a prefix raises, so does every longer one. */
  lemma {:induction false} MorphsCrashStays(records: seq<Record>, unit: UnitCoverage, i: nat)
    requires i <= |records| && Morphs(records[..i], unit).Crash?
    ensures Morphs(records, unit).Crash?
    decreases |records| - i
  {
    if i < |records| {
      assert records[..i + 1][..i] == records[..i];
      MorphsCrashStays(records, unit, i + 1);
    } else {
      assert records[..i] == records;
    }
  }

  // ------------------------------------------------------ the weighted list

  /** A `(morph_id, sequence)` entry of `weighted_morphs`. */
  type Copy = (string, string)

  /** `range(count)` is empty for a count below one. */
  function Times(count: int): nat {
    if count > 0 then count else 0
  }

  function Repeat(c: Copy, n: nat): (s: seq<Copy>)
    ensures |s| == n && forall i | 0 <= i < n :: s[i] == c
  {
    seq(n, _ => c)
  }

  /** `weighted_morphs` before the shuffle: each morph, in order, as many times
      as its expected copies. */
  function Copies(morphs: seq<Morph>): seq<Copy> {
    if morphs == [] then []
    else
      var m := morphs[|morphs| - 1];
      Copies(morphs[..|morphs| - 1]) + Repeat((m.id, m.bases), Times(m.expected))
  }

  /** The nested loops filling `weighted_morphs`. */
  method WeightedMorphs(morphs: seq<Morph>) returns (w: seq<Copy>)
    ensures w == Copies(morphs)
  {
    w := [];
    for i := 0 to |morphs|
      invariant w == Copies(morphs[..i])
    {
      assert morphs[..i + 1][..i] == morphs[..i];
      var c := (morphs[i].id, morphs[i].bases);
      ghost var before := w;
      for j := 0 to Times(morphs[i].expected)
        invariant w == before + Repeat(c, j)
      {
        assert Repeat(c, j + 1) == Repeat(c, j) + [c];
        w := w + [c];
      }
    }
    assert morphs[..|morphs|] == morphs;
  }

  // ------------------------------------------------------ sums over copies

  /** The sum of `f` over a list of copies. */
  function SumOf(f: Copy -> int, s: seq<Copy>): int {
    if s == [] then 0 else SumOf(f, s[..|s| - 1]) + f(s[|s| - 1])
  }

  lemma {:induction false} SumOfAppend(f: Copy -> int, a: seq<Copy>, b: seq<Copy>)
    ensures SumOf(f, a + b) == SumOf(f, a) + SumOf(f, b)
    decreases |b|
  {
    if b == [] {
      assert a + b == a;
    } else {
      assert (a + b)[..|a + b| - 1] == a + b[..|b| - 1];
      SumOfAppend(f, a, b[..|b| - 1]);
    }
  }

  lemma {:induction false} SumOfRepeat(f: Copy -> int, c: Copy, n: nat)
    ensures SumOf(f, Repeat(c, n)) == n * f(c)
  {
    if n > 0 {
      assert Repeat(c, n)[..n - 1] == Repeat(c, n - 1);
      SumOfRepeat(f, c, n - 1);
    }
  }

  /** A sum over a list does not depend on the order of its items. */
  lemma {:induction false} SumOfPerm(f: Copy -> int, a: seq<Copy>, b: seq<Copy>)
    requires multiset(a) == multiset(b)
    ensures SumOf(f, a) == SumOf(f, b)
    decreases |a|
  {
    if a == [] {
      assert |b| == |multiset(b)| == 0;
    } else {
      var x := a[|a| - 1];
      var a' := a[..|a| - 1];
      assert a == a' + [x];
      assert x in multiset(b);
      var k :| 0 <= k < |b| && b[k] == x;
      var b' := b[..k] + b[k + 1..];
      assert b == b[..k] + [x] + b[k + 1..];
      assert multiset(b') == multiset(b) - multiset{x};
      SumOfPerm(f, a', b');
      SumOfAppend(f, b[..k] + [x], b[k + 1..]);
      SumOfAppend(f, b[..k], [x]);
      SumOfAppend(f, b[..k], b[k + 1..]);
      assert SumOf(f, [x]) == f(x) by {
        assert [x][..0] == [];
      }
    }
  }

  /** The sum of `f` over the copies of the morphs: each morph counts
      `Times(expected)` times. */
  function Weighed(f: Copy -> int, morphs: seq<Morph>): int {
    if morphs == [] then 0
    else
      var m := morphs[|morphs| - 1];
      Weighed(f, morphs[..|morphs| - 1]) + Times(m.expected) * f((m.id, m.bases))
  }

  lemma {:induction false} CopiesSum(f: Copy -> int, morphs: seq<Morph>)
    ensures SumOf(f, Copies(morphs)) == Weighed(f, morphs)
  {
    if morphs != [] {
      var m := morphs[|morphs| - 1];
      CopiesSum(f, morphs[..|morphs| - 1]);
      SumOfAppend(f, Copies(morphs[..|morphs| - 1]), Repeat((m.id, m.bases), Times(m.expected)));
      SumOfRepeat(f, (m.id, m.bases), Times(m.expected));
    }
  }

  /** 1 for copies of `c`. */
  function IsCopy(c: Copy): Copy -> int {
    (x: Copy) => if x == c then 1 else 0
  }

  /** 1 for copies whose morph id is `id`. */
  function HasId(id: string): Copy -> int {
    (x: Copy) => if x.0 == id then 1 else 0
  }

  function SeqLength(x: Copy): int {
    |x.1|
  }

  lemma {:induction false} SumIsCount(s: seq<Copy>, c: Copy)
    ensures SumOf(IsCopy(c), s) == multiset(s)[c]
  {
    if s != [] {
      SumIsCount(s[..|s| - 1], c);
      assert s == s[..|s| - 1] + [s[|s| - 1]];
    }
  }

  /** Before the shuffle, the weighted list holds each `(id, sequence)` pair
      as many times as the morphs with that pair have expected copies. */
  lemma WeightedCount(morphs: seq<Morph>, c: Copy)
    ensures multiset(Copies(morphs))[c] == Weighed(IsCopy(c), morphs)
  {
    SumIsCount(Copies(morphs), c);
    CopiesSum(IsCopy(c), morphs);
  }

  // -------------------------------------------- generate_random_morph_sequence

  /** `random.shuffle`, seeded: which order it produces is not modelled. */
  type Shuffle = seq<Copy> -> seq<Copy>

  /** A shuffle only reorders. */
  ghost predicate Reorders(shuffle: Shuffle) {
    forall s :: multiset(shuffle(s)) == multiset(s)
  }

  /** The morph ids: the keys of `actual_counts`. */
  function Ids(morphs: seq<Morph>): set<string> {
    set m | m in morphs :: m.id
  }

  /** The sequences joined in order. */
  function Concat(s: seq<Copy>): string {
    if s == [] then "" else Concat(s[..|s| - 1]) + s[|s| - 1].1
  }

  lemma {:induction false} ConcatLength(s: seq<Copy>)
    ensures |Concat(s)| == SumOf(SeqLength, s)
  {
    if s != [] {
      ConcatLength(s[..|s| - 1]);
    }
  }

  /** `actual_counts` after counting the copies `s`. */
  function Counted(ids: set<string>, s: seq<Copy>): map<string, int> {
    map id | id in ids :: SumOf(HasId(id), s)
  }

  /** One pass of the counting loop: the copy's id is a morph id, its count
      goes up by one and its sequence is appended. */
  lemma CountStep(morphs: seq<Morph>, shuffled: seq<Copy>, i: nat)
    requires multiset(shuffled) == multiset(Copies(morphs)) && i < |shuffled|
    ensures var ids := Ids(morphs);
      var c := shuffled[i];
      && c.0 in ids
      && Counted(ids, shuffled[..i + 1]) == Counted(ids, shuffled[..i])[c.0 := Counted(ids, shuffled[..i])[c.0] + 1]
      && Concat(shuffled[..i + 1]) == Concat(shuffled[..i]) + c.1
  {
    var c := shuffled[i];
    assert c in multiset(shuffled);
    CopiesIds(morphs, c);
    assert shuffled[..i + 1][..i] == shuffled[..i];
  }

  lemma CopiesIds(morphs: seq<Morph>, c: Copy)
    requires c in Copies(morphs)
    ensures c.0 in Ids(morphs)
  {
    if morphs != [] {
      var m := morphs[|morphs| - 1];
      if c in Copies(morphs[..|morphs| - 1]) {
        CopiesIds(morphs[..|morphs| - 1], c);
      } else {
        assert c == (m.id, m.bases);
        assert m in morphs;
      }
    }
  }

  /** `generate_random_morph_sequence(morphs, total_expected_copies)`: the
      mixed sequence is the shuffled copies joined, so its length is the sum
      of copy number times sequence length; every morph id is counted, as
      many times as the morphs with that id have expected copies; the total
      is handed back unchanged. */
  method GenerateRandomMorphSequence(morphs: seq<Morph>, total: int, shuffle: Shuffle)
    returns (mixed: string, actual: map<string, int>, totalOut: int)
    requires Reorders(shuffle)
    ensures mixed == Concat(shuffle(Copies(morphs)))
    ensures |mixed| == Weighed(SeqLength, morphs)
    ensures actual.Keys == Ids(morphs)
    ensures forall id | id in actual :: actual[id] == Weighed(HasId(id), morphs)
    ensures totalOut == total
  {
    var weighted := WeightedMorphs(morphs);
    var shuffled := shuffle(weighted);
    assert multiset(shuffled) == multiset(Copies(morphs));
    actual := map id | id in Ids(morphs) :: 0;
    mixed := "";
    for i := 0 to |shuffled|
      invariant mixed == Concat(shuffled[..i])
      invariant actual == Counted(Ids(morphs), shuffled[..i])
    {
      CountStep(morphs, shuffled, i);
      mixed := mixed + shuffled[i].1;
      actual := actual[shuffled[i].0 := actual[shuffled[i].0] + 1];
    }
    assert shuffled[..|shuffled|] == shuffled;
    ShuffledSums(morphs, shuffled);
    totalOut := total;
  }

  /** Any order of the copies has the length and the per-id counts of the
      copies themselves. */
  lemma ShuffledSums(morphs: seq<Morph>, shuffled: seq<Copy>)
    requires multiset(shuffled) == multiset(Copies(morphs))
    ensures |Concat(shuffled)| == Weighed(SeqLength, morphs)
    ensures forall id :: SumOf(HasId(id), shuffled) == Weighed(HasId(id), morphs)
  {
    ConcatLength(shuffled);
    SumOfPerm(SeqLength, shuffled, Copies(morphs));
    CopiesSum(SeqLength, morphs);
    forall id
      ensures SumOf(HasId(id), shuffled) == Weighed(HasId(id), morphs)
    {
      SumOfPerm(HasId(id), shuffled, Copies(morphs));
      CopiesSum(HasId(id), morphs);
    }
  }

  /** The number of copies of morphs with id `id`: their expected copies, a
      count below one adding nothing. */
  function ExpectedFor(morphs: seq<Morph>, id: string): int {
    if morphs == [] then 0
    else
      var m := morphs[|morphs| - 1];
      ExpectedFor(morphs[..|morphs| - 1], id) + (if m.id == id then Times(m.expected) else 0)
  }

  /** Counting copies by id is summing the copy numbers of that id's morphs. */
  lemma {:induction false} WeighedHasId(morphs: seq<Morph>, id: string)
    ensures Weighed(HasId(id), morphs) == ExpectedFor(morphs, id)
  {
    if morphs != [] {
      WeighedHasId(morphs[..|morphs| - 1], id);
    }
  }

  /** When no morph has a negative copy number, the total is the number of
      copies, so the counts add up to it. */
  lemma {:induction false} TotalIsCopies(morphs: seq<Morph>)
    requires forall m | m in morphs :: m.expected >= 0
    ensures |Copies(morphs)| == TotalExpected(morphs)
  {
    if morphs != [] {
      var front := morphs[..|morphs| - 1];
      assert forall m | m in front :: m in morphs;
      TotalIsCopies(front);
    }
  }
}
