/** The centromere detector: parse repeat blocks from a GFF, pick per
    chromosome the marker-tagged block with the lowest mean methylation, and
    report the samples inside it that dip below 70% of that mean as candidate
    kinetochore binding sites.

    The BigWig extraction (an external `bigWigToBedGraph` run per region) is
    the parameter `signal`: for `(chrom, start, end)` it yields the region's
    bedGraph samples, as (start position, value) pairs. */
module CentromereDetector {
  import opened Common
  import opened Strings

  /** The repeat family whose blocks are centromere candidates. */
  const Marker: string := "Tgut716A"

  /** A site is a sample below this fraction of the block's mean. */
  const DipRatio: real := 0.7

  /** A parsed GFF line: `(chrom, start, end, attributes)`, with the fifth
      element "centromere_candidate" modelled as `candidate`. */
  datatype Block = Block(chrom: string, start: int, end: int, attributes: string, candidate: bool)

  /** One bedGraph line of an extracted region: column 2 and column 4. */
  datatype Sample = Sample(position: int, value: real)

  /** `(chrom, start, end, attributes, avg_methylation)` of a selected block. */
  datatype Centromere = Centromere(chrom: string, start: int, end: int, attributes: string, mean: real)

  /** The extracted samples of `chrom:start-end`. */
  type Signal = (string, int, int) -> seq<Sample>

  // ---------------------------------------------------------------- parsing

  /** What one GFF line contributes. */
  datatype LineParse = Skipped | Parsed(block: Block) | BadCoordinate

  /** The untagged `(chrom, start, end, attributes)` of a line: comment lines
      and lines with fewer than 9 tab fields are skipped; `int()` of column 4
      or 5 may fail, which aborts the run. */
  function BlockFields(line: string): LineParse {
    if StartsWith(line, "#") then Skipped
    else
      var parts := Split(Strip(line), "\t");
      if |parts| < 9 then Skipped
      else
        var start := PyInt(parts[3]);
        var end := PyInt(parts[4]);
        if start.None? || end.None? then BadCoordinate
        else Parsed(Block(parts[0], start.value, end.value, parts[8], false))
  }

  /** A line's block, tagged as a candidate when its attributes contain the marker. */
  function ParseLine(line: string): LineParse {
    match BlockFields(line)
    case Parsed(b) => Parsed(b.(candidate := Contains(b.attributes, Marker)))
    case other => other
  }

  /** The blocks of the parsed lines, in line order. */
  function KeptBlocks(lines: seq<string>): seq<Block> {
    if lines == [] then []
    else
      var kept := KeptBlocks(lines[..|lines| - 1]);
      match ParseLine(lines[|lines| - 1])
      case Parsed(b) => kept + [b]
      case _ => kept
  }

  /** No line among the first `n` has a coordinate `int()` rejects. */
  predicate ParsesUpTo(lines: seq<string>, n: nat)
    requires n <= |lines|
  {
    forall j | 0 <= j < n :: !ParseLine(lines[j]).BadCoordinate?
  }

  predicate Parses(lines: seq<string>) {
    ParsesUpTo(lines, |lines|)
  }

  lemma KeptBlocksStep(lines: seq<string>, i: nat)
    requires i < |lines|
    ensures KeptBlocks(lines[..i + 1]) ==
            KeptBlocks(lines[..i]) + (if ParseLine(lines[i]).Parsed? then [ParseLine(lines[i]).block] else [])
  {
    assert lines[..i + 1][..i] == lines[..i];
  }

  /** `parse_gff`: appends each block untagged and overwrites the last entry
      with the tagged form when the attributes mention the marker. */
  method ParseGff(lines: seq<string>) returns (r: Outcome<seq<Block>>)
    ensures r.Ok? <==> Parses(lines)
    ensures r.Ok? ==> r.value == KeptBlocks(lines)
  {
    var blocks: seq<Block> := [];
    for i := 0 to |lines|
      invariant ParsesUpTo(lines, i)
      invariant blocks == KeptBlocks(lines[..i])
    {
      KeptBlocksStep(lines, i);
      match BlockFields(lines[i])
      case BadCoordinate =>
        return Crash("ValueError: invalid literal for int()");
      case Skipped =>
      case Parsed(b) =>
        blocks := blocks + [b];
        if Contains(b.attributes, Marker) {
          blocks := blocks[..|blocks| - 1] + [blocks[|blocks| - 1].(candidate := true)];
        }
    }
    assert lines[..|lines|] == lines;
    return Ok(blocks);
  }

  /** Every parsed block is tagged exactly when its attributes contain the
      marker, and there are never more blocks than lines. */
  lemma {:induction false} KeptBlocksTagged(lines: seq<string>)
    ensures |KeptBlocks(lines)| <= |lines|
    ensures forall b | b in KeptBlocks(lines) :: b.candidate <==> Contains(b.attributes, Marker)
  {
    if lines != [] {
      KeptBlocksTagged(lines[..|lines| - 1]);
    }
  }

  /** Parsing is line by line: the blocks of two chunks of a file are the
      blocks of the first chunk followed by those of the second. */
  lemma {:induction false} KeptBlocksAppend(xs: seq<string>, ys: seq<string>)
    ensures KeptBlocks(xs + ys) == KeptBlocks(xs) + KeptBlocks(ys)
    decreases |ys|
  {
    if ys == [] {
      assert xs + ys == xs;
    } else {
      var ys' := ys[..|ys| - 1];
      assert (xs + ys)[..|xs + ys| - 1] == xs + ys';
      KeptBlocksAppend(xs, ys');
    }
  }

  /** A `#` line, or a line with fewer than 9 fields, contributes nothing. */
  lemma SkippedLines(line: string)
    requires StartsWith(line, "#") || |Split(Strip(line), "\t")| < 9
    ensures KeptBlocks([line]) == []
  {
    assert [line][..0] == [];
  }

  // ------------------------------------------------------------- averaging

  function SumValues(samples: seq<Sample>): real {
    if samples == [] then 0.0 else SumValues(samples[..|samples| - 1]) + samples[|samples| - 1].value
  }

  /** `np.mean` of the fourth column; undefined for an empty region. */
  function Mean(samples: seq<Sample>): real
    requires |samples| > 0
  {
    SumValues(samples) / |samples| as real
  }

  /** `calculate_average_methylation`: collects the values and averages them. */
  method AverageSignal(samples: seq<Sample>) returns (avg: real)
    requires |samples| > 0
    ensures avg == Mean(samples)
  {
    var total := 0.0;
    for i := 0 to |samples|
      invariant total == SumValues(samples[..i])
    {
      assert samples[..i + 1][..i] == samples[..i];
      total := total + samples[i].value;
    }
    assert samples[..|samples|] == samples;
    avg := total / |samples| as real;
  }

  lemma {:induction false} SumBounds(samples: seq<Sample>, lo: real, hi: real)
    requires forall i | 0 <= i < |samples| :: lo <= samples[i].value <= hi
    ensures lo * |samples| as real <= SumValues(samples) <= hi * |samples| as real
  {
    if samples != [] {
      SumBounds(samples[..|samples| - 1], lo, hi);
    }
  }

  /** The mean lies between the least and the greatest sample value. */
  lemma MeanBetween(samples: seq<Sample>, lo: real, hi: real)
    requires |samples| > 0
    requires forall i | 0 <= i < |samples| :: lo <= samples[i].value <= hi
    ensures lo <= Mean(samples) <= hi
  {
    SumBounds(samples, lo, hi);
    var n := |samples| as real;
    assert lo * n / n <= SumValues(samples) / n <= hi * n / n;
  }

  // ------------------------------------------------------------- selection

  /** Passes the length filter and carries the candidate tag. */
  predicate Eligible(b: Block, minLength: int) {
    b.end - b.start >= minLength && b.candidate
  }

  function Region(b: Block, signal: Signal): seq<Sample> {
    signal(b.chrom, b.start, b.end)
  }

  /** Every eligible block's region yields samples (an empty one would make
      `np.mean` return NaN). */
  ghost predicate Measurable(blocks: seq<Block>, minLength: int, signal: Signal) {
    forall i | 0 <= i < |blocks| && Eligible(blocks[i], minLength) :: |Region(blocks[i], signal)| > 0
  }

  function BlockMean(b: Block, signal: Signal): real
    requires |Region(b, signal)| > 0
  {
    Mean(Region(b, signal))
  }

  /** Block `k` is eligible, its mean is at most that of every eligible block
      on its chromosome among the first `n`, and strictly below that of every
      eligible block on its chromosome before it. */
  ghost predicate FirstLowest(blocks: seq<Block>, n: nat, k: nat, minLength: int, signal: Signal)
    requires n <= |blocks| && Measurable(blocks, minLength, signal)
  {
    && k < n
    && Eligible(blocks[k], minLength)
    && (forall j | 0 <= j < n && Eligible(blocks[j], minLength) && blocks[j].chrom == blocks[k].chrom ::
          BlockMean(blocks[k], signal) <= BlockMean(blocks[j], signal))
    && (forall j | 0 <= j < k && Eligible(blocks[j], minLength) && blocks[j].chrom == blocks[k].chrom ::
          BlockMean(blocks[j], signal) > BlockMean(blocks[k], signal))
  }

  /** The chromosomes of the eligible blocks, in block order. */
  function EligibleChroms(blocks: seq<Block>, minLength: int): seq<string> {
    if blocks == [] then []
    else
      var cs := EligibleChroms(blocks[..|blocks| - 1], minLength);
      var b := blocks[|blocks| - 1];
      if Eligible(b, minLength) then cs + [b.chrom] else cs
  }

  lemma {:induction false} EligibleChromsMember(blocks: seq<Block>, minLength: int, c: string)
    ensures c in EligibleChroms(blocks, minLength) <==>
            exists j | 0 <= j < |blocks| :: Eligible(blocks[j], minLength) && blocks[j].chrom == c
  {
    if blocks != [] {
      var init := blocks[..|blocks| - 1];
      EligibleChromsMember(init, minLength, c);
      assert forall j | 0 <= j < |init| :: init[j] == blocks[j];
    }
  }

  function Chroms(picks: seq<Centromere>): (cs: seq<string>)
    ensures |cs| == |picks| && forall i | 0 <= i < |picks| :: cs[i] == picks[i].chrom
  {
    seq(|picks|, i requires 0 <= i < |picks| => picks[i].chrom)
  }

  function Pick(b: Block, avg: real): Centromere {
    Centromere(b.chrom, b.start, b.end, b.attributes, avg)
  }

  /** Extending the scan by block `i` keeps `k` the first lowest when block
      `i` is not an eligible block of `k`'s chromosome, or is one whose mean
      is not below `k`'s. */
  lemma FirstLowestKeep(blocks: seq<Block>, i: nat, k: nat, minLength: int, signal: Signal)
    requires i < |blocks| && Measurable(blocks, minLength, signal)
    requires FirstLowest(blocks, i, k, minLength, signal)
    requires Eligible(blocks[i], minLength) && blocks[i].chrom == blocks[k].chrom ==>
             BlockMean(blocks[k], signal) <= BlockMean(blocks[i], signal)
    ensures FirstLowest(blocks, i + 1, k, minLength, signal)
  {
  }

  /** An eligible block `i` whose mean is strictly below the current pick
      `k` of its chromosome becomes the first lowest. */
  lemma FirstLowestReplace(blocks: seq<Block>, i: nat, k: nat, minLength: int, signal: Signal)
    requires i < |blocks| && Measurable(blocks, minLength, signal)
    requires FirstLowest(blocks, i, k, minLength, signal)
    requires Eligible(blocks[i], minLength) && blocks[i].chrom == blocks[k].chrom
    requires BlockMean(blocks[i], signal) < BlockMean(blocks[k], signal)
    ensures FirstLowest(blocks, i + 1, i, minLength, signal)
  {
  }

  /** The first eligible block of a chromosome is its first lowest so far. */
  lemma FirstLowestFirst(blocks: seq<Block>, i: nat, minLength: int, signal: Signal)
    requires i < |blocks| && Measurable(blocks, minLength, signal)
    requires Eligible(blocks[i], minLength)
    requires blocks[i].chrom !in EligibleChroms(blocks[..i], minLength)
    ensures FirstLowest(blocks, i + 1, i, minLength, signal)
  {
    EligibleChromsMember(blocks[..i], minLength, blocks[i].chrom);
    forall j | 0 <= j < i && Eligible(blocks[j], minLength)
      ensures blocks[j].chrom != blocks[i].chrom
    {
      assert blocks[..i][j] == blocks[j];
    }
  }

  /** Each chromosome recorded in `at` maps to its first lowest block among
      the first `n`. */
  ghost predicate Lowest(at: map<string, nat>, blocks: seq<Block>, n: nat, minLength: int, signal: Signal)
    requires n <= |blocks| && Measurable(blocks, minLength, signal)
  {
    forall c | c in at :: at[c] < n && blocks[at[c]].chrom == c && FirstLowest(blocks, n, at[c], minLength, signal)
  }

  /** The dict holds, for each chromosome in `at`, the pick of block `at[c]`. */
  ghost predicate Holds(best: ODict<string, Centromere>, at: map<string, nat>,
                        blocks: seq<Block>, minLength: int, signal: Signal)
    requires Measurable(blocks, minLength, signal)
  {
    && at.Keys == best.entries.Keys
    && (forall c | c in at :: at[c] < |blocks| && Eligible(blocks[at[c]], minLength)
          && best.entries[c] == Pick(blocks[at[c]], BlockMean(blocks[at[c]], signal)))
  }

  /** The loop state of `find_centromere` after the first `n` blocks. */
  ghost predicate Tracks(best: ODict<string, Centromere>, at: map<string, nat>,
                         blocks: seq<Block>, n: nat, minLength: int, signal: Signal)
    requires n <= |blocks| && Measurable(blocks, minLength, signal)
  {
    && best.Valid()
    && best.keys == Dedup(EligibleChroms(blocks[..n], minLength))
    && Holds(best, at, blocks, minLength, signal)
    && Lowest(at, blocks, n, minLength, signal)
  }

  lemma TracksSkip(best: ODict<string, Centromere>, at: map<string, nat>,
                   blocks: seq<Block>, i: nat, minLength: int, signal: Signal)
    requires i < |blocks| && Measurable(blocks, minLength, signal)
    requires Tracks(best, at, blocks, i, minLength, signal)
    requires !Eligible(blocks[i], minLength)
    ensures Tracks(best, at, blocks, i + 1, minLength, signal)
  {
    assert blocks[..i + 1][..i] == blocks[..i];
    forall c | c in at
      ensures FirstLowest(blocks, i + 1, at[c], minLength, signal)
    {
      FirstLowestKeep(blocks, i, at[c], minLength, signal);
    }
  }

  /** Block `i` is eligible: every other chromosome's pick stays first lowest. */
  lemma OthersKeep(at: map<string, nat>, blocks: seq<Block>, i: nat, minLength: int, signal: Signal)
    requires i < |blocks| && Measurable(blocks, minLength, signal)
    requires Lowest(at, blocks, i, minLength, signal)
    ensures forall c | c in at && c != blocks[i].chrom :: FirstLowest(blocks, i + 1, at[c], minLength, signal)
  {
    forall c | c in at && c != blocks[i].chrom
      ensures FirstLowest(blocks, i + 1, at[c], minLength, signal)
    {
      FirstLowestKeep(blocks, i, at[c], minLength, signal);
    }
  }

  lemma EligibleChromsStep(blocks: seq<Block>, i: nat, minLength: int)
    requires i < |blocks| && Eligible(blocks[i], minLength)
    ensures EligibleChroms(blocks[..i + 1], minLength) == EligibleChroms(blocks[..i], minLength) + [blocks[i].chrom]
  {
    assert blocks[..i + 1][..i] == blocks[..i];
  }

  lemma HoldsSet(best: ODict<string, Centromere>, at: map<string, nat>,
                 blocks: seq<Block>, i: nat, minLength: int, signal: Signal)
    requires i < |blocks| && Measurable(blocks, minLength, signal)
    requires best.Valid() && Holds(best, at, blocks, minLength, signal)
    requires Eligible(blocks[i], minLength)
    ensures Holds(best.Put(blocks[i].chrom, Pick(blocks[i], BlockMean(blocks[i], signal))),
                  at[blocks[i].chrom := i], blocks, minLength, signal)
  {
    var c := blocks[i].chrom;
    var best' := best.Put(c, Pick(blocks[i], BlockMean(blocks[i], signal)));
    var at' := at[c := i];
    forall c' | c' in at'
      ensures at'[c'] < |blocks| && Eligible(blocks[at'[c']], minLength)
      ensures best'.entries[c'] == Pick(blocks[at'[c']], BlockMean(blocks[at'[c']], signal))
    {
      if c' != c {
        assert at'[c'] == at[c'] && best'.entries[c'] == best.entries[c'];
      }
    }
  }

  lemma LowestSet(at: map<string, nat>, blocks: seq<Block>, i: nat, minLength: int, signal: Signal)
    requires i < |blocks| && Measurable(blocks, minLength, signal)
    requires Lowest(at, blocks, i, minLength, signal)
    requires FirstLowest(blocks, i + 1, i, minLength, signal)
    ensures Lowest(at[blocks[i].chrom := i], blocks, i + 1, minLength, signal)
  {
    OthersKeep(at, blocks, i, minLength, signal);
  }

  /** Setting chromosome `c`'s entry to block `i`'s pick, with `i` its first
      lowest among the first `i + 1` blocks. */
  lemma TracksSet(best: ODict<string, Centromere>, at: map<string, nat>,
                  blocks: seq<Block>, i: nat, minLength: int, signal: Signal)
    requires i < |blocks| && Measurable(blocks, minLength, signal)
    requires Tracks(best, at, blocks, i, minLength, signal)
    requires Eligible(blocks[i], minLength)
    requires FirstLowest(blocks, i + 1, i, minLength, signal)
    ensures Tracks(best.Put(blocks[i].chrom, Pick(blocks[i], BlockMean(blocks[i], signal))),
                   at[blocks[i].chrom := i], blocks, i + 1, minLength, signal)
  {
    var c := blocks[i].chrom;
    var cs := EligibleChroms(blocks[..i], minLength);
    EligibleChromsStep(blocks, i, minLength);
    DedupSnoc(cs, c);
    assert c in cs <==> c in best.keys;
    HoldsSet(best, at, blocks, i, minLength, signal);
    LowestSet(at, blocks, i, minLength, signal);
  }

  /** A mean that is not lower leaves the dict as it is. */
  lemma TracksKeep(best: ODict<string, Centromere>, at: map<string, nat>,
                   blocks: seq<Block>, i: nat, minLength: int, signal: Signal)
    requires i < |blocks| && Measurable(blocks, minLength, signal)
    requires Tracks(best, at, blocks, i, minLength, signal)
    requires Eligible(blocks[i], minLength) && blocks[i].chrom in best.entries
    requires best.entries[blocks[i].chrom].mean <= BlockMean(blocks[i], signal)
    ensures Tracks(best, at, blocks, i + 1, minLength, signal)
  {
    var c := blocks[i].chrom;
    var cs := EligibleChroms(blocks[..i], minLength);
    EligibleChromsStep(blocks, i, minLength);
    DedupSnoc(cs, c);
    assert c in cs;
    FirstLowestKeep(blocks, i, at[c], minLength, signal);
    OthersKeep(at, blocks, i, minLength, signal);
    assert Lowest(at, blocks, i + 1, minLength, signal);
  }

  /** `find_centromere`: a running argmin per chromosome over the eligible
      blocks, kept in a dict; chromosomes come out in dict insertion order. */
  method FindCentromere(blocks: seq<Block>, signal: Signal, minLength: int) returns (picks: seq<Centromere>)
    requires Measurable(blocks, minLength, signal)
    ensures Chroms(picks) == Dedup(EligibleChroms(blocks, minLength))
    ensures forall i, j | 0 <= i < j < |picks| :: picks[i].chrom != picks[j].chrom
    ensures forall k | 0 <= k < |blocks| && Eligible(blocks[k], minLength) ::
              exists p | p in picks :: p.chrom == blocks[k].chrom
    ensures forall p | p in picks :: exists k | 0 <= k < |blocks| ::
              FirstLowest(blocks, |blocks|, k, minLength, signal) && p == Pick(blocks[k], BlockMean(blocks[k], signal))
  {
    var best: ODict<string, Centromere> := EmptyDict();
    ghost var at: map<string, nat> := map[];
    for i := 0 to |blocks|
      invariant Tracks(best, at, blocks, i, minLength, signal)
    {
      var b := blocks[i];
      if b.end - b.start < minLength {
        TracksSkip(best, at, blocks, i, minLength, signal);
        continue;
      }
      if b.candidate {
        var avg := AverageSignal(signal(b.chrom, b.start, b.end));
        if b.chrom !in best.entries {
          EligibleChromsMember(blocks[..i], minLength, b.chrom);
          assert b.chrom !in EligibleChroms(blocks[..i], minLength);
          FirstLowestFirst(blocks, i, minLength, signal);
          TracksSet(best, at, blocks, i, minLength, signal);
          best := best.Put(b.chrom, Pick(b, avg));
          at := at[b.chrom := i];
        } else {
          var current := best.entries[b.chrom];
          if avg < current.mean {
            FirstLowestReplace(blocks, i, at[b.chrom], minLength, signal);
            TracksSet(best, at, blocks, i, minLength, signal);
            best := best.Put(b.chrom, Pick(b, avg));
            at := at[b.chrom := i];
          } else {
            TracksKeep(best, at, blocks, i, minLength, signal);
          }
        }
      } else {
        TracksSkip(best, at, blocks, i, minLength, signal);
      }
    }
    assert blocks[..|blocks|] == blocks;
    picks := best.Values();
    PicksOfTracks(best, at, blocks, minLength, signal);
  }

  lemma PicksOfTracks(best: ODict<string, Centromere>, at: map<string, nat>,
                      blocks: seq<Block>, minLength: int, signal: Signal)
    requires Measurable(blocks, minLength, signal)
    requires Tracks(best, at, blocks, |blocks|, minLength, signal)
    requires blocks[..|blocks|] == blocks
    ensures Chroms(best.Values()) == best.keys
    ensures forall k | 0 <= k < |blocks| && Eligible(blocks[k], minLength) ::
              exists p | p in best.Values() :: p.chrom == blocks[k].chrom
    ensures forall p | p in best.Values() :: exists k | 0 <= k < |blocks| ::
              FirstLowest(blocks, |blocks|, k, minLength, signal) && p == Pick(blocks[k], BlockMean(blocks[k], signal))
  {
    PicksChroms(best, at, blocks, minLength, signal);
    PicksCover(best, at, blocks, minLength, signal);
    PicksLowest(best, at, blocks, minLength, signal);
  }

  lemma PicksChroms(best: ODict<string, Centromere>, at: map<string, nat>,
                    blocks: seq<Block>, minLength: int, signal: Signal)
    requires Measurable(blocks, minLength, signal)
    requires Tracks(best, at, blocks, |blocks|, minLength, signal)
    ensures Chroms(best.Values()) == best.keys
  {
    var picks := best.Values();
    forall i | 0 <= i < |picks|
      ensures picks[i].chrom == best.keys[i]
    {
      var c := best.keys[i];
      assert c in best.entries;
      assert blocks[at[c]].chrom == c;
    }
  }

  lemma PicksCover(best: ODict<string, Centromere>, at: map<string, nat>,
                   blocks: seq<Block>, minLength: int, signal: Signal)
    requires Measurable(blocks, minLength, signal)
    requires Tracks(best, at, blocks, |blocks|, minLength, signal)
    requires blocks[..|blocks|] == blocks
    ensures forall k | 0 <= k < |blocks| && Eligible(blocks[k], minLength) ::
              exists p | p in best.Values() :: p.chrom == blocks[k].chrom
  {
    var picks := best.Values();
    PicksChroms(best, at, blocks, minLength, signal);
    forall k | 0 <= k < |blocks| && Eligible(blocks[k], minLength)
      ensures exists p | p in picks :: p.chrom == blocks[k].chrom
    {
      var c := blocks[k].chrom;
      EligibleChromsMember(blocks, minLength, c);
      assert c in best.keys;
      var i :| 0 <= i < |best.keys| && best.keys[i] == c;
      assert picks[i] in picks && picks[i].chrom == Chroms(picks)[i];
    }
  }

  lemma PicksLowest(best: ODict<string, Centromere>, at: map<string, nat>,
                    blocks: seq<Block>, minLength: int, signal: Signal)
    requires Measurable(blocks, minLength, signal)
    requires Tracks(best, at, blocks, |blocks|, minLength, signal)
    ensures forall p | p in best.Values() :: exists k | 0 <= k < |blocks| ::
              FirstLowest(blocks, |blocks|, k, minLength, signal) && p == Pick(blocks[k], BlockMean(blocks[k], signal))
  {
    var picks := best.Values();
    forall p | p in picks
      ensures exists k | 0 <= k < |blocks| ::
              FirstLowest(blocks, |blocks|, k, minLength, signal) && p == Pick(blocks[k], BlockMean(blocks[k], signal))
    {
      var i :| 0 <= i < |picks| && picks[i] == p;
      var c := best.keys[i];
      assert c in best.entries;
      var k := at[c];
      assert FirstLowest(blocks, |blocks|, k, minLength, signal);
      assert p == Pick(blocks[k], BlockMean(blocks[k], signal));
    }
  }

  /** The selected block of a chromosome has a mean no higher than any other
      eligible block on it; on equal means the earlier block is kept. */
  lemma SelectionIsFirstArgmin(blocks: seq<Block>, signal: Signal, minLength: int, k: nat, j: nat)
    requires Measurable(blocks, minLength, signal)
    requires FirstLowest(blocks, |blocks|, k, minLength, signal)
    requires j < |blocks| && Eligible(blocks[j], minLength) && blocks[j].chrom == blocks[k].chrom
    ensures BlockMean(blocks[k], signal) <= BlockMean(blocks[j], signal)
    ensures BlockMean(blocks[k], signal) == BlockMean(blocks[j], signal) ==> k <= j
  {
  }

  // ------------------------------------------------------ kinetochore sites

  /** The samples below `threshold`, in order. */
  function Dips(samples: seq<Sample>, threshold: real): seq<Sample> {
    if samples == [] then []
    else
      var d := Dips(samples[..|samples| - 1], threshold);
      var s := samples[|samples| - 1];
      if s.value < threshold then d + [s] else d
  }

  /** `annotate_kinetochore_binding_site` on the region's samples: every
      sample below `avg * 0.7` becomes a site. */
  method KinetochoreSites(samples: seq<Sample>, avg: real) returns (sites: seq<Sample>)
    ensures sites == Dips(samples, avg * DipRatio)
  {
    var threshold := avg * DipRatio;
    sites := [];
    for i := 0 to |samples|
      invariant sites == Dips(samples[..i], threshold)
    {
      assert samples[..i + 1][..i] == samples[..i];
      if samples[i].value < threshold {
        sites := sites + [samples[i]];
      }
    }
    assert samples[..|samples|] == samples;
  }

  /** The sites are exactly the samples below the threshold: each site is such
      a sample, each such sample is a site, and there are never more sites
      than samples. */
  lemma {:induction false} DipsExact(samples: seq<Sample>, threshold: real)
    ensures |Dips(samples, threshold)| <= |samples|
    ensures forall s | s in Dips(samples, threshold) :: s in samples && s.value < threshold
    ensures forall s | s in samples && s.value < threshold :: s in Dips(samples, threshold)
  {
    if samples != [] {
      var init := samples[..|samples| - 1];
      DipsExact(init, threshold);
      assert forall s | s in samples :: s in init || s == samples[|samples| - 1];
    }
  }

  /** Sites keep sample order: the sites of two consecutive stretches of
      samples are those of the first followed by those of the second. */
  lemma {:induction false} DipsAppend(xs: seq<Sample>, ys: seq<Sample>, threshold: real)
    ensures Dips(xs + ys, threshold) == Dips(xs, threshold) + Dips(ys, threshold)
    decreases |ys|
  {
    if ys == [] {
      assert xs + ys == xs;
    } else {
      var ys' := ys[..|ys| - 1];
      assert (xs + ys)[..|xs + ys| - 1] == xs + ys';
      DipsAppend(xs, ys', threshold);
    }
  }

  /** With a non-positive mean and non-negative methylation values there are no sites. */
  lemma {:induction false} NoDipsBelowZero(samples: seq<Sample>, avg: real)
    requires avg <= 0.0
    requires forall i | 0 <= i < |samples| :: samples[i].value >= 0.0
    ensures Dips(samples, avg * DipRatio) == []
  {
    if samples != [] {
      NoDipsBelowZero(samples[..|samples| - 1], avg);
    }
  }

  // -------------------------------------------------------------- pipeline

  /** A kinetochore site as written to the output GFF: `chrom  pos  pos+1`. */
  datatype SiteRecord = SiteRecord(chrom: string, start: int, end: int, value: real)

  /** Every parsed line that yields an eligible block has samples. */
  ghost predicate LinesMeasurable(lines: seq<string>, signal: Signal, minLength: int) {
    forall i | 0 <= i < |lines| && ParseLine(lines[i]).Parsed? && Eligible(ParseLine(lines[i]).block, minLength) ::
      |Region(ParseLine(lines[i]).block, signal)| > 0
  }

  lemma {:induction false} KeptBlocksMeasurable(lines: seq<string>, signal: Signal, minLength: int)
    requires LinesMeasurable(lines, signal, minLength)
    ensures Measurable(KeptBlocks(lines), minLength, signal)
  {
    if lines != [] {
      KeptBlocksMeasurable(lines[..|lines| - 1], signal, minLength);
    }
  }

  /** `s` is a dip of one of the selected blocks, labelled with that
      block's chromosome. */
  ghost predicate SiteOf(s: SiteRecord, picks: seq<Centromere>, signal: Signal) {
    exists p | p in picks ::
      && s.chrom == p.chrom
      && s.end == s.start + 1
      && Sample(s.start, s.value) in PickDips(p, signal)
  }

  /** The dips of a selected block's region below 70% of its mean. */
  function PickDips(p: Centromere, signal: Signal): seq<Sample> {
    Dips(signal(p.chrom, p.start, p.end), p.mean * DipRatio)
  }

  /** Every dip of a block is among its labelled records. */
  lemma LabelledHas(p: Centromere, sites: seq<Sample>, d: Sample)
    requires d in sites
    ensures SiteRecord(p.chrom, d.position, d.position + 1, d.value) in Labelled(p, sites)
  {
    var j :| 0 <= j < |sites| && sites[j] == d;
    assert Labelled(p, sites)[j] == SiteRecord(p.chrom, d.position, d.position + 1, d.value);
  }

  /** The site records of one selected block: its dips, labelled with its
      chromosome. */
  function Labelled(p: Centromere, sites: seq<Sample>): (rs: seq<SiteRecord>)
    ensures |rs| == |sites|
  {
    seq(|sites|, j requires 0 <= j < |sites| =>
      SiteRecord(p.chrom, sites[j].position, sites[j].position + 1, sites[j].value))
  }

  /** The site records of the selected blocks, block by block. */
  function AllSites(picks: seq<Centromere>, signal: Signal): seq<SiteRecord> {
    if picks == [] then []
    else
      var p := picks[|picks| - 1];
      AllSites(picks[..|picks| - 1], signal) + Labelled(p, PickDips(p, signal))
  }

  /** Every record is a dip of a selected block, labelled with that block's
      chromosome. */
  lemma {:induction false} AllSitesSound(picks: seq<Centromere>, signal: Signal)
    ensures forall s | s in AllSites(picks, signal) :: SiteOf(s, picks, signal)
  {
    if picks != [] {
      var front := picks[..|picks| - 1];
      var p := picks[|picks| - 1];
      AllSitesSound(front, signal);
      var sites := PickDips(p, signal);
      forall s | s in AllSites(picks, signal)
        ensures SiteOf(s, picks, signal)
      {
        if s in AllSites(front, signal) {
          var q :| q in front && s.chrom == q.chrom && s.end == s.start + 1
            && Sample(s.start, s.value) in PickDips(q, signal);
          assert q in picks;
        } else {
          var j :| 0 <= j < |sites| && Labelled(p, sites)[j] == s;
          assert Sample(s.start, s.value) == sites[j];
        }
      }
    }
  }

  /** Every dip of every selected block is recorded, with that block's
      chromosome. */
  lemma {:induction false} AllSitesComplete(picks: seq<Centromere>, signal: Signal)
    ensures forall p, d | p in picks && d in PickDips(p, signal) ::
      SiteRecord(p.chrom, d.position, d.position + 1, d.value) in AllSites(picks, signal)
  {
    if picks != [] {
      var front := picks[..|picks| - 1];
      var last := picks[|picks| - 1];
      AllSitesComplete(front, signal);
      forall p, d | p in picks && d in PickDips(p, signal)
        ensures SiteRecord(p.chrom, d.position, d.position + 1, d.value) in AllSites(picks, signal)
      {
        if p in front {
          assert SiteRecord(p.chrom, d.position, d.position + 1, d.value) in AllSites(front, signal);
        } else {
          assert p == last;
          LabelledHas(p, PickDips(p, signal), d);
        }
      }
    }
  }

  /** The loop of `main` over the selected blocks, extending the site list
      with each block's dips, each site labelled with its block's chromosome. */
  method CollectSites(picks: seq<Centromere>, signal: Signal) returns (records: seq<SiteRecord>)
    ensures records == AllSites(picks, signal)
  {
    records := [];
    for i := 0 to |picks|
      invariant records == AllSites(picks[..i], signal)
    {
      var p := picks[i];
      var sites := KinetochoreSites(signal(p.chrom, p.start, p.end), p.mean);
      ghost var before := records;
      for j := 0 to |sites|
        invariant records == before + Labelled(p, sites[..j])
      {
        var rec := SiteRecord(p.chrom, sites[j].position, sites[j].position + 1, sites[j].value);
        assert Labelled(p, sites[..j + 1]) == Labelled(p, sites[..j]) + [rec];
        records := records + [rec];
      }
      assert sites[..|sites|] == sites;
      assert picks[..i + 1][..i] == picks[..i];
    }
    assert picks[..|picks|] == picks;
  }

  /** The corrected `main`: parse, select, then collect the sites of every
      selected block, each labelled with the chromosome of the block it was
      found in. */
  method DetectCorrected(lines: seq<string>, signal: Signal, minLength: int)
    returns (r: Outcome<(seq<Centromere>, seq<SiteRecord>)>)
    requires LinesMeasurable(lines, signal, minLength)
    ensures r.Ok? <==> Parses(lines)
    ensures r.Ok? ==> Chroms(r.value.0) == Dedup(EligibleChroms(KeptBlocks(lines), minLength))
    ensures r.Ok? ==>
      && Measurable(KeptBlocks(lines), minLength, signal)
      && (forall p | p in r.value.0 :: exists k | 0 <= k < |KeptBlocks(lines)| ::
            && FirstLowest(KeptBlocks(lines), |KeptBlocks(lines)|, k, minLength, signal)
            && p == Pick(KeptBlocks(lines)[k], BlockMean(KeptBlocks(lines)[k], signal)))
    ensures r.Ok? ==> r.value.1 == AllSites(r.value.0, signal)
    ensures r.Ok? ==> forall s | s in r.value.1 :: SiteOf(s, r.value.0, signal)
    ensures r.Ok? ==> forall p, d | p in r.value.0 && d in PickDips(p, signal) ::
      SiteRecord(p.chrom, d.position, d.position + 1, d.value) in r.value.1
  {
    var parsed := ParseGff(lines);
    if parsed.Crash? {
      return Crash(parsed.reason);
    }
    var blocks := parsed.value;
    KeptBlocksMeasurable(lines, signal, minLength);
    var picks := FindCentromere(blocks, signal, minLength);
    var records := CollectSites(picks, signal);
    AllSitesSound(picks, signal);
    AllSitesComplete(picks, signal);
    return Ok((picks, records));
  }

  /** `kinetochore_regions` as `main` builds it: the dips of the selected
      blocks, block by block, without their chromosome. */
  function AllDips(picks: seq<Centromere>, signal: Signal): seq<Sample> {
    if picks == [] then []
    else AllDips(picks[..|picks| - 1], signal) + PickDips(picks[|picks| - 1], signal)
  }

  /** Every collected dip is a dip of some selected block. */
  lemma {:induction false} AllDipsSound(picks: seq<Centromere>, signal: Signal)
    ensures forall d | d in AllDips(picks, signal) :: exists p | p in picks :: d in PickDips(p, signal)
  {
    if picks != [] {
      var front := picks[..|picks| - 1];
      AllDipsSound(front, signal);
      forall d | d in AllDips(picks, signal)
        ensures exists p | p in picks :: d in PickDips(p, signal)
      {
        if d in AllDips(front, signal) {
          var q :| q in front && d in PickDips(q, signal);
          assert q in picks;
        } else {
          assert picks[|picks| - 1] in picks;
        }
      }
    }
  }

  /** Every dip of every selected block is collected. */
  lemma {:induction false} AllDipsComplete(picks: seq<Centromere>, signal: Signal)
    ensures forall p, d | p in picks && d in PickDips(p, signal) :: d in AllDips(picks, signal)
  {
    if picks != [] {
      var front := picks[..|picks| - 1];
      AllDipsComplete(front, signal);
      forall p, d | p in picks && d in PickDips(p, signal)
        ensures d in AllDips(picks, signal)
      {
        if p in front {
          assert d in AllDips(front, signal);
        } else {
          assert p == picks[|picks| - 1];
        }
      }
    }
  }

  /** The corrected records and the collected dips agree position by position
      on everything but the chromosome label. */
  lemma {:induction false} SitesMatchDips(picks: seq<Centromere>, signal: Signal)
    ensures |AllSites(picks, signal)| == |AllDips(picks, signal)|
    ensures forall i | 0 <= i < |AllDips(picks, signal)| ::
      var d := AllDips(picks, signal)[i];
      AllSites(picks, signal)[i] == SiteRecord(AllSites(picks, signal)[i].chrom, d.position, d.position + 1, d.value)
  {
    if picks != [] {
      SitesMatchDips(picks[..|picks| - 1], signal);
    }
  }

  /** The loop of `main` over the selected blocks, extending
      `kinetochore_regions` with each block's dips. */
  method CollectDips(picks: seq<Centromere>, signal: Signal) returns (regions: seq<Sample>)
    ensures regions == AllDips(picks, signal)
  {
    regions := [];
    for i := 0 to |picks|
      invariant regions == AllDips(picks[..i], signal)
    {
      var p := picks[i];
      var sites := KinetochoreSites(signal(p.chrom, p.start, p.end), p.mean);
      regions := regions + sites;
      assert picks[..i + 1][..i] == picks[..i];
    }
    assert picks[..|picks|] == picks;
  }

  /** `output_gff` as written: the site lines reuse the `chrom` variable left
      over from the loop over the selected blocks, so every site is labelled
      with the last selected chromosome. */
  function SiteRecordsAsWritten(picks: seq<Centromere>, sites: seq<Sample>): (rs: seq<SiteRecord>)
    requires |picks| > 0
    ensures |rs| == |sites|
    ensures forall i | 0 <= i < |rs| :: rs[i].chrom == picks[|picks| - 1].chrom
  {
    seq(|sites|, i requires 0 <= i < |sites| =>
      SiteRecord(picks[|picks| - 1].chrom, sites[i].position, sites[i].position + 1, sites[i].value))
  }

  /** `s` is a one-base record of a dip of one of the selected blocks,
      whatever its label. */
  ghost predicate DipOf(s: SiteRecord, picks: seq<Centromere>, signal: Signal) {
    && s.end == s.start + 1
    && exists p | p in picks :: Sample(s.start, s.value) in PickDips(p, signal)
  }

  /** The written records are the given dips, one base each, and nothing else. */
  lemma AsWrittenRecords(picks: seq<Centromere>, sites: seq<Sample>)
    requires |picks| > 0
    ensures forall s | s in SiteRecordsAsWritten(picks, sites) ::
      s.end == s.start + 1 && Sample(s.start, s.value) in sites
    ensures forall d | d in sites ::
      SiteRecord(picks[|picks| - 1].chrom, d.position, d.position + 1, d.value) in SiteRecordsAsWritten(picks, sites)
  {
    var rs := SiteRecordsAsWritten(picks, sites);
    forall s | s in rs
      ensures s.end == s.start + 1 && Sample(s.start, s.value) in sites
    {
      var i :| 0 <= i < |rs| && rs[i] == s;
      assert Sample(s.start, s.value) == sites[i];
    }
    forall d | d in sites
      ensures SiteRecord(picks[|picks| - 1].chrom, d.position, d.position + 1, d.value) in rs
    {
      var i :| 0 <= i < |sites| && sites[i] == d;
      assert rs[i] == SiteRecord(picks[|picks| - 1].chrom, d.position, d.position + 1, d.value);
    }
  }

  /** Every written site line is a dip of a selected block, labelled with the
      last selected chromosome. */
  lemma WrittenSitesSound(picks: seq<Centromere>, signal: Signal)
    requires |picks| > 0
    ensures forall s | s in SiteRecordsAsWritten(picks, AllDips(picks, signal)) ::
      s.chrom == picks[|picks| - 1].chrom && DipOf(s, picks, signal)
  {
    AllDipsSound(picks, signal);
    AsWrittenRecords(picks, AllDips(picks, signal));
  }

  /** Every dip of every selected block is written, under the last selected
      chromosome. */
  lemma WrittenSitesComplete(picks: seq<Centromere>, signal: Signal)
    requires |picks| > 0
    ensures forall p, d | p in picks && d in PickDips(p, signal) ::
      SiteRecord(picks[|picks| - 1].chrom, d.position, d.position + 1, d.value)
        in SiteRecordsAsWritten(picks, AllDips(picks, signal))
  {
    AllDipsComplete(picks, signal);
    AsWrittenRecords(picks, AllDips(picks, signal));
  }

  /** `main` as written: parse, select, collect the dips of every selected
      block, and write them, when some block was selected, under the last
      selected chromosome. */
  method Detect(lines: seq<string>, signal: Signal, minLength: int)
    returns (r: Outcome<(seq<Centromere>, seq<SiteRecord>)>)
    requires LinesMeasurable(lines, signal, minLength)
    ensures r.Ok? <==> Parses(lines)
    ensures r.Ok? ==> Chroms(r.value.0) == Dedup(EligibleChroms(KeptBlocks(lines), minLength))
    ensures r.Ok? ==>
      && Measurable(KeptBlocks(lines), minLength, signal)
      && (forall p | p in r.value.0 :: exists k | 0 <= k < |KeptBlocks(lines)| ::
            && FirstLowest(KeptBlocks(lines), |KeptBlocks(lines)|, k, minLength, signal)
            && p == Pick(KeptBlocks(lines)[k], BlockMean(KeptBlocks(lines)[k], signal)))
    ensures r.Ok? && r.value.0 == [] ==> r.value.1 == []
    ensures r.Ok? && r.value.0 != [] ==> r.value.1 == SiteRecordsAsWritten(r.value.0, AllDips(r.value.0, signal))
    ensures r.Ok? && r.value.0 != [] ==>
      forall s | s in r.value.1 :: s.chrom == r.value.0[|r.value.0| - 1].chrom && DipOf(s, r.value.0, signal)
    ensures r.Ok? && r.value.0 != [] ==> forall p, d | p in r.value.0 && d in PickDips(p, signal) ::
      SiteRecord(r.value.0[|r.value.0| - 1].chrom, d.position, d.position + 1, d.value) in r.value.1
  {
    var parsed := ParseGff(lines);
    if parsed.Crash? {
      return Crash(parsed.reason);
    }
    var blocks := parsed.value;
    KeptBlocksMeasurable(lines, signal, minLength);
    var picks := FindCentromere(blocks, signal, minLength);
    if picks == [] {
      return Ok((picks, []));
    }
    var regions := CollectDips(picks, signal);
    WrittenSitesSound(picks, signal);
    WrittenSitesComplete(picks, signal);
    return Ok((picks, SiteRecordsAsWritten(picks, regions)));
  }

  /** Two centromeres, a dip only on the first: the as-written output labels
      that site with the second chromosome. */
  lemma SiteMislabelled()
    ensures
      var a := Centromere("chr1", 0, 2000, "Tgut716A", 0.5);
      var b := Centromere("chr2", 0, 2000, "Tgut716A", 0.5);
      var site := Sample(100, 0.1);
      && site in Dips([site], a.mean * DipRatio)
      && SiteRecordsAsWritten([a, b], [site])[0].chrom == "chr2"
  {
    var a := Centromere("chr1", 0, 2000, "Tgut716A", 0.5);
    var b := Centromere("chr2", 0, 2000, "Tgut716A", 0.5);
    var site := Sample(100, 0.1);
    assert [site][..0] == [];
  }
}
