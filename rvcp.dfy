/** `rvcp.py`: orient monomer reads by the strand of their first alignment
    in a PAF file, and set aside the reads that have none. */
module Rvcp {
  import opened Common
  import opened Strings

  /** The fields of a FASTA record that the script reads or changes. */
  datatype FastaRecord = FastaRecord(id: string, description: string, sequence: string)

  /** IUPAC DNA complement, upper and lower case; any other symbol, `U` and
      `u` included, is kept as it is. */
  function Complement(c: char): char {
    match c
    case 'A' => 'T' case 'T' => 'A' case 'C' => 'G' case 'G' => 'C'
    case 'M' => 'K' case 'K' => 'M' case 'R' => 'Y' case 'Y' => 'R'
    case 'V' => 'B' case 'B' => 'V' case 'H' => 'D' case 'D' => 'H'
    case 'a' => 't' case 't' => 'a' case 'c' => 'g' case 'g' => 'c'
    case 'm' => 'k' case 'k' => 'm' case 'r' => 'y' case 'y' => 'r'
    case 'v' => 'b' case 'b' => 'v' case 'h' => 'd' case 'd' => 'h'
    case _ => c
  }

  /** `Seq.reverse_complement()`. */
  function ReverseComplement(s: string): (r: string)
    ensures |r| == |s|
  {
    if s == [] then [] else [Complement(s[|s| - 1])] + ReverseComplement(s[..|s| - 1])
  }

  lemma ComplementInvolution(c: char)
    ensures Complement(Complement(c)) == c
  {
  }

  lemma {:induction false} ReverseComplementAt(s: string, i: nat)
    requires i < |s|
    ensures ReverseComplement(s)[i] == Complement(s[|s| - 1 - i])
  {
    if i > 0 {
      ReverseComplementAt(s[..|s| - 1], i - 1);
    }
  }

  /** Reverse-complementing twice gives back the sequence. */
  lemma ReverseComplementTwice(s: string)
    ensures ReverseComplement(ReverseComplement(s)) == s
  {
    var r := ReverseComplement(s);
    forall i | 0 <= i < |s|
      ensures ReverseComplement(r)[i] == s[i]
    {
      ReverseComplementAt(r, i);
      ReverseComplementAt(s, |s| - 1 - i);
      ComplementInvolution(s[i]);
    }
  }

  /** A PAF line with more than four tab fields names a query and a strand. */
  function PafEntry(line: string): Option<(string, string)> {
    var fields := Split(Strip(line), "\t");
    if |fields| > 4 then Some((fields[0], fields[4])) else None
  }

  method ReadPafLine(line: string) returns (e: Option<(string, string)>)
    ensures e == PafEntry(line)
  {
    var fields := Split(Strip(line), "\t");
    if |fields| > 4 {
      var qname := fields[0];
      var strand := fields[4];
      e := Some((qname, strand));
    } else {
      e := None;
    }
  }

  function PafEntries(lines: seq<string>): (es: seq<Option<(string, string)>>)
    ensures |es| == |lines|
  {
    if lines == [] then [] else PafEntries(lines[..|lines| - 1]) + [PafEntry(lines[|lines| - 1])]
  }

  lemma {:induction false} PafEntriesAt(lines: seq<string>, k: nat)
    requires k < |lines|
    ensures PafEntries(lines)[k] == PafEntry(lines[k])
  {
    if k < |lines| - 1 {
      PafEntriesAt(lines[..|lines| - 1], k);
    }
  }

  lemma PafEntriesSnoc(lines: seq<string>, i: nat)
    requires i < |lines|
    ensures PafEntries(lines[..i + 1]) == PafEntries(lines[..i]) + [PafEntry(lines[i])]
  {
    assert lines[..i + 1][..i] == lines[..i];
  }

  /** `strand_map` after the given entries: the first strand seen per query. */
  function StrandMap(es: seq<Option<(string, string)>>): map<string, string> {
    if es == [] then map[]
    else
      var m := StrandMap(es[..|es| - 1]);
      match es[|es| - 1]
      case None => m
      case Some((q, strand)) => if q in m then m else m[q := strand]
  }

  lemma StrandMapSnoc(es: seq<Option<(string, string)>>, e: Option<(string, string)>)
    ensures StrandMap(es + [e]) ==
      if e.Some? && e.value.0 !in StrandMap(es) then StrandMap(es)[e.value.0 := e.value.1] else StrandMap(es)
  {
    assert (es + [e])[..|es|] == es;
  }

  /** Step 1 of the script. */
  method BuildStrandMap(lines: seq<string>) returns (m: map<string, string>)
    ensures m == StrandMap(PafEntries(lines))
  {
    m := map[];
    for i := 0 to |lines|
      invariant m == StrandMap(PafEntries(lines[..i]))
    {
      var e := ReadPafLine(lines[i]);
      PafEntriesSnoc(lines, i);
      StrandMapSnoc(PafEntries(lines[..i]), e);
      if e.Some? {
        var qname := e.value.0;
        var strand := e.value.1;
        if qname !in m {
          m := m[qname := strand];
        }
      }
    }
    assert lines[..|lines|] == lines;
  }

  /** Entry `k` is the first one for query `q`. */
  ghost predicate FirstFor(es: seq<Option<(string, string)>>, q: string, k: nat) {
    && k < |es| && es[k].Some? && es[k].value.0 == q
    && forall j | 0 <= j < k :: !(es[j].Some? && es[j].value.0 == q)
  }

  /** A query is in the map exactly when some entry names it, and then its
      strand is the one of the first such entry; later entries are ignored. */
  lemma {:induction false} StrandMapFirstWins(es: seq<Option<(string, string)>>, q: string)
    ensures q in StrandMap(es) <==> exists k | 0 <= k < |es| :: es[k].Some? && es[k].value.0 == q
    ensures q in StrandMap(es) ==> exists k: nat :: FirstFor(es, q, k) && StrandMap(es)[q] == es[k].value.1
  {
    if es != [] {
      var front := es[..|es| - 1];
      StrandMapFirstWins(front, q);
      assert es == front + [es[|es| - 1]];
      StrandMapSnoc(front, es[|es| - 1]);
      if q in StrandMap(front) {
        var k: nat :| FirstFor(front, q, k) && StrandMap(front)[q] == front[k].value.1;
        assert FirstFor(es, q, k);
      } else if q in StrandMap(es) {
        assert FirstFor(es, q, |es| - 1);
      }
      if exists k | 0 <= k < |es| :: es[k].Some? && es[k].value.0 == q {
        var k :| 0 <= k < |es| && es[k].Some? && es[k].value.0 == q;
        if k < |front| {
          assert front[k] == es[k];
        }
      }
    }
  }

  /** The body of the `strand == "-"` branch, applied to an aligned record. */
  function Oriented(r: FastaRecord, strand: string): FastaRecord {
    if strand == "-" then
      FastaRecord(r.id + "_revcomp", r.description + " (reverse complemented)", ReverseComplement(r.sequence))
    else r
  }

  /** Only minus-strand records change; they are reverse-complemented and
      tagged, and the change can be undone. */
  lemma OrientedSpec(r: FastaRecord, strand: string)
    ensures strand != "-" ==> Oriented(r, strand) == r
    ensures strand == "-" ==>
      var o := Oriented(r, strand);
      && EndsWith(o.id, "_revcomp") && o.id[..|o.id| - 8] == r.id
      && |o.sequence| == |r.sequence|
      && ReverseComplement(o.sequence) == r.sequence
  {
    if strand == "-" {
      var o := Oriented(r, strand);
      assert o.id[..|o.id| - 8] == r.id;
      ReverseComplementTwice(r.sequence);
    }
  }

  /** `aligned_seqs` after the given records. */
  function AlignedOf(recs: seq<FastaRecord>, m: map<string, string>): seq<FastaRecord> {
    if recs == [] then []
    else
      var r := recs[|recs| - 1];
      AlignedOf(recs[..|recs| - 1], m) + (if r.id in m then [Oriented(r, m[r.id])] else [])
  }

  /** `unaligned_seqs` after the given records. */
  function UnalignedOf(recs: seq<FastaRecord>, m: map<string, string>): seq<FastaRecord> {
    if recs == [] then []
    else
      var r := recs[|recs| - 1];
      UnalignedOf(recs[..|recs| - 1], m) + (if r.id in m then [] else [r])
  }

  /** Step 2 of the script. */
  method Partition(recs: seq<FastaRecord>, m: map<string, string>)
    returns (aligned: seq<FastaRecord>, unaligned: seq<FastaRecord>)
    ensures aligned == AlignedOf(recs, m)
    ensures unaligned == UnalignedOf(recs, m)
  {
    aligned, unaligned := [], [];
    for i := 0 to |recs|
      invariant aligned == AlignedOf(recs[..i], m)
      invariant unaligned == UnalignedOf(recs[..i], m)
    {
      var rec := recs[i];
      assert recs[..i + 1][..i] == recs[..i];
      if rec.id in m {
        var strand := m[rec.id];
        if strand == "-" {
          rec := rec.(sequence := ReverseComplement(rec.sequence));
          rec := rec.(id := rec.id + "_revcomp");
          rec := rec.(description := rec.description + " (reverse complemented)");
        }
        aligned := aligned + [rec];
      } else {
        unaligned := unaligned + [rec];
      }
    }
    assert recs[..|recs|] == recs;
  }

  /** Every record lands in exactly one of the two lists. */
  lemma {:induction false} PartitionCount(recs: seq<FastaRecord>, m: map<string, string>)
    ensures |AlignedOf(recs, m)| + |UnalignedOf(recs, m)| == |recs|
  {
    if recs != [] {
      PartitionCount(recs[..|recs| - 1], m);
    }
  }

  /** The unaligned list is the records without a strand, in input order and
      unchanged. */
  lemma {:induction false} UnalignedSpec(recs: seq<FastaRecord>, m: map<string, string>)
    ensures forall r :: r in UnalignedOf(recs, m) <==> r in recs && r.id !in m
  {
    if recs != [] {
      var front := recs[..|recs| - 1];
      UnalignedSpec(front, m);
      assert recs == front + [recs[|recs| - 1]];
    }
  }

  /** The aligned list holds, for each record with a strand, that record
      oriented by its strand, and nothing else. */
  lemma {:induction false} AlignedSpec(recs: seq<FastaRecord>, m: map<string, string>)
    ensures forall r | r in recs && r.id in m :: Oriented(r, m[r.id]) in AlignedOf(recs, m)
    ensures forall a | a in AlignedOf(recs, m) ::
      exists r | r in recs && r.id in m :: a == Oriented(r, m[r.id])
  {
    if recs != [] {
      var front := recs[..|recs| - 1];
      var last := recs[|recs| - 1];
      AlignedSpec(front, m);
      assert recs == front + [last];
      forall a | a in AlignedOf(recs, m)
        ensures exists r | r in recs && r.id in m :: a == Oriented(r, m[r.id])
      {
        if a in AlignedOf(front, m) {
          var r :| r in front && r.id in m && a == Oriented(r, m[r.id]);
          assert r in recs;
        } else {
          assert a == Oriented(last, m[last.id]);
        }
      }
    }
  }

  /** Step 3 prints the two list lengths; together they count every input
      record, and a record is aligned exactly when its id has a strand. */
  lemma AlignedIffMapped(paf: seq<string>, recs: seq<FastaRecord>, r: FastaRecord)
    requires r in recs
    ensures var m := StrandMap(PafEntries(paf));
      && (r.id in m <==> exists k | 0 <= k < |paf| :: PafEntry(paf[k]).Some? && PafEntry(paf[k]).value.0 == r.id)
      && (r.id in m ==> Oriented(r, m[r.id]) in AlignedOf(recs, m))
      && (r.id !in m ==> r in UnalignedOf(recs, m))
  {
    var es := PafEntries(paf);
    var m := StrandMap(es);
    StrandMapFirstWins(es, r.id);
    AlignedSpec(recs, m);
    UnalignedSpec(recs, m);
    forall k | 0 <= k < |paf|
      ensures es[k] == PafEntry(paf[k])
    {
      PafEntriesAt(paf, k);
    }
  }
}
