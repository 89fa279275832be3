/** `bam_to_msa.py`: turn reads aligned to a reference into rows of a
    multiple alignment, by walking each read's CIGAR string. */
module BamToMsa {
  import opened Common

  /** One CIGAR operation: its numeric code and its length. */
  datatype CigarOp = CigarOp(op: nat, length: nat)

  /** The parts of a BAM record the script reads. */
  datatype Read = Read(
    name: string, unmapped: bool, refName: string, refStart: nat,
    cigar: seq<CigarOp>, query: string)

  /** `aligned_seqs`: read name to gapped row, in first-insertion order. */
  type RowMap = ODict<string, string>

  /** `'-' * n` */
  function Gaps(n: nat): (s: string)
    ensures |s| == n && forall i | 0 <= i < n :: s[i] == '-'
  {
    if n == 0 then [] else Gaps(n - 1) + "-"
  }

  /** Python's `s[a:b]` for `0 <= a <= b`: the bounds are clipped to the string. */
  function Slice(s: string, a: nat, b: nat): (r: string)
    requires a <= b
    ensures |r| <= b - a
    ensures b <= |s| ==> r == s[a..b]
  {
    var lo := if a < |s| then a else |s|;
    var hi := if b < |s| then b else |s|;
    s[lo..hi]
  }

  /** The walk's state: the query position and the pieces appended so far. */
  datatype Walk = Walk(qPos: nat, rPos: nat, pieces: seq<string>)

  /** One iteration of the CIGAR loop. Codes other than 0, 1, 2, 4 and 5 fall
      through every branch and change nothing. */
  function Step(w: Walk, c: CigarOp, query: string): Walk {
    if c.op == 0 then Walk(w.qPos + c.length, w.rPos + c.length, w.pieces + [Piece(c, w.qPos, query)])
    else if c.op == 1 then w.(qPos := w.qPos + c.length)
    else if c.op == 2 then Walk(w.qPos, w.rPos + c.length, w.pieces + [Piece(c, w.qPos, query)])
    else if c.op == 4 then w.(qPos := w.qPos + c.length)
    else w
  }

  /** What an operation appends at query position `qPos`: the query slice for
      an M, gaps for a D, nothing otherwise. */
  function Piece(c: CigarOp, qPos: nat, query: string): string {
    if c.op == 0 then Slice(query, qPos, qPos + c.length)
    else if c.op == 2 then Gaps(c.length)
    else []
  }

  /** The state after the given operations. */
  function WalkOf(start: nat, cigar: seq<CigarOp>, query: string): Walk {
    if cigar == [] then Walk(0, start, if start > 0 then [Gaps(start)] else [])
    else Step(WalkOf(start, cigar[..|cigar| - 1], query), cigar[|cigar| - 1], query)
  }

  /** `''.join(parts)` */
  function Concat(parts: seq<string>): string {
    if parts == [] then [] else Concat(parts[..|parts| - 1]) + parts[|parts| - 1]
  }

  lemma ConcatSnoc(parts: seq<string>, p: string)
    ensures Concat(parts + [p]) == Concat(parts) + p
  {
    assert (parts + [p])[..|parts|] == parts;
  }

  /** The gapped row of one read. */
  function RowOf(r: Read): string {
    Concat(WalkOf(r.refStart, r.cigar, r.query).pieces)
  }

  /** The CIGAR loop for one read. */
  method BuildRow(r: Read) returns (row: string)
    ensures row == RowOf(r)
  {
    var query := r.query;
    var refStart := r.refStart;
    var qPos: nat := 0;
    var rPos: nat := refStart;
    var qAln: seq<string> := [];
    if refStart > 0 {
      qAln := qAln + [Gaps(refStart)];
    }
    for i := 0 to |r.cigar|
      invariant WalkOf(refStart, r.cigar[..i], query) == Walk(qPos, rPos, qAln)
    {
      assert r.cigar[..i + 1][..i] == r.cigar[..i];
      var op, length := r.cigar[i].op, r.cigar[i].length;
      if op == 0 {
        qAln := qAln + [Slice(query, qPos, qPos + length)];
        qPos := qPos + length;
        rPos := rPos + length;
      } else if op == 1 {
        qPos := qPos + length;
      } else if op == 2 {
        qAln := qAln + [Gaps(length)];
        rPos := rPos + length;
      } else if op == 4 {
        qPos := qPos + length;
      } else if op == 5 {
      }
    }
    assert r.cigar[..|r.cigar|] == r.cigar;
    row := Concat(qAln);
  }

  /** Total length of the operations with code `op`. */
  function LengthOf(cigar: seq<CigarOp>, ops: set<nat>): nat {
    if cigar == [] then 0
    else LengthOf(cigar[..|cigar| - 1], ops) + (if cigar[|cigar| - 1].op in ops then cigar[|cigar| - 1].length else 0)
  }

  /** The query slices of the match operations, in order. */
  function Matched(cigar: seq<CigarOp>, query: string): string {
    Concat(MatchedPieces(cigar, query))
  }

  function MatchedPieces(cigar: seq<CigarOp>, query: string): seq<string> {
    if cigar == [] then []
    else
      var c := cigar[|cigar| - 1];
      MatchedPieces(cigar[..|cigar| - 1], query)
        + (if c.op == 0 then [Piece(c, LengthOf(cigar[..|cigar| - 1], {0, 1, 4}), query)] else [])
  }

  /** The counters: the query position advances over M, I and S, the
      reference position over M and D. */
  lemma {:induction false} WalkCounters(start: nat, cigar: seq<CigarOp>, query: string)
    ensures WalkOf(start, cigar, query).qPos == LengthOf(cigar, {0, 1, 4})
    ensures WalkOf(start, cigar, query).rPos == start + LengthOf(cigar, {0, 2})
  {
    if cigar != [] {
      WalkCounters(start, cigar[..|cigar| - 1], query);
    }
  }

  /** The pieces after the leading gaps: per operation in order, the query
      slice of an M and the gaps of a D. */
  function Interleaved(cigar: seq<CigarOp>, query: string): string {
    if cigar == [] then []
    else
      var c := cigar[|cigar| - 1];
      Interleaved(cigar[..|cigar| - 1], query) + Piece(c, LengthOf(cigar[..|cigar| - 1], {0, 1, 4}), query)
  }

  /** One operation appends its piece to the joined row. */
  lemma WalkPieceStep(start: nat, cigar: seq<CigarOp>, query: string)
    requires cigar != []
    ensures Concat(WalkOf(start, cigar, query).pieces)
         == Concat(WalkOf(start, cigar[..|cigar| - 1], query).pieces)
            + Piece(cigar[|cigar| - 1], LengthOf(cigar[..|cigar| - 1], {0, 1, 4}), query)
  {
    var w := WalkOf(start, cigar[..|cigar| - 1], query);
    WalkCounters(start, cigar[..|cigar| - 1], query);
    var c := cigar[|cigar| - 1];
    var piece := Piece(c, w.qPos, query);
    if c.op == 0 || c.op == 2 {
      assert WalkOf(start, cigar, query).pieces == w.pieces + [piece];
      ConcatSnoc(w.pieces, piece);
    } else {
      assert WalkOf(start, cigar, query).pieces == w.pieces;
      assert Concat(w.pieces) + piece == Concat(w.pieces);
    }
  }

  /** Regrouping `(g + rest) + piece`. */
  lemma Regroup(whole: string, before: string, g: string, rest: string, piece: string)
    requires whole == before + piece && before == g + rest
    ensures whole == g + (rest + piece)
  {
  }

  lemma RowLeadingGapsStep(start: nat, cigar: seq<CigarOp>, query: string)
    requires cigar != []
    requires Concat(WalkOf(start, cigar[..|cigar| - 1], query).pieces) == Gaps(start) + Interleaved(cigar[..|cigar| - 1], query)
    ensures Concat(WalkOf(start, cigar, query).pieces) == Gaps(start) + Interleaved(cigar, query)
  {
    var front := cigar[..|cigar| - 1];
    WalkPieceStep(start, cigar, query);
    var piece := Piece(cigar[|cigar| - 1], LengthOf(front, {0, 1, 4}), query);
    Regroup(Concat(WalkOf(start, cigar, query).pieces), Concat(WalkOf(start, front, query).pieces),
      Gaps(start), Interleaved(front, query), piece);
  }

  lemma {:induction false} RowLeadingGaps(start: nat, cigar: seq<CigarOp>, query: string)
    ensures Concat(WalkOf(start, cigar, query).pieces) == Gaps(start) + Interleaved(cigar, query)
  {
    if cigar == [] {
      if start > 0 {
        assert Concat([Gaps(start)]) == Concat([]) + Gaps(start);
      } else {
        assert Gaps(start) == [];
      }
    } else {
      RowLeadingGaps(start, cigar[..|cigar| - 1], query);
      RowLeadingGapsStep(start, cigar, query);
    }
  }

  /** The row is at most `refStart` plus the M and D lengths long, exactly
      that when the query is as long as the CIGAR says. */
  lemma {:induction false} InterleavedLength(cigar: seq<CigarOp>, query: string)
    ensures |Interleaved(cigar, query)| <= LengthOf(cigar, {0, 2})
    ensures |query| >= LengthOf(cigar, {0, 1, 4}) ==> |Interleaved(cigar, query)| == LengthOf(cigar, {0, 2})
  {
    if cigar != [] {
      var front := cigar[..|cigar| - 1];
      InterleavedLength(front, query);
      assert LengthOf(front, {0, 1, 4}) <= LengthOf(cigar, {0, 1, 4});
    }
  }

  /** Removing gaps from the row leaves the matched query slices in order,
      when the query itself holds no gap symbol. */
  function Ungapped(s: string): (r: string)
    ensures |r| <= |s|
  {
    if s == [] then [] else Ungapped(s[..|s| - 1]) + (if s[|s| - 1] == '-' then [] else [s[|s| - 1]])
  }

  lemma {:induction false} UngappedAppend(a: string, b: string)
    ensures Ungapped(a + b) == Ungapped(a) + Ungapped(b)
  {
    if b != [] {
      UngappedAppend(a, b[..|b| - 1]);
      assert (a + b)[..|a + b| - 1] == a + b[..|b| - 1];
    } else {
      assert a + b == a;
    }
  }

  lemma {:induction false} UngappedGaps(n: nat)
    ensures Ungapped(Gaps(n)) == []
  {
    if n > 0 {
      UngappedGaps(n - 1);
      UngappedAppend(Gaps(n - 1), "-");
    }
  }

  lemma {:induction false} UngappedPlain(s: string)
    requires '-' !in s
    ensures Ungapped(s) == s
  {
    if s != [] {
      UngappedPlain(s[..|s| - 1]);
    }
  }

  lemma {:induction false} InterleavedContent(cigar: seq<CigarOp>, query: string)
    requires '-' !in query
    ensures Ungapped(Interleaved(cigar, query)) == Matched(cigar, query)
  {
    if cigar != [] {
      var front := cigar[..|cigar| - 1];
      var c := cigar[|cigar| - 1];
      InterleavedContent(front, query);
      var rest := Interleaved(front, query);
      var piece := Piece(c, LengthOf(front, {0, 1, 4}), query);
      assert Interleaved(cigar, query) == rest + piece;
      UngappedAppend(rest, piece);
      if c.op == 0 {
        assert forall k | 0 <= k < |piece| :: piece[k] in query;
        UngappedPlain(piece);
        assert MatchedPieces(cigar, query) == MatchedPieces(front, query) + [piece];
        ConcatSnoc(MatchedPieces(front, query), piece);
      } else {
        assert MatchedPieces(cigar, query) == MatchedPieces(front, query);
        if c.op == 2 {
          UngappedGaps(c.length);
        }
        assert Ungapped(piece) == [];
        assert Ungapped(rest) + [] == Ungapped(rest);
      }
    }
  }

  /** The non-gap content of a row is the M-operation query slices in order. */
  lemma RowContent(r: Read)
    requires '-' !in r.query
    ensures Ungapped(RowOf(r)) == Matched(r.cigar, r.query)
    ensures |RowOf(r)| >= r.refStart && RowOf(r)[..r.refStart] == Gaps(r.refStart)
    ensures |RowOf(r)| <= r.refStart + LengthOf(r.cigar, {0, 2})
  {
    RowLeadingGaps(r.refStart, r.cigar, r.query);
    InterleavedContent(r.cigar, r.query);
    InterleavedLength(r.cigar, r.query);
    UngappedAppend(Gaps(r.refStart), Interleaved(r.cigar, r.query));
    UngappedGaps(r.refStart);
  }

  /** A row's length is `refStart` plus the M and D lengths when the query is
      as long as its M, I and S operations together. */
  lemma RowLength(r: Read)
    requires |r.query| >= LengthOf(r.cigar, {0, 1, 4})
    ensures |RowOf(r)| == r.refStart + LengthOf(r.cigar, {0, 2})
  {
    RowLeadingGaps(r.refStart, r.cigar, r.query);
    InterleavedLength(r.cigar, r.query);
  }

  /** `aligned_seqs` after the given reads; a read on a reference missing from
      the FASTA raises KeyError. */
  function Rows(alignments: seq<Read>, refs: set<string>): (o: Outcome<RowMap>)
    ensures o.Ok? ==> o.value.Valid()
  {
    if alignments == [] then Ok(EmptyDict())
    else
      match Rows(alignments[..|alignments| - 1], refs)
      case Crash(e) => Crash(e)
      case Ok(d) =>
        var r := alignments[|alignments| - 1];
        if r.unmapped then Ok(d)
        else if r.refName !in refs then Crash("KeyError")
        else Ok(d.Put(r.name, RowOf(r)))
  }

  /** The read loop. */
  method CollectRows(alignments: seq<Read>, refs: set<string>) returns (o: Outcome<RowMap>)
    ensures o == Rows(alignments, refs)
  {
    var d := EmptyDict();
    for i := 0 to |alignments|
      invariant Rows(alignments[..i], refs) == Ok(d)
      invariant d.Valid()
    {
      assert alignments[..i + 1][..i] == alignments[..i];
      var r := alignments[i];
      if r.unmapped {
        continue;
      }
      if r.refName !in refs {
        o := Crash("KeyError");
        assert Rows(alignments[..i + 1], refs) == o;
        RowsCrashSticks(alignments, refs, i + 1);
        return;
      }
      var row := BuildRow(r);
      d := d.Put(r.name, row);
    }
    assert alignments[..|alignments|] == alignments;
    o := Ok(d);
  }

  lemma {:induction false} RowsCrashSticks(alignments: seq<Read>, refs: set<string>, n: nat)
    requires n <= |alignments| && Rows(alignments[..n], refs).Crash?
    ensures Rows(alignments, refs) == Rows(alignments[..n], refs)
    decreases |alignments| - n
  {
    if n < |alignments| {
      assert alignments[..n + 1][..n] == alignments[..n];
      RowsCrashSticks(alignments, refs, n + 1);
    } else {
      assert alignments[..n] == alignments;
    }
  }

  /** Some mapped read carries `name`. */
  ghost predicate Mapped(alignments: seq<Read>, name: string) {
    exists k | 0 <= k < |alignments| :: !alignments[k].unmapped && alignments[k].name == name
  }

  /** Read `k` is the last mapped read carrying `name`. */
  ghost predicate LastMapped(alignments: seq<Read>, name: string, k: nat) {
    && k < |alignments| && !alignments[k].unmapped && alignments[k].name == name
    && forall j | k < j < |alignments| :: alignments[j].unmapped || alignments[j].name != name
  }

  lemma RowsFront(alignments: seq<Read>, refs: set<string>)
    requires alignments != [] && Rows(alignments, refs).Ok?
    ensures var front := alignments[..|alignments| - 1];
      var r := alignments[|alignments| - 1];
      && Rows(front, refs).Ok?
      && Rows(alignments, refs).value ==
           if r.unmapped then Rows(front, refs).value else Rows(front, refs).value.Put(r.name, RowOf(r))
  {
  }

  /** Every mapped read names a reference of the FASTA. */
  ghost predicate RefsKnown(alignments: seq<Read>, refs: set<string>) {
    forall k | 0 <= k < |alignments| :: alignments[k].unmapped || alignments[k].refName in refs
  }

  lemma RefsKnownSnoc(alignments: seq<Read>, refs: set<string>)
    requires alignments != []
    ensures var r := alignments[|alignments| - 1];
      RefsKnown(alignments, refs) <==>
        RefsKnown(alignments[..|alignments| - 1], refs) && (r.unmapped || r.refName in refs)
  {
    var front := alignments[..|alignments| - 1];
    if RefsKnown(front, refs) && (alignments[|alignments| - 1].unmapped || alignments[|alignments| - 1].refName in refs) {
      forall k | 0 <= k < |alignments|
        ensures alignments[k].unmapped || alignments[k].refName in refs
      {
        if k < |front| {
          assert alignments[k] == front[k];
        }
      }
    }
  }

  /** The read loop fails exactly when a mapped read names a reference
      missing from the FASTA, and then with KeyError. */
  lemma {:induction false} RowsOk(alignments: seq<Read>, refs: set<string>)
    ensures Rows(alignments, refs).Ok? <==> RefsKnown(alignments, refs)
    ensures Rows(alignments, refs).Crash? ==> Rows(alignments, refs).reason == "KeyError"
  {
    if alignments != [] {
      RowsOk(alignments[..|alignments| - 1], refs);
      RefsKnownSnoc(alignments, refs);
    }
  }

  /** Unmapped reads produce no row; every mapped read leaves a row under its
      name. */
  lemma {:induction false} RowsKeys(alignments: seq<Read>, refs: set<string>, name: string)
    requires Rows(alignments, refs).Ok?
    ensures name in Rows(alignments, refs).value.entries <==> Mapped(alignments, name)
  {
    if alignments != [] {
      var front := alignments[..|alignments| - 1];
      RowsFront(alignments, refs);
      RowsKeys(front, refs, name);
      if Mapped(front, name) {
        var k :| 0 <= k < |front| && !front[k].unmapped && front[k].name == name;
        assert alignments[k] == front[k];
      }
      if Mapped(alignments, name) {
        var k :| 0 <= k < |alignments| && !alignments[k].unmapped && alignments[k].name == name;
        if k < |front| {
          assert front[k] == alignments[k];
        }
      }
    }
  }

  lemma LastMappedFront(alignments: seq<Read>, name: string, k: nat)
    requires alignments != []
    requires LastMapped(alignments[..|alignments| - 1], name, k)
    requires alignments[|alignments| - 1].unmapped || alignments[|alignments| - 1].name != name
    ensures LastMapped(alignments, name, k)
  {
    var front := alignments[..|alignments| - 1];
    assert alignments[k] == front[k];
    forall j | k < j < |alignments|
      ensures alignments[j].unmapped || alignments[j].name != name
    {
      if j < |front| {
        assert alignments[j] == front[j];
      }
    }
  }

  /** A name's row is the one of its last mapped read: a later read of the
      same name replaces the earlier row. */
  lemma {:induction false} RowsLast(alignments: seq<Read>, refs: set<string>, name: string)
    requires Rows(alignments, refs).Ok?
    requires name in Rows(alignments, refs).value.entries
    ensures exists k: nat :: LastMapped(alignments, name, k) && Rows(alignments, refs).value.entries[name] == RowOf(alignments[k])
  {
    var front := alignments[..|alignments| - 1];
    var r := alignments[|alignments| - 1];
    RowsFront(alignments, refs);
    var d := Rows(front, refs).value;
    if !r.unmapped && r.name == name {
      assert LastMapped(alignments, name, |alignments| - 1);
    } else {
      assert name in d.entries && Rows(alignments, refs).value.entries[name] == d.entries[name];
      RowsLast(front, refs, name);
      var k: nat :| LastMapped(front, name, k) && d.entries[name] == RowOf(front[k]);
      LastMappedFront(alignments, name, k);
      assert alignments[k] == front[k];
    }
  }

  /** `max(len(seq) for seq in aligned_seqs.values())` */
  function MaxLength(rows: seq<string>): (m: nat)
    requires rows != []
    ensures forall i | 0 <= i < |rows| :: |rows[i]| <= m
    ensures exists i | 0 <= i < |rows| :: |rows[i]| == m
  {
    if |rows| == 1 then |rows[0]|
    else
      var m := MaxLength(rows[..|rows| - 1]);
      assert forall i | 0 <= i < |rows| - 1 :: rows[..|rows| - 1][i] == rows[i];
      if |rows[|rows| - 1]| > m then |rows[|rows| - 1]| else m
  }

  /** From position `from` on, `s` holds gaps only. */
  ghost predicate GapsFrom(s: string, from: nat) {
    forall k | from <= k < |s| :: s[k] == '-'
  }

  /** `seq.ljust(width, '-')` */
  function PadTo(s: string, width: nat): (p: string)
    ensures |s| <= width ==> |p| == width
    ensures |s| >= width ==> p == s
    ensures |p| >= |s| && p[..|s|] == s
    ensures GapsFrom(p, |s|)
  {
    if |s| >= width then s else s + Gaps(width - |s|)
  }

  /** The written FASTA: a header and a padded row per name, in the order
      names were first seen; no mapped read at all makes `max` raise. */
  function Output(d: ODict<string, string>): (o: Outcome<seq<string>>)
    requires d.Valid()
  {
    if d.keys == [] then Crash("ValueError")
    else
      var rows := d.Values();
      var width := MaxLength(rows);
      Ok(Records(d.keys, rows, width))
  }

  function Records(names: seq<string>, rows: seq<string>, width: nat): (lines: seq<string>)
    requires |names| == |rows|
    ensures |lines| == 2 * |names|
  {
    if names == [] then []
    else
      Records(names[..|names| - 1], rows[..|rows| - 1], width)
        + [">" + names[|names| - 1], PadTo(rows[|rows| - 1], width)]
  }

  lemma {:induction false} RecordsAt(names: seq<string>, rows: seq<string>, width: nat, i: nat)
    requires |names| == |rows| && i < |names|
    ensures Records(names, rows, width)[2 * i] == ">" + names[i]
    ensures Records(names, rows, width)[2 * i + 1] == PadTo(rows[i], width)
  {
    if i < |names| - 1 {
      RecordsAt(names[..|names| - 1], rows[..|rows| - 1], width, i);
    }
  }

  lemma RecordsSnoc(names: seq<string>, rows: seq<string>, width: nat, i: nat)
    requires |names| == |rows| && i < |names|
    ensures Records(names[..i + 1], rows[..i + 1], width)
         == Records(names[..i], rows[..i], width) + [">" + names[i], PadTo(rows[i], width)]
  {
    assert names[..i + 1][..i] == names[..i] && rows[..i + 1][..i] == rows[..i];
  }

  /** The writing loop: the longest row's length, then each name's header and
      padded row. */
  method WriteFasta(d: RowMap) returns (o: Outcome<seq<string>>)
    requires d.Valid()
    ensures o == Output(d)
  {
    if d.keys == [] {
      return Crash("ValueError");
    }
    var rows := d.Values();
    var width := MaxLength(rows);
    var lines: seq<string> := [];
    for i := 0 to |d.keys|
      invariant lines == Records(d.keys[..i], rows[..i], width)
    {
      var name := d.keys[i];
      var padded := PadTo(d.entries[name], width);
      RecordsSnoc(d.keys, rows, width, i);
      lines := lines + [">" + name, padded];
    }
    assert d.keys[..|d.keys|] == d.keys && rows[..|rows|] == rows;
    return Ok(lines);
  }

  /** Every written row has the length of the longest row, begins with its
      unpadded row and continues with gaps only. */
  lemma OutputSpec(d: ODict<string, string>, i: nat)
    requires d.Valid() && i < |d.keys|
    ensures Output(d).Ok?
    ensures var lines := Output(d).value;
      var width := MaxLength(d.Values());
      && |lines| == 2 * |d.keys|
      && lines[2 * i] == ">" + d.keys[i]
      && |lines[2 * i + 1]| == width
      && lines[2 * i + 1][..|d.entries[d.keys[i]]|] == d.entries[d.keys[i]]
      && GapsFrom(lines[2 * i + 1], |d.entries[d.keys[i]]|)
      && (forall k | 0 <= k < |d.keys| :: |d.entries[d.keys[k]]| <= width)
  {
    var rows := d.Values();
    RecordsAt(d.keys, rows, MaxLength(rows), i);
  }
}
