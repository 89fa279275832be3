/** The GFF3 merger: consecutive features on the same sequence that carry the
    same Target id and start before the pending feature's end plus a distance
    are joined into one feature, whose Target length is the sum of theirs. */
module Gff3Merger {
  import opened Common
  import opened Strings

  // ------------------------------------------------------------ the Target attribute

  /** `attr.split('=')` of a part that starts with `Target=` first splits at that '='. */
  lemma TargetSplit(part: string)
    requires StartsWith(part, "Target=")
    ensures Split(part, "=") == ["Target"] + Split(part[7..], "=")
  {
    assert part[..7] == "Target=";
    assert part[6..][..1] == "=";
    forall j | 0 <= j < 6
      ensures !StartsWith(part[j..], "=")
    {
      assert part[j..][..1] == [part[j]];
    }
    FindAt(part, "=", 6);
    assert part[..6] == "Target";
  }

  /** `attr.split('=')[1]`: the value of a `Target=` part, up to any further '='. */
  function TargetText(part: string): string
    requires StartsWith(part, "Target=")
  {
    TargetSplit(part);
    Split(part, "=")[1]
  }

  /** The part both `parse_target` and `update_target_length` act on: it starts
      with `Target=` and its value has at least three tokens. */
  predicate Qualifies(part: string) {
    StartsWith(part, "Target=") && |Words(TargetText(part))| >= 3
  }

  /** The whitespace-separated tokens of a qualifying part's value. */
  function TargetTokens(part: string): (ws: seq<string>)
    requires Qualifies(part)
    ensures |ws| >= 3
  {
    Words(TargetText(part))
  }

  /** Index of the first true flag, if any. */
  function FirstTrue(flags: seq<bool>): (r: Option<nat>)
    ensures r.Some? ==> r.value < |flags| && flags[r.value]
  {
    if flags == [] then None
    else if flags[0] then Some(0)
    else
      match FirstTrue(flags[1..])
      case None => None
      case Some(i) => Some(i + 1)
  }

  /** The flag found is true and none before it is; when none is found, all
      flags are false. */
  lemma {:induction false} FirstTrueSpec(flags: seq<bool>)
    ensures var r := FirstTrue(flags);
      && (r.Some? ==> forall j | 0 <= j < r.value :: !flags[j])
      && (r.None? <==> forall j | 0 <= j < |flags| :: !flags[j])
  {
    if flags != [] && !flags[0] {
      FirstTrueSpec(flags[1..]);
      assert forall j | 0 < j < |flags| :: flags[j] == flags[1..][j - 1];
    }
  }

  /** A true flag with none before it is the one found. */
  lemma {:induction false} FirstTrueAt(flags: seq<bool>, i: nat)
    requires i < |flags| && flags[i]
    requires forall j | 0 <= j < i :: !flags[j]
    ensures FirstTrue(flags) == Some(i)
  {
    if i > 0 {
      FirstTrueAt(flags[1..], i - 1);
    }
  }

  /** Which of the `;`-separated parts qualify. */
  function Qualifying(parts: seq<string>): (flags: seq<bool>)
    ensures |flags| == |parts|
  {
    seq(|parts|, j requires 0 <= j < |parts| => Qualifies(parts[j]))
  }

  /** Where both loops over the `;`-separated parts stop: the first qualifying
      part, if there is one. */
  function FirstTarget(parts: seq<string>): (r: Option<nat>)
    ensures r.Some? ==> r.value < |parts| && Qualifies(parts[r.value])
  {
    FirstTrue(Qualifying(parts))
  }

  /** The part found qualifies and none before it does; when none is found,
      no part qualifies. */
  lemma FirstTargetSpec(parts: seq<string>)
    ensures var r := FirstTarget(parts);
      && (r.Some? ==> forall j | 0 <= j < r.value :: !Qualifies(parts[j]))
      && (r.None? <==> forall j | 0 <= j < |parts| :: !Qualifies(parts[j]))
  {
    var flags := Qualifying(parts);
    FirstTrueSpec(flags);
    forall j | 0 <= j < |parts| && !flags[j]
      ensures !Qualifies(parts[j])
    {
    }
  }

  /** `parse_target`: `Ok(None)` is its `(None, 0)` answer, and a third token
      that is not an integer is `int()`'s ValueError. */
  function ParseTarget(attributes: string): Outcome<Option<(string, int)>> {
    var parts := Split(attributes, ";");
    match FirstTarget(parts)
    case None => Ok(None)
    case Some(i) =>
      var ws := TargetTokens(parts[i]);
      match PyInt(ws[2])
      case None => Crash("ValueError: invalid literal for int()")
      case Some(n) => Ok(Some((ws[0], n)))
  }

  /** A qualifying part rewritten with `n` as its third token. */
  function Retarget(part: string, n: int): string
    requires Qualifies(part)
  {
    "Target=" + Join(TargetTokens(part)[2 := IntToString(n)], " ")
  }

  /** The parts after `update_target_length`'s loop: the first qualifying part
      is rewritten and the loop stops there. */
  function Updated(parts: seq<string>, n: int): (r: seq<string>)
    ensures |r| == |parts|
  {
    if parts == [] then []
    else if Qualifies(parts[0]) then [Retarget(parts[0], n)] + parts[1..]
    else [parts[0]] + Updated(parts[1..], n)
  }

  /** The attributes text `update_target_length` returns. */
  function UpdateTarget(attributes: string, n: int): string {
    Join(Updated(Split(attributes, ";"), n), ";")
  }

  /** `update_target_length`: rewrites the first qualifying part in the list of
      parts, then joins them again. */
  method UpdateTargetLength(attributes: string, newLength: int) returns (r: string)
    ensures r == UpdateTarget(attributes, newLength)
  {
    var parts := Split(attributes, ";");
    var i := 0;
    while i < |parts|
      invariant 0 <= i <= |parts|
      invariant parts == Split(attributes, ";")
      invariant Updated(parts, newLength) == parts[..i] + Updated(parts[i..], newLength)
    {
      if StartsWith(parts[i], "Target=") {
        var values := Words(TargetText(parts[i]));
        if |values| >= 3 {
          UpdatedHit(parts, i, newLength);
          values := values[2 := IntToString(newLength)];
          assert "Target=" + Join(values, " ") == Retarget(parts[i], newLength);
          parts := parts[i := "Target=" + Join(values, " ")];
          return Join(parts, ";");
        }
      }
      UpdatedSkip(parts, i, newLength);
      i := i + 1;
    }
    assert parts[i..] == [] && Updated([], newLength) == [];
    assert parts[..i] + [] == parts;
    r := Join(parts, ";");
  }

  /** Passing over a part that does not qualify. */
  lemma UpdatedSkip(parts: seq<string>, i: nat, n: int)
    requires i < |parts| && !Qualifies(parts[i])
    ensures parts[..i] + Updated(parts[i..], n) == parts[..i + 1] + Updated(parts[i + 1..], n)
  {
    assert parts[i..][1..] == parts[i + 1..];
    assert Updated(parts[i..], n) == [parts[i]] + Updated(parts[i + 1..], n);
    MoveFront(parts, i, Updated(parts[i + 1..], n));
  }

  /** Moving the element at `i` from the front of the rest to the end of the prefix. */
  lemma MoveFront<T>(xs: seq<T>, i: nat, rest: seq<T>)
    requires i < |xs|
    ensures xs[..i] + ([xs[i]] + rest) == xs[..i + 1] + rest
  {
    assert xs[..i + 1] == xs[..i] + [xs[i]];
  }

  /** Stopping at a qualifying part. */
  lemma UpdatedHit(parts: seq<string>, i: nat, n: int)
    requires i < |parts| && Qualifies(parts[i])
    ensures parts[..i] + Updated(parts[i..], n) == parts[i := Retarget(parts[i], n)]
  {
    assert parts[i..][1..] == parts[i + 1..];
  }

  /** The flags of the parts after the first are the flags after the first. */
  lemma QualifyingTail(parts: seq<string>)
    requires parts != []
    ensures Qualifying(parts)[0] == Qualifies(parts[0])
    ensures forall j | 0 <= j < |parts| - 1 :: Qualifying(parts[1..])[j] == Qualifying(parts)[j + 1]
  {
  }

  /** Replacing the head of a sequence. */
  lemma HeadUpdate<T>(xs: seq<T>, x: T)
    requires xs != []
    ensures [x] + xs[1..] == xs[0 := x]
  {
  }

  /** Replacing an element after the head of a sequence. */
  lemma TailUpdate<T>(xs: seq<T>, i: nat, x: T, ys: seq<T>)
    requires 0 < i < |xs| && ys == xs[1..][i - 1 := x]
    ensures [xs[0]] + ys == xs[i := x]
  {
  }

  /** The first qualifying part is the one rewritten. */
  lemma {:induction false} UpdatedAt(parts: seq<string>, i: nat, n: int)
    requires i < |parts| && Qualifies(parts[i])
    requires forall j | 0 <= j < i :: !Qualifying(parts)[j]
    ensures Updated(parts, n) == parts[i := Retarget(parts[i], n)]
  {
    QualifyingTail(parts);
    if i == 0 {
      HeadUpdate(parts, Retarget(parts[0], n));
    } else {
      UpdatedAt(parts[1..], i - 1, n);
      TailUpdate(parts, i, Retarget(parts[i], n), Updated(parts[1..], n));
    }
  }

  /** Without a qualifying part nothing is rewritten. */
  lemma {:induction false} UpdatedNone(parts: seq<string>, n: int)
    requires forall j | 0 <= j < |parts| :: !Qualifying(parts)[j]
    ensures Updated(parts, n) == parts
  {
    if parts != [] {
      QualifyingTail(parts);
      UpdatedNone(parts[1..], n);
      HeadTail(parts, Updated(parts[1..], n));
    }
  }

  /** `Updated` rewrites the part `FirstTarget` finds, and only that part. */
  lemma UpdatedByFirst(parts: seq<string>, n: int)
    ensures Updated(parts, n) == match FirstTarget(parts)
      case None => parts
      case Some(i) => parts[i := Retarget(parts[i], n)]
  {
    var flags := Qualifying(parts);
    FirstTrueSpec(flags);
    match FirstTarget(parts)
    case None =>
      UpdatedNone(parts, n);
    case Some(i) =>
      UpdatedAt(parts, i, n);
  }

  /** `str(n)` is a single token. */
  lemma IntToStringWord(n: int)
    ensures IsWord(IntToString(n))
    ensures forall c | c in IntToString(n) :: IsDigit(c) || c == '-'
  {
  }

  /** A rewritten part is made of the original part's characters, spaces and
      the characters of `str(n)`. */
  lemma RetargetChars(part: string, n: int)
    requires Qualifies(part)
    ensures forall c | c in Retarget(part, n) :: c in part || c == ' ' || IsDigit(c) || c == '-'
  {
    var text := TargetText(part);
    var ws := TargetTokens(part);
    var ws' := ws[2 := IntToString(n)];
    TargetSplit(part);
    SplitPieceIn(part, "=", 1);
    WordsIn(text);
    JoinChars(ws', " ");
    IntToStringWord(n);
    assert forall c | c in "Target=" :: c in part by {
      assert part[..7] == "Target=";
    }
    forall c | c in Join(ws', " ")
      ensures c in part || c == ' ' || IsDigit(c) || c == '-'
    {
      if c != ' ' {
        var k :| 0 <= k < |ws'| && c in ws'[k];
        if k != 2 {
          assert c in ws[k];
        }
      }
    }
  }

  /** The rewritten part qualifies again, and its tokens are the original ones
      with the third replaced by `str(n)`. */
  lemma RetargetTokens(part: string, n: int)
    requires Qualifies(part)
    ensures Qualifies(Retarget(part, n))
    ensures TargetTokens(Retarget(part, n)) == TargetTokens(part)[2 := IntToString(n)]
  {
    var text := TargetText(part);
    var ws := TargetTokens(part);
    var ws' := ws[2 := IntToString(n)];
    var joined := Join(ws', " ");
    var r := Retarget(part, n);
    assert r[..7] == "Target=" && r[7..] == joined;
    TargetSplit(part);
    SplitNoSep(part, "=");
    NoChar(text, '=');
    WordsIn(text);
    IntToStringWord(n);
    JoinChars(ws', " ");
    forall c | c in joined
      ensures c != '='
    {
      if c != ' ' {
        var k :| 0 <= k < |ws'| && c in ws'[k];
        if k != 2 {
          assert c in ws[k];
        }
      }
    }
    NoCharNoFind(joined, '=');
    TargetSplit(r);
    assert TargetText(r) == joined;
    WordsAreWords(text);
    WordsOfJoin(ws');
  }

  /** A true flag with the flags before it unchanged stays the first. */
  lemma {:induction false} FirstTrueSame(flags: seq<bool>, up: seq<bool>, i: nat)
    requires FirstTrue(flags) == Some(i)
    requires i < |up| && up[i]
    requires forall j | 0 <= j < i :: up[j] == flags[j]
    ensures FirstTrue(up) == Some(i)
  {
    FirstTrueSpec(flags);
    FirstTrueAt(up, i);
  }

  lemma QualifyingPrefix(parts: seq<string>, up: seq<string>, i: nat)
    requires i <= |parts| == |up|
    requires forall j | 0 <= j < i :: up[j] == parts[j]
    ensures forall j | 0 <= j < i :: Qualifying(up)[j] == Qualifying(parts)[j]
  {
  }

  /** The rewritten part is still the first qualifying one. */
  lemma RetargetFirst(parts: seq<string>, i: nat, n: int)
    requires FirstTarget(parts) == Some(i)
    ensures FirstTarget(parts[i := Retarget(parts[i], n)]) == Some(i)
  {
    var up := parts[i := Retarget(parts[i], n)];
    QualifyingPrefix(parts, up, i);
    RetargetTokens(parts[i], n);
    FirstTrueSame(Qualifying(parts), Qualifying(up), i);
  }

  /** No `;`-separated part holds a ';'. */
  lemma PartsNoSemicolon(attributes: string)
    ensures forall k | 0 <= k < |Split(attributes, ";")| :: ';' !in Split(attributes, ";")[k]
  {
    var parts := Split(attributes, ";");
    SplitNoSep(attributes, ";");
    forall k | 0 <= k < |parts|
      ensures ';' !in parts[k]
    {
      NoChar(parts[k], ';');
    }
  }

  /** `update_target_length` keeps every part but the first qualifying one, and
      reading its result back gives the updated parts with the same first
      qualifying index. */
  lemma SplitUpdate(attributes: string, n: int)
    ensures Split(UpdateTarget(attributes, n), ";") == Updated(Split(attributes, ";"), n)
    ensures FirstTarget(Updated(Split(attributes, ";"), n)) == FirstTarget(Split(attributes, ";"))
  {
    var parts := Split(attributes, ";");
    PartsNoSemicolon(attributes);
    match FirstTarget(parts)
    case None =>
      UpdatedByFirst(parts, n);
      SplitJoin(parts, ';');
    case Some(i) =>
      var up := parts[i := Retarget(parts[i], n)];
      UpdatedByFirst(parts, n);
      RetargetChars(parts[i], n);
      forall k | 0 <= k < |up|
        ensures ';' !in up[k]
      {
        if k != i {
          assert up[k] == parts[k];
        }
      }
      SplitJoin(up, ';');
      RetargetFirst(parts, i, n);
  }

  /** Round trip: after `update_target_length(a, n)`, `parse_target` finds the
      same Target id with length `n`. */
  lemma UpdateThenParse(attributes: string, id: string, m: int, n: int)
    requires ParseTarget(attributes) == Ok(Some((id, m)))
    ensures ParseTarget(UpdateTarget(attributes, n)) == Ok(Some((id, n)))
  {
    var parts := Split(attributes, ";");
    var i := FirstTarget(parts).value;
    SplitUpdate(attributes, n);
    UpdatedByFirst(parts, n);
    RetargetTokens(parts[i], n);
    IntToStringWord(n);
    StripWord(IntToString(n));
    ParseIntToString(n);
  }

  /** Without a qualifying part, `update_target_length` returns its input. */
  lemma UpdateWithoutTarget(attributes: string, n: int)
    requires ParseTarget(attributes) == Ok(None)
    ensures UpdateTarget(attributes, n) == attributes
  {
    UpdatedByFirst(Split(attributes, ";"), n);
    JoinSplit(attributes, ";");
  }

  /** Rewriting the parts twice is rewriting them once with the later length. */
  lemma UpdatedTwice(parts: seq<string>, m: int, n: int)
    ensures Updated(Updated(parts, m), n) == Updated(parts, n)
  {
    UpdatedByFirst(parts, m);
    UpdatedByFirst(parts, n);
    match FirstTarget(parts)
    case None =>
    case Some(i) =>
      var p := parts[i];
      var up := parts[i := Retarget(p, m)];
      RetargetFirst(parts, i, m);
      UpdatedByFirst(up, n);
      RetargetTokens(p, m);
      var ws := TargetTokens(p);
      assert ws[2 := IntToString(m)][2 := IntToString(n)] == ws[2 := IntToString(n)];
      assert Retarget(up[i], n) == Retarget(p, n);
  }

  /** Updating twice is updating once with the later length. */
  lemma UpdateTwice(attributes: string, m: int, n: int)
    ensures UpdateTarget(UpdateTarget(attributes, m), n) == UpdateTarget(attributes, n)
  {
    SplitUpdate(attributes, m);
    UpdatedTwice(Split(attributes, ";"), m, n);
  }

  // ------------------------------------------------------------ input lines

  /** `prev_entry`: the nine columns, start and end as integers, then the Target
      id and length `parse_target` found (`(None, 0)` without a Target). */
  datatype Feature = Feature(
    seqid: string, source: string, kind: string, start: int, end: int,
    score: string, strand: string, phase: string, attributes: string,
    targetId: Option<string>, targetLength: int)

  /** What one line of input is: a `#` header line, a line with fewer than nine
      fields, or a data row. */
  datatype Line = Header | Short | Data(row: Feature)

  /** One input line: `#` lines go to the header; the others are stripped and
      cut at tabs. */
  function ReadLine(line: string): Outcome<Line> {
    if StartsWith(line, "#") then Ok(Header)
    else ReadFields(Split(Strip(line), "\t"))
  }

  /** The tab fields of a data line. Fewer than nine are skipped; more than nine
      make the nine-name unpacking fail; `int()` fails on a non-integer start,
      end or Target length. */
  function ReadFields(fields: seq<string>): Outcome<Line> {
    if |fields| < 9 then Ok(Short)
    else if |fields| > 9 then Crash("ValueError: too many values to unpack")
    else
      var start := PyInt(fields[3]);
      var end := PyInt(fields[4]);
      var target := ParseTarget(fields[8]);
      if start.None? || end.None? then Crash("ValueError: invalid literal for int()")
      else if target.Crash? then Crash(target.reason)
      else
        var id := if target.value.Some? then Some(target.value.value.0) else None;
        var length := if target.value.Some? then target.value.value.1 else 0;
        Ok(Data(Feature(fields[0], fields[1], fields[2], start.value, end.value,
                        fields[5], fields[6], fields[7], fields[8], id, length)))
  }

  /** What each input line is, in order. */
  function Kinds(lines: seq<string>): (kinds: seq<Outcome<Line>>)
    ensures |kinds| == |lines|
  {
    seq(|lines|, k requires 0 <= k < |lines| => ReadLine(lines[k]))
  }

  /** The header lines and the data rows read so far. */
  datatype Input = Input(header: seq<string>, rows: seq<Feature>)

  /** The reading half of the loop over the lines, given what each line is;
      the first failing line ends the run. */
  function Gather(lines: seq<string>, kinds: seq<Outcome<Line>>): Outcome<Input>
    requires |kinds| == |lines|
  {
    if lines == [] then Ok(Input([], []))
    else
      var n := |lines| - 1;
      match Gather(lines[..n], kinds[..n])
      case Crash(e) => Crash(e)
      case Ok(input) =>
        match kinds[n]
        case Crash(e) => Crash(e)
        case Ok(Header) => Ok(input.(header := input.header + [lines[n]]))
        case Ok(Short) => Ok(input)
        case Ok(Data(row)) => Ok(input.(rows := input.rows + [row]))
  }

  function Read(lines: seq<string>): Outcome<Input> {
    Gather(lines, Kinds(lines))
  }

  /** The `#` lines, in order. */
  function Headers(lines: seq<string>): seq<string> {
    if lines == [] then []
    else if StartsWith(lines[|lines| - 1], "#") then Headers(lines[..|lines| - 1]) + [lines[|lines| - 1]]
    else Headers(lines[..|lines| - 1])
  }

  /** Fields never read as a header line. */
  lemma ReadFieldsNotHeader(fields: seq<string>)
    ensures ReadFields(fields) != Ok(Header)
  {
    if |fields| == 9 {
      var start := PyInt(fields[3]);
      var end := PyInt(fields[4]);
      var target := ParseTarget(fields[8]);
      if !(start.None? || end.None? || target.Crash?) {
        assert ReadFields(fields).value.Data?;
      }
    }
  }

  /** A line is a header line exactly when it starts with `#`. */
  lemma ReadLineHeader(line: string)
    ensures ReadLine(line) == Ok(Header) <==> StartsWith(line, "#")
  {
    ReadFieldsNotHeader(Split(Strip(line), "\t"));
  }

  lemma KindsHeader(lines: seq<string>)
    ensures forall k | 0 <= k < |lines| :: Kinds(lines)[k] == Ok(Header) <==> StartsWith(lines[k], "#")
  {
    forall k | 0 <= k < |lines|
      ensures Kinds(lines)[k] == Ok(Header) <==> StartsWith(lines[k], "#")
    {
      ReadLineHeader(lines[k]);
    }
  }

  lemma {:induction false} GatherHeader(lines: seq<string>, kinds: seq<Outcome<Line>>)
    requires |kinds| == |lines| && Gather(lines, kinds).Ok?
    requires forall k | 0 <= k < |lines| :: kinds[k] == Ok(Header) <==> StartsWith(lines[k], "#")
    ensures Gather(lines, kinds).value.header == Headers(lines)
    ensures |Gather(lines, kinds).value.header| + |Gather(lines, kinds).value.rows| <= |lines|
  {
    if lines != [] {
      var n := |lines| - 1;
      GatherHeader(lines[..n], kinds[..n]);
    }
  }

  /** The header is exactly the `#` lines in order; every other line gives at
      most one row. */
  lemma ReadHeader(lines: seq<string>)
    requires Read(lines).Ok?
    ensures Read(lines).value.header == Headers(lines)
    ensures |Read(lines).value.header| + |Read(lines).value.rows| <= |lines|
  {
    KindsHeader(lines);
    GatherHeader(lines, Kinds(lines));
  }

  lemma {:induction false} GatherFails(lines: seq<string>, kinds: seq<Outcome<Line>>)
    requires |kinds| == |lines|
    ensures Gather(lines, kinds).Crash? <==> exists k | 0 <= k < |kinds| :: kinds[k].Crash?
  {
    if lines != [] {
      var n := |lines| - 1;
      GatherFails(lines[..n], kinds[..n]);
      assert forall k | 0 <= k < n :: kinds[..n][k] == kinds[k];
    }
  }

  /** A run fails exactly when some line fails to read. */
  lemma ReadFails(lines: seq<string>)
    ensures Read(lines).Crash? <==> exists k | 0 <= k < |lines| :: ReadLine(lines[k]).Crash?
  {
    GatherFails(lines, Kinds(lines));
    if exists k | 0 <= k < |lines| :: ReadLine(lines[k]).Crash? {
      var k :| 0 <= k < |lines| && ReadLine(lines[k]).Crash?;
      assert Kinds(lines)[k].Crash?;
    }
  }

  /** A failure in a prefix is the failure of the whole run. */
  lemma {:induction false} GatherCrashStays(lines: seq<string>, kinds: seq<Outcome<Line>>, i: nat)
    requires |kinds| == |lines| && i <= |lines| && Gather(lines[..i], kinds[..i]).Crash?
    ensures Gather(lines, kinds) == Gather(lines[..i], kinds[..i])
    decreases |lines| - i
  {
    if i < |lines| {
      assert lines[..i + 1][..i] == lines[..i];
      assert kinds[..i + 1][..i] == kinds[..i];
      GatherCrashStays(lines, kinds, i + 1);
    } else {
      assert lines[..i] == lines && kinds[..i] == kinds;
    }
  }

  /** The read step of the loop for line `i`. */
  lemma GatherStep(lines: seq<string>, kinds: seq<Outcome<Line>>, i: nat)
    requires |kinds| == |lines| && i < |lines| && Gather(lines[..i], kinds[..i]).Ok?
    ensures var input := Gather(lines[..i], kinds[..i]).value;
      Gather(lines[..i + 1], kinds[..i + 1]) == match kinds[i]
        case Crash(e) => Crash(e)
        case Ok(Header) => Ok(input.(header := input.header + [lines[i]]))
        case Ok(Short) => Ok(input)
        case Ok(Data(row)) => Ok(input.(rows := input.rows + [row]))
  {
    assert lines[..i + 1][..i] == lines[..i];
    assert kinds[..i + 1][..i] == kinds[..i];
  }

  /** The row a data line gives carries the Target id and length `parse_target`
      reads from its attributes. */
  ghost predicate Consistent(f: Feature) {
    match f.targetId
    case None => ParseTarget(f.attributes) == Ok(None) && f.targetLength == 0
    case Some(id) => ParseTarget(f.attributes) == Ok(Some((id, f.targetLength)))
  }

  /** No column holds a tab. */
  predicate TabFree(f: Feature) {
    && '\t' !in f.seqid && '\t' !in f.source && '\t' !in f.kind && '\t' !in f.score
    && '\t' !in f.strand && '\t' !in f.phase && '\t' !in f.attributes
    && (f.targetId.Some? ==> '\t' !in f.targetId.value)
  }

  lemma ReadFieldsConsistent(fields: seq<string>)
    requires ReadFields(fields).Ok? && ReadFields(fields).value.Data?
    ensures Consistent(ReadFields(fields).value.row)
  {
  }

  /** The Target id `parse_target` reads is a word, so it holds no tab. */
  lemma TargetIdTabFree(attributes: string)
    requires ParseTarget(attributes).Ok? && ParseTarget(attributes).value.Some?
    ensures '\t' !in ParseTarget(attributes).value.value.0
  {
    var parts := Split(attributes, ";");
    match FirstTarget(parts)
    case None =>
    case Some(i) =>
      var ws := TargetTokens(parts[i]);
      assert IsWord(ws[0]);
      forall j | 0 <= j < |ws[0]|
        ensures ws[0][j] != '\t'
      {
        assert !IsSpace(ws[0][j]);
      }
  }

  lemma ReadFieldsTabFree(fields: seq<string>)
    requires ReadFields(fields).Ok? && ReadFields(fields).value.Data?
    requires forall k | 0 <= k < |fields| :: '\t' !in fields[k]
    ensures TabFree(ReadFields(fields).value.row)
  {
    if ParseTarget(fields[8]).value.Some? {
      TargetIdTabFree(fields[8]);
    }
    assert '\t' !in fields[0] && '\t' !in fields[1] && '\t' !in fields[2];
    assert '\t' !in fields[5] && '\t' !in fields[6] && '\t' !in fields[7] && '\t' !in fields[8];
  }

  /** Every data row read carries the Target `parse_target` reads from it, and
      no column of it holds a tab. */
  lemma ReadLineRow(line: string)
    requires ReadLine(line).Ok? && ReadLine(line).value.Data?
    ensures Consistent(ReadLine(line).value.row)
    ensures TabFree(ReadLine(line).value.row)
  {
    var fields := Split(Strip(line), "\t");
    SplitNoSep(Strip(line), "\t");
    forall k | 0 <= k < |fields|
      ensures '\t' !in fields[k]
    {
      NoChar(fields[k], '\t');
    }
    ReadFieldsConsistent(fields);
    ReadFieldsTabFree(fields);
  }

  lemma {:induction false} GatherRows(lines: seq<string>, kinds: seq<Outcome<Line>>)
    requires |kinds| == |lines| && Gather(lines, kinds).Ok?
    requires forall k | 0 <= k < |kinds| && kinds[k].Ok? && kinds[k].value.Data? ::
      Consistent(kinds[k].value.row) && TabFree(kinds[k].value.row)
    ensures forall j | 0 <= j < |Gather(lines, kinds).value.rows| ::
      Consistent(Gather(lines, kinds).value.rows[j]) && TabFree(Gather(lines, kinds).value.rows[j])
  {
    if lines != [] {
      var n := |lines| - 1;
      assert forall k | 0 <= k < n :: kinds[..n][k] == kinds[k];
      GatherRows(lines[..n], kinds[..n]);
    }
  }

  /** Every row read carries its own Target and no tab. */
  lemma ReadRows(lines: seq<string>)
    requires Read(lines).Ok?
    ensures forall j | 0 <= j < |Read(lines).value.rows| ::
      Consistent(Read(lines).value.rows[j]) && TabFree(Read(lines).value.rows[j])
  {
    var kinds := Kinds(lines);
    forall k | 0 <= k < |kinds| && kinds[k].Ok? && kinds[k].value.Data?
      ensures Consistent(kinds[k].value.row) && TabFree(kinds[k].value.row)
    {
      ReadLineRow(lines[k]);
    }
    GatherRows(lines, kinds);
  }

  // ------------------------------------------------------------ merging

  /** The merge test of the loop: same sequence, same Target id (`None` matching
      `None`), and the row starts before the pending end plus the distance. */
  predicate Mergeable(pending: Feature, row: Feature, distance: int) {
    row.seqid == pending.seqid && row.targetId == pending.targetId
    && row.start < pending.end + distance
  }

  /** Extending the pending feature by a row: the end becomes the row's end and
      the row's Target length is added, in the attributes too. */
  function Extend(pending: Feature, row: Feature): Feature {
    ExtendedBy(pending, row, UpdateTarget(pending.attributes, pending.targetLength + row.targetLength))
  }

  /** `Extend` is the in-place update with the rewritten attributes. */
  lemma ExtendIs(pending: Feature, row: Feature, attributes: string)
    requires attributes == UpdateTarget(pending.attributes, pending.targetLength + row.targetLength)
    ensures Extend(pending, row) == ExtendedBy(pending, row, attributes)
  {
    assert Extend(pending, row) == ExtendedBy(pending, row,
      UpdateTarget(pending.attributes, pending.targetLength + row.targetLength));
  }

  /** The in-place update of `prev_entry`, given the new attributes text. */
  function ExtendedBy(pending: Feature, row: Feature, attributes: string): Feature {
    pending.(end := row.end, targetLength := pending.targetLength + row.targetLength,
             attributes := attributes)
  }

  /** The attributes of an extended feature carry the summed Target length. */
  lemma ExtendAttributes(pending: Feature, row: Feature)
    ensures Extend(pending, row).attributes
      == UpdateTarget(pending.attributes, pending.targetLength + row.targetLength)
  {
    var a := UpdateTarget(pending.attributes, pending.targetLength + row.targetLength);
    assert Extend(pending, row) == ExtendedBy(pending, row, a);
    assert ExtendedBy(pending, row, a).attributes == a;
  }

  /** The columns of an extended feature. */
  lemma ExtendFields(pending: Feature, row: Feature)
    ensures var e := Extend(pending, row);
      && e.seqid == pending.seqid && e.source == pending.source && e.kind == pending.kind
      && e.start == pending.start && e.score == pending.score && e.strand == pending.strand
      && e.phase == pending.phase && e.targetId == pending.targetId
      && e.end == row.end && e.targetLength == pending.targetLength + row.targetLength
      && e.attributes == UpdateTarget(pending.attributes, e.targetLength)
  {
    ExtendAttributes(pending, row);
  }

  /** The features the loop emits for `rows`; the last one is `prev_entry`. */
  function Merge(rows: seq<Feature>, distance: int): (fs: seq<Feature>)
    ensures |fs| <= |rows|
    ensures rows != [] ==> fs != []
  {
    if rows == [] then []
    else
      var fs := Merge(rows[..|rows| - 1], distance);
      var row := rows[|rows| - 1];
      if fs != [] && Mergeable(fs[|fs| - 1], row, distance) then
        fs[..|fs| - 1] + [Extend(fs[|fs| - 1], row)]
      else fs + [row]
  }

  /** Extending a tab-free feature by a tab-free row gives a tab-free feature. */
  lemma ExtendTabFree(pending: Feature, row: Feature)
    requires TabFree(pending) && TabFree(row)
    ensures TabFree(Extend(pending, row))
  {
    UpdateChars(pending.attributes, pending.targetLength + row.targetLength);
  }

  /** `update_target_length` brings in no character but spaces and those of `str(n)`. */
  lemma UpdateChars(attributes: string, n: int)
    ensures forall c | c in UpdateTarget(attributes, n) :: c in attributes || c == ' ' || IsDigit(c) || c == '-' || c == ';'
  {
    var parts := Split(attributes, ";");
    var up := Updated(parts, n);
    UpdatedByFirst(parts, n);
    JoinChars(up, ";");
    forall c | c in UpdateTarget(attributes, n)
      ensures c in attributes || c == ' ' || IsDigit(c) || c == '-' || c == ';'
    {
      if c != ';' {
        var k :| 0 <= k < |up| && c in up[k];
        SplitPieceIn(attributes, ";", k);
        match FirstTarget(parts)
        case None =>
        case Some(i) =>
          if k == i {
            RetargetChars(parts[i], n);
          }
      }
    }
  }

  /** No merged feature holds a tab in any column. */
  lemma {:induction false} MergeTabFree(rows: seq<Feature>, distance: int)
    requires forall k | 0 <= k < |rows| :: TabFree(rows[k])
    ensures forall j | 0 <= j < |Merge(rows, distance)| :: TabFree(Merge(rows, distance)[j])
  {
    if rows != [] {
      var front := rows[..|rows| - 1];
      MergeTabFree(front, distance);
      var fs := Merge(front, distance);
      var row := rows[|rows| - 1];
      if fs != [] && Mergeable(fs[|fs| - 1], row, distance) {
        ExtendTabFree(fs[|fs| - 1], row);
      }
    }
  }

  // ------------------------------------------------------------ runs of rows

  /** Each consecutive pair of the run passes the merge test. */
  ghost predicate Chained(run: seq<Feature>, distance: int) {
    forall k | 0 < k < |run| :: Mergeable(run[k - 1], run[k], distance)
  }

  /** The input rows cut wherever a row fails the merge test against the row
      just before it. */
  function Runs(rows: seq<Feature>, distance: int): (runs: seq<seq<Feature>>)
    ensures rows != [] ==> runs != []
  {
    if rows == [] then []
    else
      var runs := Runs(rows[..|rows| - 1], distance);
      var row := rows[|rows| - 1];
      if |rows| > 1 && Mergeable(rows[|rows| - 2], row, distance) then
        runs[..|runs| - 1] + [runs[|runs| - 1] + [row]]
      else runs + [[row]]
  }

  function Flatten<T>(xss: seq<seq<T>>): seq<T> {
    if xss == [] then [] else Flatten(xss[..|xss| - 1]) + xss[|xss| - 1]
  }

  /** Flattening after one more sequence. */
  lemma FlattenSnoc<T>(xss: seq<seq<T>>, xs: seq<T>)
    ensures Flatten(xss + [xs]) == Flatten(xss) + xs
  {
    assert (xss + [xs])[..|xss|] == xss;
  }

  /** Flattening after one more element in the last sequence. */
  lemma FlattenExtend<T>(xss: seq<seq<T>>, x: T)
    requires xss != []
    ensures Flatten(xss[..|xss| - 1] + [xss[|xss| - 1] + [x]]) == Flatten(xss) + [x]
  {
    var init := xss[..|xss| - 1];
    var last := xss[|xss| - 1];
    assert xss == init + [last];
    FlattenSnoc(init, last);
    FlattenSnoc(init, last + [x]);
    ConcatAssoc(Flatten(init), last, [x]);
  }

  /** Together the runs are the rows in order, and the last run ends with the
      last row. */
  lemma {:induction false} RunsFlatten(rows: seq<Feature>, distance: int)
    ensures var runs := Runs(rows, distance);
      && Flatten(runs) == rows
      && (rows != [] ==> runs[|runs| - 1] != [] && runs[|runs| - 1][|runs[|runs| - 1]| - 1] == rows[|rows| - 1])
  {
    if rows != [] {
      var front := rows[..|rows| - 1];
      var row := rows[|rows| - 1];
      var runs := Runs(front, distance);
      RunsFlatten(front, distance);
      assert rows == front + [row];
      if |rows| > 1 && Mergeable(rows[|rows| - 2], row, distance) {
        FlattenExtend(runs, row);
      } else {
        FlattenSnoc(runs, [row]);
      }
    }
  }

  /** Every run is non-empty and chained. */
  ghost predicate AllChained(runs: seq<seq<Feature>>, distance: int) {
    forall j | 0 <= j < |runs| :: runs[j] != [] && Chained(runs[j], distance)
  }

  /** The last row of each run fails the merge test against the first row of
      the next run. */
  ghost predicate AllBroken(runs: seq<seq<Feature>>, distance: int) {
    forall j | 0 < j < |runs| :: BrokenAt(runs, j, distance)
  }

  ghost predicate BrokenAt(runs: seq<seq<Feature>>, j: nat, distance: int)
    requires 0 < j < |runs|
  {
    runs[j - 1] != [] && runs[j] != [] &&
      !Mergeable(runs[j - 1][|runs[j - 1]| - 1], runs[j][0], distance)
  }

  /** A row that passes the merge test against the last row joins the last run. */
  lemma ChainedExtend(runs: seq<seq<Feature>>, row: Feature, distance: int)
    requires runs != [] && AllChained(runs, distance)
    requires Mergeable(runs[|runs| - 1][|runs[|runs| - 1]| - 1], row, distance)
    ensures AllChained(runs[..|runs| - 1] + [runs[|runs| - 1] + [row]], distance)
  {
    var last := runs[|runs| - 1];
    var run := last + [row];
    assert Chained(last, distance);
    forall k | 0 < k < |run|
      ensures Mergeable(run[k - 1], run[k], distance)
    {
      if k < |last| {
        assert run[k - 1] == last[k - 1] && run[k] == last[k];
      }
    }
    var runs' := runs[..|runs| - 1] + [run];
    forall j | 0 <= j < |runs'|
      ensures runs'[j] != [] && Chained(runs'[j], distance)
    {
      if j < |runs| - 1 {
        assert runs'[j] == runs[j];
      }
    }
  }

  /** A row on its own is a chained run. */
  lemma ChainedAppend(runs: seq<seq<Feature>>, row: Feature, distance: int)
    requires AllChained(runs, distance)
    ensures AllChained(runs + [[row]], distance)
  {
    var runs' := runs + [[row]];
    forall j | 0 <= j < |runs'|
      ensures runs'[j] != [] && Chained(runs'[j], distance)
    {
      if j < |runs| {
        assert runs'[j] == runs[j];
      }
    }
  }

  /** Growing the last run keeps its first row, so the runs stay broken. */
  lemma BrokenExtend(runs: seq<seq<Feature>>, row: Feature, distance: int)
    requires runs != [] && runs[|runs| - 1] != [] && AllBroken(runs, distance)
    ensures AllBroken(runs[..|runs| - 1] + [runs[|runs| - 1] + [row]], distance)
  {
    var last := runs[|runs| - 1];
    var runs' := runs[..|runs| - 1] + [last + [row]];
    assert |runs'| == |runs|;
    forall j | 0 < j < |runs'|
      ensures BrokenAt(runs', j, distance)
    {
      if j < |runs| {
        assert BrokenAt(runs, j, distance);
      }
      assert runs'[j - 1] == runs[j - 1];
      if j < |runs| - 1 {
        assert runs'[j] == runs[j];
      } else {
        assert runs'[j] == last + [row];
      }
    }
  }

  /** A row that fails the merge test against the last row starts a new run,
      and the runs stay broken. */
  lemma BrokenAppend(runs: seq<seq<Feature>>, row: Feature, distance: int)
    requires AllBroken(runs, distance)
    requires runs != [] ==>
      runs[|runs| - 1] != [] && !Mergeable(runs[|runs| - 1][|runs[|runs| - 1]| - 1], row, distance)
    ensures AllBroken(runs + [[row]], distance)
  {
    var runs' := runs + [[row]];
    forall j | 0 < j < |runs'|
      ensures BrokenAt(runs', j, distance)
    {
      if j < |runs| {
        assert BrokenAt(runs, j, distance);
      }
      assert runs'[j - 1] == runs[j - 1];
      if j < |runs| {
        assert runs'[j] == runs[j];
      }
    }
  }

  lemma {:induction false} RunsChained(rows: seq<Feature>, distance: int)
    ensures AllChained(Runs(rows, distance), distance)
  {
    if rows != [] {
      var front := rows[..|rows| - 1];
      var row := rows[|rows| - 1];
      RunsChained(front, distance);
      if |rows| > 1 && Mergeable(rows[|rows| - 2], row, distance) {
        RunsFlatten(front, distance);
        ChainedExtend(Runs(front, distance), row, distance);
      } else {
        ChainedAppend(Runs(front, distance), row, distance);
      }
    }
  }

  lemma {:induction false} RunsBroken(rows: seq<Feature>, distance: int)
    ensures AllBroken(Runs(rows, distance), distance)
  {
    if rows != [] {
      var front := rows[..|rows| - 1];
      var row := rows[|rows| - 1];
      var runs := Runs(front, distance);
      RunsBroken(front, distance);
      if |rows| > 1 && Mergeable(rows[|rows| - 2], row, distance) {
        RunsChained(front, distance);
        assert runs[|runs| - 1] != [];
        BrokenExtend(runs, row, distance);
        assert Runs(rows, distance) == runs[..|runs| - 1] + [runs[|runs| - 1] + [row]];
      } else {
        RunsFlatten(front, distance);
        BrokenAppend(runs, row, distance);
        assert Runs(rows, distance) == runs + [[row]];
      }
    }
  }

  /** The runs are non-empty, chained inside, broken between, and together they
      are the input rows in order. */
  lemma RunsSpec(rows: seq<Feature>, distance: int)
    ensures var runs := Runs(rows, distance);
      && Flatten(runs) == rows
      && (forall j | 0 <= j < |runs| :: runs[j] != [] && Chained(runs[j], distance))
      && (forall j | 0 < j < |runs| ::
            !Mergeable(runs[j - 1][|runs[j - 1]| - 1], runs[j][0], distance))
      && (rows != [] ==> runs[|runs| - 1][|runs[|runs| - 1]| - 1] == rows[|rows| - 1])
  {
    RunsFlatten(rows, distance);
    RunsChained(rows, distance);
    RunsBroken(rows, distance);
  }

  /** A chained run shares its first row's sequence and Target id. */
  lemma {:induction false} ChainedSame(run: seq<Feature>, distance: int)
    requires run != [] && Chained(run, distance)
    ensures forall k | 0 <= k < |run| ::
      run[k].seqid == run[0].seqid && run[k].targetId == run[0].targetId
  {
    if |run| > 1 {
      var front := run[..|run| - 1];
      assert Chained(front, distance) by {
        forall k | 0 < k < |front|
          ensures Mergeable(front[k - 1], front[k], distance)
        {
          assert front[k - 1] == run[k - 1] && front[k] == run[k];
        }
      }
      ChainedSame(front, distance);
      assert Mergeable(run[|run| - 2], run[|run| - 1], distance);
      assert run[|run| - 2] == front[|front| - 1];
    }
  }

  /** The feature a run of rows merges into. */
  function Combine(run: seq<Feature>): Feature
    requires run != []
  {
    if |run| == 1 then run[0] else Extend(Combine(run[..|run| - 1]), run[|run| - 1])
  }

  function Lengths(run: seq<Feature>): (ls: seq<int>)
    ensures |ls| == |run|
    ensures forall k | 0 <= k < |run| :: ls[k] == run[k].targetLength
  {
    seq(|run|, k requires 0 <= k < |run| => run[k].targetLength)
  }

  /** A merged feature keeps the first row's start and other columns and takes
      the last row's end. */
  lemma {:induction false} CombineColumns(run: seq<Feature>)
    requires run != []
    ensures var f := Combine(run);
      && f.seqid == run[0].seqid && f.source == run[0].source && f.kind == run[0].kind
      && f.start == run[0].start && f.score == run[0].score && f.strand == run[0].strand
      && f.phase == run[0].phase && f.targetId == run[0].targetId
      && f.end == run[|run| - 1].end
  {
    if |run| > 1 {
      var front := run[..|run| - 1];
      CombineColumns(front);
      assert front[0] == run[0];
      ExtendFields(Combine(front), run[|run| - 1]);
    }
  }

  /** A merged feature's Target length is the sum of the rows' lengths. */
  lemma {:induction false} CombineLength(run: seq<Feature>)
    requires run != []
    ensures Combine(run).targetLength == Sum(Lengths(run))
  {
    if |run| > 1 {
      var front := run[..|run| - 1];
      var last := run[|run| - 1];
      CombineLength(front);
      assert Combine(run).targetLength == Combine(front).targetLength + last.targetLength;
      assert Lengths(run) == Lengths(front) + [last.targetLength];
      SumAppend(Lengths(front), [last.targetLength]);
    }
  }

  /** A merged feature carries the first row's attributes with the summed
      Target length written in, once. */
  lemma {:induction false} CombineAttributes(run: seq<Feature>)
    requires run != []
    ensures Combine(run).attributes == if |run| == 1 then run[0].attributes
      else UpdateTarget(run[0].attributes, Combine(run).targetLength)
  {
    if |run| > 1 {
      var front := run[..|run| - 1];
      var last := run[|run| - 1];
      var g := Combine(front);
      CombineAttributes(front);
      assert front[0] == run[0];
      ExtendOnce(g, last, run[0].attributes, |front| == 1);
      assert Combine(run).targetLength == g.targetLength + last.targetLength;
    }
  }

  /** Both of the above. */
  lemma CombineSpec(run: seq<Feature>)
    requires run != []
    ensures var f := Combine(run);
      && f.seqid == run[0].seqid && f.source == run[0].source && f.kind == run[0].kind
      && f.start == run[0].start && f.score == run[0].score && f.strand == run[0].strand
      && f.phase == run[0].phase && f.targetId == run[0].targetId
      && f.end == run[|run| - 1].end
      && f.targetLength == Sum(Lengths(run))
      && f.attributes == (if |run| == 1 then run[0].attributes
                          else UpdateTarget(run[0].attributes, f.targetLength))
  {
    CombineColumns(run);
    CombineLength(run);
    CombineAttributes(run);
  }

  /** Extending a feature whose attributes are `base`, updated or not: the
      result is `base` updated once with the new total. */
  lemma ExtendOnce(g: Feature, last: Feature, base: string, single: bool)
    requires g.attributes == if single then base else UpdateTarget(base, g.targetLength)
    ensures Extend(g, last).attributes == UpdateTarget(base, g.targetLength + last.targetLength)
  {
    ExtendAttributes(g, last);
    if !single {
      UpdateTwice(base, g.targetLength, g.targetLength + last.targetLength);
    }
  }

  /** The loop emits one feature per run, each the run combined. */
  lemma {:induction false} MergeRuns(rows: seq<Feature>, distance: int)
    ensures |Merge(rows, distance)| == |Runs(rows, distance)|
    ensures CombinedRuns(Merge(rows, distance), Runs(rows, distance))
  {
    if rows != [] {
      var front := rows[..|rows| - 1];
      var row := rows[|rows| - 1];
      MergeRuns(front, distance);
      RunsSpec(front, distance);
      var fs := Merge(front, distance);
      var runs := Runs(front, distance);
      if front != [] {
        var last := runs[|runs| - 1];
        ChainedSame(last, distance);
        CombineSpec(last);
        assert fs[|fs| - 1] == Combine(last);
        assert last[|last| - 1] == rows[|rows| - 2];
        assert Mergeable(fs[|fs| - 1], row, distance) <==> Mergeable(rows[|rows| - 2], row, distance);
      }
      if front != [] && Mergeable(rows[|rows| - 2], row, distance) {
        CombinedExtend(fs, runs, row);
      } else {
        CombinedAppend(fs, runs, row);
      }
    }
  }

  /** Each feature is its run combined. */
  ghost predicate CombinedRuns(fs: seq<Feature>, runs: seq<seq<Feature>>) {
    |fs| == |runs| && forall j | 0 <= j < |runs| :: runs[j] != [] && fs[j] == Combine(runs[j])
  }

  lemma CombinedExtend(fs: seq<Feature>, runs: seq<seq<Feature>>, row: Feature)
    requires CombinedRuns(fs, runs) && fs != []
    ensures CombinedRuns(fs[..|fs| - 1] + [Extend(fs[|fs| - 1], row)],
                         runs[..|runs| - 1] + [runs[|runs| - 1] + [row]])
  {
    var last := runs[|runs| - 1];
    var fs' := fs[..|fs| - 1] + [Extend(fs[|fs| - 1], row)];
    var runs' := runs[..|runs| - 1] + [last + [row]];
    forall j | 0 <= j < |runs'|
      ensures runs'[j] != [] && fs'[j] == Combine(runs'[j])
    {
      if j < |runs'| - 1 {
        assert fs'[j] == fs[j] && runs'[j] == runs[j];
      } else {
        assert (last + [row])[..|last|] == last;
        assert Combine(last + [row]) == Extend(Combine(last), row);
      }
    }
  }

  lemma CombinedAppend(fs: seq<Feature>, runs: seq<seq<Feature>>, row: Feature)
    requires CombinedRuns(fs, runs)
    ensures CombinedRuns(fs + [row], runs + [[row]])
  {
  }

  /** Fewer features than rows unless nothing merges, one per run; for
      consistent rows the Target length read back from a merged feature is
      the sum over its run. */
  lemma MergedTarget(run: seq<Feature>, distance: int, id: string)
    requires run != [] && Chained(run, distance)
    requires forall k | 0 <= k < |run| :: Consistent(run[k]) && TabFree(run[k])
    requires run[0].targetId == Some(id)
    ensures ParseTarget(Combine(run).attributes) == Ok(Some((id, Sum(Lengths(run)))))
  {
    CombineSpec(run);
    if |run| > 1 {
      UpdateThenParse(run[0].attributes, id, run[0].targetLength, Sum(Lengths(run)));
    }
  }

  // ------------------------------------------------------------ output

  function Columns(f: Feature): seq<string> {
    [f.seqid, f.source, f.kind, IntToString(f.start), IntToString(f.end),
     f.score, f.strand, f.phase, f.attributes]
  }

  /** `"\t".join(map(str, prev_entry[:-1]))` as written: `[:-1]` drops only the
      Target length, so the Target id (`None` when absent) is a tenth column. */
  function RenderAsWritten(f: Feature): string {
    Join(Columns(f) + [if f.targetId.Some? then f.targetId.value else "None"], "\t")
  }

  /** The GFF3 line the merger evidently means to write: the nine columns. */
  function Render(f: Feature): string {
    Join(Columns(f), "\t")
  }

  lemma ColumnsTabFree(f: Feature)
    requires TabFree(f)
    ensures forall k | 0 <= k < |Columns(f)| :: '\t' !in Columns(f)[k]
  {
    IntToStringWord(f.start);
    IntToStringWord(f.end);
  }

  /** As written, every output line has ten tab-separated columns, the tenth
      being the Target id. */
  lemma RenderAsWrittenTenColumns(f: Feature)
    requires TabFree(f)
    ensures |Split(RenderAsWritten(f), "\t")| == 10
    ensures Split(RenderAsWritten(f), "\t")[9] == (if f.targetId.Some? then f.targetId.value else "None")
  {
    ColumnsTabFree(f);
    SplitJoin(Columns(f) + [if f.targetId.Some? then f.targetId.value else "None"], '\t');
  }

  /** Corrected, every output line splits back into exactly its nine columns. */
  lemma RenderNineColumns(f: Feature)
    requires TabFree(f)
    ensures Split(Render(f), "\t") == Columns(f)
    ensures |Split(Render(f), "\t")| == 9
  {
    ColumnsTabFree(f);
    SplitJoin(Columns(f), '\t');
  }

  /** `fout.writelines(header)`: each header line with its line end. */
  function HeaderText(header: seq<string>): string {
    if header == [] then "" else HeaderText(header[..|header| - 1]) + header[|header| - 1] + "\n"
  }

  /** The lines `merged_entries` collects, as written: one ten-column line per
      merged feature, in order. */
  function RenderAll(fs: seq<Feature>): (ls: seq<string>)
    ensures |ls| == |fs|
    ensures forall j | 0 <= j < |fs| :: ls[j] == RenderAsWritten(fs[j])
  {
    seq(|fs|, j requires 0 <= j < |fs| => RenderAsWritten(fs[j]))
  }

  /** The corrected lines: one nine-column GFF3 line per merged feature. */
  function RenderAllCorrected(fs: seq<Feature>): (ls: seq<string>)
    ensures |ls| == |fs|
    ensures forall j | 0 <= j < |fs| :: ls[j] == Render(fs[j])
  {
    seq(|fs|, j requires 0 <= j < |fs| => Render(fs[j]))
  }

  /** The output file for the input lines, or the exception that ends the run:
      the header lines, then the merged features joined by line ends, then a
      final line end. */
  function Process(lines: seq<string>, distance: int): Outcome<string> {
    match Read(lines)
    case Crash(e) => Crash(e)
    case Ok(input) =>
      Ok(HeaderText(input.header) + Join(RenderAll(Merge(input.rows, distance)), "\n") + "\n")
  }

  /** The same output with each merged feature written as its nine GFF3 columns. */
  function ProcessCorrected(lines: seq<string>, distance: int): Outcome<string> {
    match Read(lines)
    case Crash(e) => Crash(e)
    case Ok(input) =>
      Ok(HeaderText(input.header) + Join(RenderAllCorrected(Merge(input.rows, distance)), "\n") + "\n")
  }

  /** A corrected line holds the first nine columns of the line as written, and
      nothing else. */
  lemma CorrectedDropsTenth(f: Feature)
    requires TabFree(f)
    ensures |Split(RenderAsWritten(f), "\t")| == 10
    ensures Split(Render(f), "\t") == Split(RenderAsWritten(f), "\t")[..9]
  {
    RenderNineColumns(f);
    ColumnsTabFree(f);
    SplitJoin(Columns(f) + [if f.targetId.Some? then f.targetId.value else "None"], '\t');
  }

  /** Each corrected line splits into nine columns, the first nine of the
      ten the script writes for the same feature. */
  ghost predicate DropsTenth(fs: seq<Feature>) {
    forall j | 0 <= j < |fs| ::
      && |Split(RenderAll(fs)[j], "\t")| == 10
      && |Split(RenderAllCorrected(fs)[j], "\t")| == 9
      && Split(RenderAllCorrected(fs)[j], "\t") == Split(RenderAll(fs)[j], "\t")[..9]
  }

  lemma CorrectedLines(fs: seq<Feature>)
    requires forall k | 0 <= k < |fs| :: TabFree(fs[k])
    ensures DropsTenth(fs)
  {
    forall j | 0 <= j < |fs|
      ensures |Split(RenderAll(fs)[j], "\t")| == 10
      ensures |Split(RenderAllCorrected(fs)[j], "\t")| == 9
      ensures Split(RenderAllCorrected(fs)[j], "\t") == Split(RenderAll(fs)[j], "\t")[..9]
    {
      RenderNineColumns(fs[j]);
      CorrectedDropsTenth(fs[j]);
    }
  }

  /** `prev_entry` as a list of at most one feature. */
  function Pending(prev: Option<Feature>): seq<Feature> {
    if prev.Some? then [prev.value] else []
  }

  /** The merge step of the loop for one more row: the row extends the pending
      feature when it passes the merge test, and otherwise the pending feature
      is finished and the row becomes pending. */
  lemma MergeStep(rows: seq<Feature>, row: Feature, distance: int, done: seq<Feature>,
                  prev: Option<Feature>, next: Feature, finished: Option<Feature>)
    requires Merge(rows, distance) == done + Pending(prev)
    requires rows != [] ==> prev.Some?
    requires prev.Some? && Mergeable(prev.value, row, distance) ==>
      finished == None && next == Extend(prev.value, row)
    requires !(prev.Some? && Mergeable(prev.value, row, distance)) ==>
      finished == prev && next == row
    ensures Merge(rows + [row], distance) == done + Pending(finished) + [next]
  {
    assert (rows + [row])[..|rows|] == rows;
    var fs := done + Pending(prev);
    if prev.Some? {
      assert fs[|fs| - 1] == prev.value && fs[..|fs| - 1] == done;
    }
    if finished.None? {
      assert done + Pending(finished) + [next] == done + [next];
    }
  }

  /** The output for input whose reading fails: the same exception. */
  lemma ProcessCrash(lines: seq<string>, distance: int, e: string)
    requires Gather(lines, Kinds(lines)) == Crash(e)
    ensures Process(lines, distance) == Crash(e)
    ensures ProcessCorrected(lines, distance) == Crash(e)
  {
  }

  /** Rendering one more feature adds its line. */
  lemma RenderAllSnoc(fs: seq<Feature>, f: Feature)
    ensures RenderAll(fs + [f]) == RenderAll(fs) + [RenderAsWritten(f)]
  {
  }

  /** The output for input that reads without failure. */
  lemma ProcessOk(lines: seq<string>, distance: int, input: Input)
    requires Gather(lines, Kinds(lines)) == Ok(input)
    ensures Process(lines, distance) ==
      Ok(HeaderText(input.header) + Join(RenderAll(Merge(input.rows, distance)), "\n") + "\n")
  {
  }

  /** The corrected output for input that reads without failure: the same
      header and one line per merged feature, each the script's line without
      its tenth column. */
  lemma ProcessCorrectedOk(lines: seq<string>, distance: int, input: Input)
    requires Gather(lines, Kinds(lines)) == Ok(input)
    ensures ProcessCorrected(lines, distance) ==
      Ok(HeaderText(input.header) + Join(RenderAllCorrected(Merge(input.rows, distance)), "\n") + "\n")
    ensures DropsTenth(Merge(input.rows, distance))
  {
    ReadRows(lines);
    MergeTabFree(input.rows, distance);
    CorrectedLines(Merge(input.rows, distance));
  }

  /** The script's main loop over the lines, with `prev_entry` as `prev` and
      the written entries as `merged`. */
  method MergeFile(lines: seq<string>, distance: int) returns (r: Outcome<string>)
    ensures r == Process(lines, distance)
  {
    var header: seq<string> := [];
    var merged: seq<string> := [];
    var prev: Option<Feature> := None;
    ghost var rows: seq<Feature> := [];
    ghost var done: seq<Feature> := [];
    ghost var kinds := Kinds(lines);
    var i := 0;
    while i < |lines|
      invariant 0 <= i <= |lines|
      invariant Gather(lines[..i], kinds[..i]) == Ok(Input(header, rows))
      invariant Merging(rows, distance, done, prev, merged)
    {
      var line := ReadLine(lines[i]);
      assert kinds[i] == line;
      GatherStep(lines, kinds, i);
      match line {
      case Crash(e) =>
        assert Gather(lines[..i + 1], kinds[..i + 1]) == Crash(e);
        GatherCrashStays(lines, kinds, i + 1);
        ProcessCrash(lines, distance, e);
        return Crash(e);
      case Ok(Header) =>
        header := header + [lines[i]];
      case Ok(Short) =>
      case Ok(Data(row)) =>
        prev, merged, done := TakeRow(prev, merged, row, distance, rows, done);
        rows := rows + [row];
      }
      i := i + 1;
    }
    if prev.Some? {
      RenderAllSnoc(done, prev.value);
      assert Merge(rows, distance) == done + [prev.value];
      merged := merged + [RenderAsWritten(prev.value)];
      done := done + [prev.value];
    }
    assert lines[..|lines|] == lines && kinds[..|lines|] == kinds;
    ProcessOk(lines, distance, Input(header, rows));
    r := Ok(HeaderText(header) + Join(merged, "\n") + "\n");
  }

  /** The merging state of the loop after `rows`: the written features `done`
      and the pending `prev_entry` make up `Merge(rows)`, and `merged` holds the
      lines written so far. */
  ghost predicate Merging(rows: seq<Feature>, distance: int, done: seq<Feature>,
                          prev: Option<Feature>, merged: seq<string>) {
    && Merge(rows, distance) == done + Pending(prev)
    && (rows != [] ==> prev.Some?)
    && merged == RenderAll(done)
  }

  /** The data-row branch of the loop: `AddRow`, and the line written for a
      finished feature. */
  method TakeRow(prev: Option<Feature>, merged: seq<string>, row: Feature, distance: int,
                 ghost rows: seq<Feature>, ghost done: seq<Feature>)
    returns (prev': Option<Feature>, merged': seq<string>, ghost done': seq<Feature>)
    requires Merging(rows, distance, done, prev, merged)
    ensures Merging(rows + [row], distance, done', prev', merged')
  {
    var next, finished := AddRow(prev, row, distance);
    MergeStep(rows, row, distance, done, prev, next, finished);
    merged', done' := merged, done;
    if finished.Some? {
      RenderAllSnoc(done, finished.value);
      merged' := merged + [RenderAsWritten(finished.value)];
      done' := done + [finished.value];
    }
    prev' := Some(next);
  }

  /** One data row against `prev_entry`: the row either extends the pending
      feature in place, or the pending feature is finished (`finished`) and the
      row becomes pending (`next`). */
  method AddRow(prev: Option<Feature>, row: Feature, distance: int)
    returns (next: Feature, finished: Option<Feature>)
    ensures prev.Some? && Mergeable(prev.value, row, distance) ==>
      finished == None && next == Extend(prev.value, row)
    ensures !(prev.Some? && Mergeable(prev.value, row, distance)) ==>
      finished == prev && next == row
  {
    if prev.Some? && Mergeable(prev.value, row, distance) {
      var p := prev.value;
      var total := p.targetLength + row.targetLength;
      var attributes := UpdateTargetLength(p.attributes, total);
      next := p.(end := row.end, targetLength := total, attributes := attributes);
      assert next == ExtendedBy(p, row, attributes);
      ExtendIs(p, row, attributes);
      finished := None;
    } else {
      next := row;
      finished := prev;
    }
  }
}
