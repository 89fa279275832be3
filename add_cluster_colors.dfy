/** `add_cluster_colors.py`: sequence ids are mapped to their vsearch cluster
    from a `.uc` file, restricted to the ids of a FASTA file's headers, and
    every GFF line whose `ID=` attribute names such an id gets its cluster's
    colour appended to column 9. Reading and writing the files is not
    modelled: each file is its sequence of lines without terminators. */
module AddClusterColors {
  import opened Common
  import opened Strings
  import opened Gff3Colorizer

  // ---------------------------------------------------------------- extract_id

  /** `ID=([^\s;]+)` matches starting at `i`. */
  predicate IdAt(s: string, i: nat) {
    i + 3 < |s| && s[i..i + 3] == "ID=" && IsKeyChar(s[i + 3])
  }

  /** Where `re.search` finds its match: the leftmost starting index. */
  function IdIndex(s: string): (r: Option<nat>)
    ensures r.Some? ==> r.value + 3 < |s|
    decreases |s|
  {
    if IdAt(s, 0) then Some(0)
    else if s == [] then None
    else
      match IdIndex(s[1..])
      case None => None
      case Some(i) => Some(i + 1)
  }

  lemma IdShift(s: string, j: nat)
    requires s != []
    ensures IdAt(s[1..], j) <==> IdAt(s, j + 1)
  {
    if j + 4 < |s| {
      assert s[1..][j..j + 3] == s[j + 1..j + 4];
    }
  }

  /** The search reports the leftmost match, and none when there is none. */
  lemma {:induction false} IdIndexSpec(s: string)
    ensures IdIndex(s).Some? ==> IdAt(s, IdIndex(s).value)
    ensures IdIndex(s).Some? ==> forall j: nat | j < IdIndex(s).value :: !IdAt(s, j)
    ensures IdIndex(s).None? ==> forall j: nat :: !IdAt(s, j)
    decreases |s|
  {
    if !IdAt(s, 0) && s != [] {
      IdIndexSpec(s[1..]);
      var r := IdIndex(s[1..]);
      forall j: nat | r.None? || j < r.value + 1
        ensures !IdAt(s, j)
      {
        if j > 0 {
          IdShift(s, j - 1);
        }
      }
      if r.Some? {
        IdShift(s, r.value);
      }
    }
  }

  /** `extract_id(header)`: the greedy run of `[^\s;]` characters after the
      leftmost `ID=` that is followed by one, or `None`. */
  function ExtractId(header: string): Option<string> {
    match IdIndex(header)
    case None => None
    case Some(i) =>
      var t := header[i + 3..];
      Some(t[..KeyLen(t)])
  }

  /** There is an id exactly when `ID=` followed by a key character occurs. */
  lemma ExtractIdNone(header: string)
    ensures ExtractId(header).None? <==> forall j: nat :: !IdAt(header, j)
  {
    IdIndexSpec(header);
  }

  /** The id found is a non-empty, maximal run of key characters right after
      the leftmost match. */
  lemma ExtractIdSome(header: string)
    requires ExtractId(header).Some?
    ensures var i := IdIndex(header).value;
      var id := ExtractId(header).value;
      && header[i..i + 3] == "ID="
      && (forall j: nat | j < i :: !IdAt(header, j))
      && |id| > 0 && i + 3 + |id| <= |header|
      && header[i + 3..i + 3 + |id|] == id
      && (forall c | c in id :: IsKeyChar(c))
      && (i + 3 + |id| == |header| || !IsKeyChar(header[i + 3 + |id|]))
  {
    IdIndexSpec(header);
    var i := IdIndex(header).value;
    var t := header[i + 3..];
    assert t[0] == header[i + 3];
  }

  /** An id at the very start of a header is read up to the first `;`. */
  lemma ExtractIdLeading(id: string, rest: string)
    requires |id| > 0 && forall c | c in id :: IsKeyChar(c)
    ensures ExtractId("ID=" + id + ";" + rest) == Some(id)
  {
    var h := "ID=" + id + ";" + rest;
    assert IdAt(h, 0) by {
      assert h[..3] == "ID=" && h[3] == id[0];
    }
    var t := h[3..];
    assert t == id + (";" + rest);
    assert (";" + rest)[0] == ';';
    KeyLenOf(id, ";" + rest);
    assert t[..|id|] == id;
  }

  /** The run of key characters of `w + rest` is `w` when `rest` starts with a
      character that ends it. */
  lemma {:induction false} KeyLenOf(w: string, rest: string)
    requires forall c | c in w :: IsKeyChar(c)
    requires rest != [] && !IsKeyChar(rest[0])
    ensures KeyLen(w + rest) == |w|
  {
    if w != [] {
      assert (w + rest)[1..] == w[1..] + rest;
      assert forall c | c in w[1..] :: c in w;
      KeyLenOf(w[1..], rest);
    } else {
      assert w + rest == rest;
    }
  }

  // ------------------------------------------------------------------ parse_uc

  /** What one `.uc` line contributes to `id_to_cluster`: seed (`S`) and hit
      (`H`) records map the id of column 9 to the cluster number of column 2;
      comment lines and other record types contribute nothing. Column 2 is
      read before column 9, so a short record fails with an IndexError and a
      non-numeric cluster with a ValueError, whichever comes first. */
  function UcEntry(line: string): Outcome<Option<(string, int)>> {
    if StartsWith(line, "#") then Ok(None)
    else
      var parts := Split(Strip(line), "\t");
      if parts[0] != "S" && parts[0] != "H" then Ok(None)
      else if |parts| < 2 then Crash("IndexError")
      else if PyInt(parts[1]).None? then Crash("ValueError")
      else if |parts| < 9 then Crash("IndexError")
      else
        match ExtractId(parts[8])
        case None => Ok(None)
        case Some(id) => Ok(Some((id, PyInt(parts[1]).value)))
  }

  /** A seed or hit record. */
  predicate IsRecord(line: string) {
    !StartsWith(line, "#") && var p := Split(Strip(line), "\t")[0]; p == "S" || p == "H"
  }

  /** A line yields an entry exactly when it is a well-formed seed or hit
      record whose column 9 holds an id; the entry is that id and the cluster
      number; a line fails only when it is a record with a missing or
      malformed field. */
  lemma UcEntrySpec(line: string)
    ensures var parts := Split(Strip(line), "\t");
      var r := UcEntry(line);
      && (!IsRecord(line) ==> r == Ok(None))
      && (r.Crash? <==> IsRecord(line) && (|parts| < 9 || PyInt(parts[1]).None?))
      && (r.Ok? && r.value.Some? <==>
            IsRecord(line) && |parts| >= 9 && PyInt(parts[1]).Some? && ExtractId(parts[8]).Some?)
      && (r.Ok? && r.value.Some? ==> r.value.value == (ExtractId(parts[8]).value, PyInt(parts[1]).value))
  {
  }

  /** `parse_uc(uc_file)` as a value: later records overwrite earlier ones. */
  function IdToCluster(lines: seq<string>): Outcome<map<string, int>> {
    Assign(UcEntry, lines)
  }

  /** One line of the `parse_uc` loop. */
  method ReadUcLine(line: string) returns (r: Outcome<Option<(string, int)>>)
    ensures r == UcEntry(line)
  {
    if StartsWith(line, "#") {
      return Ok(None);
    }
    var parts := Split(Strip(line), "\t");
    if parts[0] != "S" && parts[0] != "H" {
      return Ok(None);
    }
    if |parts| < 2 {
      return Crash("IndexError");
    }
    var cluster := PyInt(parts[1]);
    if cluster.None? {
      return Crash("ValueError");
    }
    if |parts| < 9 {
      return Crash("IndexError");
    }
    var m := ExtractId(parts[8]);
    if m.None? {
      return Ok(None);
    }
    return Ok(Some((m.value, cluster.value)));
  }

  /** `parse_uc(uc_file)`. */
  method ParseUc(lines: seq<string>) returns (r: Outcome<map<string, int>>)
    ensures r == IdToCluster(lines)
  {
    var idToCluster: map<string, int> := map[];
    for i := 0 to |lines|
      invariant Assign(UcEntry, lines[..i]) == Ok(idToCluster)
    {
      AssignSnoc(UcEntry, lines, i, idToCluster);
      var e := ReadUcLine(lines[i]);
      if e.Crash? {
        AssignCrashStays(UcEntry, lines, i + 1);
        return Crash(e.reason);
      }
      if e.value.Some? {
        idToCluster := idToCluster[e.value.value.0 := e.value.value.1];
      }
    }
    assert lines[..|lines|] == lines;
    return Ok(idToCluster);
  }

  /** The map holds exactly the ids some line yields, each with the cluster
      of the last line yielding it; any malformed record ends the run. */
  lemma IdToClusterSpec(lines: seq<string>)
    ensures IdToCluster(lines).Crash? <==> exists i | 0 <= i < |lines| :: UcEntry(lines[i]).Crash?
    ensures IdToCluster(lines).Ok? ==> forall id ::
      id in IdToCluster(lines).value <==> Yields(UcEntry, lines, id)
    ensures IdToCluster(lines).Ok? ==> forall id | id in IdToCluster(lines).value ::
      exists i :: LastYields(UcEntry, lines, id, i) && IdToCluster(lines).value[id] == UcEntry(lines[i]).value.value.1
  {
    AssignCrash(UcEntry, lines);
    if IdToCluster(lines).Ok? {
      AssignKeys(UcEntry, lines);
      forall id | id in IdToCluster(lines).value
        ensures exists i :: LastYields(UcEntry, lines, id, i) && IdToCluster(lines).value[id] == UcEntry(lines[i]).value.value.1
      {
        AssignLastWins(UcEntry, lines, id);
      }
    }
  }

  // --------------------------------------------------------- the FASTA headers

  /** The id a FASTA line names: only `>` header lines name one. */
  function HeaderId(line: string): Option<string> {
    if StartsWith(line, ">") then ExtractId(line[1..]) else None
  }

  /** `fasta_id_to_cluster` after the given FASTA lines: the cluster map
      restricted to the header ids. An id is kept exactly when a header names
      it and it has a cluster, and it keeps that cluster. */
  function FastaMap(lines: seq<string>, idToCluster: map<string, int>): (m: map<string, int>)
    ensures forall id :: id in m <==> id in idToCluster && exists i | 0 <= i < |lines| :: HeaderId(lines[i]) == Some(id)
    ensures forall id | id in m :: m[id] == idToCluster[id]
  {
    if lines == [] then map[]
    else
      var front := lines[..|lines| - 1];
      var m := FastaMap(front, idToCluster);
      var h := HeaderId(lines[|lines| - 1]);
      assert forall i | 0 <= i < |front| :: front[i] == lines[i];
      if h.Some? && h.value in idToCluster then m[h.value := idToCluster[h.value]] else m
  }

  /** The FASTA loop of `main`. */
  method FastaClusters(lines: seq<string>, idToCluster: map<string, int>) returns (m: map<string, int>)
    ensures m == FastaMap(lines, idToCluster)
  {
    m := map[];
    for i := 0 to |lines|
      invariant m == FastaMap(lines[..i], idToCluster)
    {
      assert lines[..i + 1][..i] == lines[..i];
      if StartsWith(lines[i], ">") {
        var id := ExtractId(lines[i][1..]);
        if id.Some? && id.value in idToCluster {
          m := m[id.value := idToCluster[id.value]];
        }
      }
    }
    assert lines[..|lines|] == lines;
  }

  // ------------------------------------------------------------ cluster colours

  /** `random_color`, one draw per cluster: which colour each cluster gets is
      not modelled, so it is a parameter. */
  type Palette = int -> string

  /** `cluster_to_color`: one colour for every cluster of the map. */
  function ClusterColors(idToCluster: map<string, int>, color: Palette): (colors: map<int, string>)
    ensures forall cl :: cl in colors <==> exists id | id in idToCluster :: idToCluster[id] == cl
  {
    map cl | cl in idToCluster.Values :: color(cl)
  }

  /** Every cluster of the FASTA map has a colour, so the colour lookup never
      raises a KeyError. */
  lemma FastaColored(lines: seq<string>, idToCluster: map<string, int>, color: Palette)
    ensures forall id | id in FastaMap(lines, idToCluster) ::
      FastaMap(lines, idToCluster)[id] in ClusterColors(idToCluster, color)
  {
  }

  // ------------------------------------------------------------- the GFF rewrite

  /** The loop over `attr_field.split(';')`: the text after `ID=` of the first
      field that starts with it. */
  function FirstId(fields: seq<string>): Option<string> {
    if fields == [] then None
    else if StartsWith(fields[0], "ID=") then Some(fields[0][3..])
    else FirstId(fields[1..])
  }

  /** The id found comes from the first field starting with `ID=`. */
  lemma {:induction false} FirstIdSpec(fields: seq<string>)
    ensures FirstId(fields).None? <==> forall k | 0 <= k < |fields| :: !StartsWith(fields[k], "ID=")
    ensures FirstId(fields).Some? ==> exists k | 0 <= k < |fields| ::
      && fields[k] == "ID=" + FirstId(fields).value
      && forall j | 0 <= j < k :: !StartsWith(fields[j], "ID=")
  {
    if fields != [] {
      FirstIdSpec(fields[1..]);
      if StartsWith(fields[0], "ID=") {
        assert fields[0] == "ID=" + fields[0][3..];
      } else if FirstId(fields[1..]).Some? {
        var k :| 0 <= k < |fields[1..]| && fields[1..][k] == "ID=" + FirstId(fields[1..]).value
          && forall j | 0 <= j < k :: !StartsWith(fields[1..][j], "ID=");
        assert fields[k + 1] == "ID=" + FirstId(fields).value;
        forall j | 0 <= j < k + 1
          ensures !StartsWith(fields[j], "ID=")
        {
          if j > 0 {
            assert fields[j] == fields[1..][j - 1];
          }
        }
      } else {
        forall k | 0 <= k < |fields|
          ensures !StartsWith(fields[k], "ID=")
        {
          if k > 0 {
            assert fields[k] == fields[1..][k - 1];
          }
        }
      }
    }
  }

  /** The line's id, when it is a non-empty one with a cluster in `fasta`. */
  function ClusterOf(columns: seq<string>, fasta: map<string, int>): Option<int>
    requires |columns| >= 9
  {
    match FirstId(Split(columns[8], ";"))
    case Some(id) => if id != "" && id in fasta then Some(fasta[id]) else None
    case None => None
  }

  /** What the script writes for one GFF line: header lines as read, data
      lines stripped and re-joined, with the cluster colour appended to column
      9 when the line's id has a cluster. A data line without a ninth column
      raises IndexError. */
  function ClusterColoredLine(line: string, fasta: map<string, int>, colors: map<int, string>): Outcome<string> {
    if StartsWith(line, "#") then Ok(line)
    else
      var columns := Split(Strip(line), "\t");
      if |columns| < 9 then Crash("IndexError")
      else
        match ClusterOf(columns, fasta)
        case None => Ok(Join(columns, "\t"))
        case Some(cl) =>
          if cl in colors then Ok(Recolored(columns, colors[cl])) else Crash("KeyError")
  }

  /** A header line is copied as-is; a data line without nine columns raises. */
  lemma ColoredLineKept(line: string, fasta: map<string, int>, colors: map<int, string>)
    ensures StartsWith(line, "#") ==> ClusterColoredLine(line, fasta, colors) == Ok(line)
    ensures !StartsWith(line, "#") && |Split(Strip(line), "\t")| < 9 ==>
      ClusterColoredLine(line, fasta, colors) == Crash("IndexError")
  {
  }

  /** A written data line has the columns of the stripped input line, and its
      ninth column gains `;color=<c>` exactly when the line's id has a
      cluster, `c` being that cluster's colour. */
  lemma ColoredLineColumns(line: string, fasta: map<string, int>, colors: map<int, string>)
    requires !StartsWith(line, "#") && ClusterColoredLine(line, fasta, colors).Ok?
    requires forall cl | cl in colors :: '\t' !in colors[cl]
    ensures var columns := Split(Strip(line), "\t");
      var out := Split(ClusterColoredLine(line, fasta, colors).value, "\t");
      && |columns| >= 9
      && |out| == |columns|
      && (forall k | 0 <= k < |columns| && k != 8 :: out[k] == columns[k])
      && (ClusterOf(columns, fasta).None? ==> out[8] == columns[8])
      && (ClusterOf(columns, fasta).Some? ==>
            out[8] == columns[8] + ";color=" + colors[ClusterOf(columns, fasta).value])
  {
    var columns := Split(Strip(line), "\t");
    FieldsTabFree(line);
    match ClusterOf(columns, fasta)
    case None =>
      SplitJoin(columns, '\t');
    case Some(cl) =>
      RecoloredColumns(columns, colors[cl]);
      assert Tagged(columns[8], colors[cl]) == columns[8] + ";color=" + colors[cl];
  }

  /** One pass of the GFF loop. */
  method RewriteLine(line: string, fasta: map<string, int>, colors: map<int, string>) returns (r: Outcome<string>)
    ensures r == ClusterColoredLine(line, fasta, colors)
  {
    if StartsWith(line, "#") {
      return Ok(line);
    }
    var parts := Split(Strip(line), "\t");
    if |parts| < 9 {
      return Crash("IndexError");
    }
    var attrField := parts[8];
    var idVal := FirstId(Split(attrField, ";"));
    if idVal.Some? && idVal.value != "" && idVal.value in fasta {
      var cluster := fasta[idVal.value];
      if cluster !in colors {
        return Crash("KeyError");
      }
      attrField := Tagged(attrField, colors[cluster]);
      parts := parts[8 := attrField];
    }
    return Ok(Join(parts, "\t"));
  }

  /** The lines written for a GFF file. */
  function ClusterColoredLines(lines: seq<string>, fasta: map<string, int>, colors: map<int, string>): Outcome<seq<string>> {
    MapAll(line => ClusterColoredLine(line, fasta, colors), lines)
  }

  /** The GFF loop of `main`. */
  method Rewrite(lines: seq<string>, fasta: map<string, int>, colors: map<int, string>) returns (r: Outcome<seq<string>>)
    ensures r == ClusterColoredLines(lines, fasta, colors)
  {
    ghost var f := line => ClusterColoredLine(line, fasta, colors);
    var out: seq<string> := [];
    for i := 0 to |lines|
      invariant MapAll(f, lines[..i]) == Ok(out)
    {
      assert lines[..i + 1][..i] == lines[..i];
      var w := RewriteLine(lines[i], fasta, colors);
      assert w == f(lines[i]);
      if w.Crash? {
        MapAllCrashStays(f, lines, i + 1);
        return Crash(w.reason);
      }
      out := out + [w.value];
    }
    assert lines[..|lines|] == lines;
    return Ok(out);
  }

  /** With a colour for every cluster of `fasta`, a line raises only when it
      is a data line without a ninth column. */
  lemma ColoredLineCrash(line: string, fasta: map<string, int>, colors: map<int, string>)
    requires forall id | id in fasta :: fasta[id] in colors
    ensures ClusterColoredLine(line, fasta, colors).Crash? <==>
      !StartsWith(line, "#") && |Split(Strip(line), "\t")| < 9
  {
    if !StartsWith(line, "#") && |Split(Strip(line), "\t")| >= 9 {
      var columns := Split(Strip(line), "\t");
      if ClusterOf(columns, fasta).Some? {
        var id := FirstId(Split(columns[8], ";")).value;
        assert id in fasta;
      }
    }
  }

  /** `main(gff_file, uc_file, fasta_file, output_file)` on the files' lines. */
  function AddColors(gff: seq<string>, uc: seq<string>, fasta: seq<string>, color: Palette): Outcome<seq<string>> {
    match IdToCluster(uc)
    case Crash(e) => Crash(e)
    case Ok(idToCluster) =>
      ClusterColoredLines(gff, FastaMap(fasta, idToCluster), ClusterColors(idToCluster, color))
  }

  /** When the cluster file parses, the output has one line per GFF line, the
      run raises only on a data line without a ninth column, and every line
      is the one `ClusterColoredLine` writes for it: never a KeyError. */
  lemma AddColorsSpec(gff: seq<string>, uc: seq<string>, fasta: seq<string>, color: Palette)
    requires IdToCluster(uc).Ok?
    ensures var m := IdToCluster(uc).value;
      var r := AddColors(gff, uc, fasta, color);
      && (r.Crash? <==> exists i | 0 <= i < |gff| ::
            !StartsWith(gff[i], "#") && |Split(Strip(gff[i]), "\t")| < 9)
      && (r.Ok? ==> |r.value| == |gff| && forall i | 0 <= i < |gff| ::
            Ok(r.value[i]) == ClusterColoredLine(gff[i], FastaMap(fasta, m), ClusterColors(m, color)))
  {
    var m := IdToCluster(uc).value;
    var fm := FastaMap(fasta, m);
    var colors := ClusterColors(m, color);
    var f := line => ClusterColoredLine(line, fm, colors);
    MapAllSpec(f, gff);
    FastaColored(fasta, m, color);
    forall i | 0 <= i < |gff|
      ensures f(gff[i]).Crash? <==> !StartsWith(gff[i], "#") && |Split(Strip(gff[i]), "\t")| < 9
    {
      ColoredLineCrash(gff[i], fm, colors);
    }
  }
}
