/** `gff3Colorizer-3col.py`: the same pass as `gff3Colorizer.py`, but the
    colour is derived from the feature type (the third column) instead of the
    Target. Its `hash_color` is the same function as the other script's. */
module Gff3ColorizerByType {
  import opened Common
  import opened Strings
  import opened Gff3Colorizer

  /** What the script writes for one line. */
  function TypeColoredLine(line: string, digest: Digest): string {
    if Kept(line) then line
    else
      var fields := Split(Strip(line), "\t");
      Recolored(fields, HashColor(digest, fields[2]))
  }

  /** A data line is written with the same columns, the ninth with exactly one
      colour tag appended, whose colour comes from the feature type. */
  lemma TypeColoredColumns(line: string, digest: Digest)
    requires !Kept(line)
    ensures var fields := Split(Strip(line), "\t");
      var out := Split(TypeColoredLine(line, digest), "\t");
      && |out| == |fields|
      && (forall k | 0 <= k < |fields| && k != 8 :: out[k] == fields[k])
      && out[8] == fields[8] + ";color=" + HashColor(digest, fields[2])
  {
    var fields := Split(Strip(line), "\t");
    var color := HashColor(digest, fields[2]);
    FieldsTabFree(line);
    ColorTabFree(digest, fields[2]);
    RecoloredColumns(fields, color);
    assert TypeColoredLine(line, digest) == Recolored(fields, color);
    assert Tagged(fields[8], color) == fields[8] + ";color=" + color;
  }

  /** One pass of the main loop. */
  method WriteTypeLine(line: string, digest: Digest) returns (out: string)
    ensures out == TypeColoredLine(line, digest)
    ensures Kept(line) ==> out == line
  {
    StripEmptyIffBlank(line);
    if StartsWith(line, "#") || Strip(line) == [] {
      return line;
    }
    var fields := Split(Strip(line), "\t");
    if |fields| < 9 {
      return line;
    }
    var featureType := fields[2];
    var color := HashColor(digest, featureType);
    var attributes := fields[8];
    fields := fields[8 := Tagged(attributes, color)];
    out := Join(fields, "\t");
  }

  function TypeColoredLines(lines: seq<string>, digest: Digest): (out: seq<string>)
    ensures |out| == |lines|
  {
    if lines == [] then []
    else TypeColoredLines(lines[..|lines| - 1], digest) + [TypeColoredLine(lines[|lines| - 1], digest)]
  }

  /** Each written line is the one for the input line at the same place. */
  lemma {:induction false} TypeColoredLinesAt(lines: seq<string>, digest: Digest, i: nat)
    requires i < |lines|
    ensures TypeColoredLines(lines, digest)[i] == TypeColoredLine(lines[i], digest)
  {
    if i < |lines| - 1 {
      TypeColoredLinesAt(lines[..|lines| - 1], digest, i);
    }
  }

  /** The main loop: one written line per input line. */
  method ColorizeByType(lines: seq<string>, digest: Digest) returns (out: seq<string>)
    ensures out == TypeColoredLines(lines, digest)
  {
    out := [];
    for i := 0 to |lines|
      invariant out == TypeColoredLines(lines[..i], digest)
    {
      var written := WriteTypeLine(lines[i], digest);
      assert lines[..i + 1][..i] == lines[..i];
      out := out + [written];
    }
    assert lines[..|lines|] == lines;
  }
}
