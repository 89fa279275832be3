/** `gff3Colorizer.py`: every GFF3 data line gets a `color=` attribute whose
    value is derived from an md5 digest of the line's Target; header, blank
    and short lines are copied unchanged. */
module Gff3Colorizer {
  import opened Common
  import opened Strings

  /** md5 of a text, read as the integer of its hexadecimal digest. The digest
      itself is not part of this model. */
  type Digest = string -> nat

  const Mask: nat := 0x100_0000

  predicate IsLowerHex(c: char) {
    ('0' <= c <= '9') || ('a' <= c <= 'f')
  }

  function HexDigit(d: nat): (c: char)
    requires d < 16
    ensures IsLowerHex(c)
  {
    if d < 10 then ('0' as int + d) as char else ('a' as int + d - 10) as char
  }

  function HexDigitValue(c: char): nat
    requires IsLowerHex(c)
  {
    if c <= '9' then (c - '0') as nat else (c - 'a') as nat + 10
  }

  function Pow16(n: nat): (p: nat)
    ensures p > 0
  {
    if n == 0 then 1 else 16 * Pow16(n - 1)
  }

  /** `format(v, "0nx")`: `n` lowercase hexadecimal digits, zero-padded. */
  function Hex(v: nat, n: nat): (s: string)
    ensures |s| == n
    ensures forall i | 0 <= i < n :: IsLowerHex(s[i])
  {
    if n == 0 then "" else Hex(v / 16, n - 1) + [HexDigit(v % 16)]
  }

  /** The value of a string of lowercase hexadecimal digits. */
  function HexValue(s: string): nat
    requires forall i | 0 <= i < |s| :: IsLowerHex(s[i])
  {
    if s == [] then 0 else HexValue(s[..|s| - 1]) * 16 + HexDigitValue(s[|s| - 1])
  }

  /** Reading the digits back gives the value, for any value that fits. */
  lemma {:induction false} HexRoundTrip(v: nat, n: nat)
    requires v < Pow16(n)
    ensures HexValue(Hex(v, n)) == v
  {
    if n > 0 {
      var s := Hex(v, n);
      assert s[..|s| - 1] == Hex(v / 16, n - 1);
      HexRoundTrip(v / 16, n - 1);
      assert HexDigitValue(HexDigit(v % 16)) == v % 16;
    }
  }

  /** `hash_color`: `#` and six lowercase hexadecimal digits of the low 24 bits
      of the digest (`& 0xFFFFFF` on a non-negative integer keeps its value
      modulo 2^24). */
  function HashColor(digest: Digest, key: string): (c: string)
    ensures |c| == 7 && c[0] == '#'
    ensures forall i | 1 <= i < 7 :: IsLowerHex(c[i])
  {
    "#" + Hex(digest(key) % Mask, 6)
  }

  /** The colour encodes exactly the low 24 bits of the digest: colours of two
      keys are equal iff their digests agree there. */
  lemma HashColorBits(digest: Digest, a: string, b: string)
    ensures HexValue(HashColor(digest, a)[1..]) == digest(a) % Mask
    ensures HashColor(digest, a) == HashColor(digest, b) <==> digest(a) % Mask == digest(b) % Mask
  {
    assert Pow16(6) == Mask;
    HexRoundTrip(digest(a) % Mask, 6);
    HexRoundTrip(digest(b) % Mask, 6);
    assert HashColor(digest, a)[1..] == Hex(digest(a) % Mask, 6);
    assert HashColor(digest, b)[1..] == Hex(digest(b) % Mask, 6);
  }

  // ------------------------------------------------------------ the Target key

  /** A character `[^;\s]` accepts. */
  predicate IsKeyChar(c: char) {
    c != ';' && !IsSpace(c)
  }

  /** Length of the leading run of key characters. */
  function KeyLen(s: string): (n: nat)
    ensures n <= |s|
    ensures forall i | 0 <= i < n :: IsKeyChar(s[i])
    ensures n < |s| ==> !IsKeyChar(s[n])
  {
    if s == [] || !IsKeyChar(s[0]) then 0 else 1 + KeyLen(s[1..])
  }

  /** `Target=([^;\s]+)` matches starting at `i`. */
  predicate MatchAt(s: string, i: nat) {
    i + 7 < |s| && s[i..i + 7] == "Target=" && IsKeyChar(s[i + 7])
  }

  /** Where `re.search` finds its match: the leftmost starting index. */
  function MatchIndex(s: string): (r: Option<nat>)
    ensures r.Some? ==> r.value + 7 < |s|
    decreases |s|
  {
    if MatchAt(s, 0) then Some(0)
    else if s == [] then None
    else
      match MatchIndex(s[1..])
      case None => None
      case Some(i) => Some(i + 1)
  }

  lemma MatchShift(s: string, j: nat)
    requires s != []
    ensures MatchAt(s[1..], j) <==> MatchAt(s, j + 1)
  {
    if j + 8 < |s| {
      assert s[1..][j..j + 7] == s[j + 1..j + 8];
    }
  }

  /** The search reports the leftmost match, and none when there is none. */
  lemma {:induction false} MatchIndexSpec(s: string)
    ensures MatchIndex(s).Some? ==> MatchAt(s, MatchIndex(s).value)
    ensures MatchIndex(s).Some? ==> forall j: nat | j < MatchIndex(s).value :: !MatchAt(s, j)
    ensures MatchIndex(s).None? ==> forall j: nat :: !MatchAt(s, j)
    decreases |s|
  {
    if !MatchAt(s, 0) && s != [] {
      MatchIndexSpec(s[1..]);
      var r := MatchIndex(s[1..]);
      forall j: nat | r.None? || j < r.value + 1
        ensures !MatchAt(s, j)
      {
        if j > 0 {
          MatchShift(s, j - 1);
        }
      }
      if r.Some? {
        MatchShift(s, r.value);
      }
    }
  }

  /** `match.group(1) if match else 'NO_TARGET'`: the greedy run of key
      characters after the leftmost `Target=`. */
  function TargetKey(attributes: string): string {
    match MatchIndex(attributes)
    case None => "NO_TARGET"
    case Some(i) =>
      var t := attributes[i + 7..];
      t[..KeyLen(t)]
  }

  /** The key found is a non-empty run of key characters right after a
      `Target=` with no earlier match, and the run is maximal. */
  lemma TargetKeySpec(attributes: string)
    requires MatchIndex(attributes).Some?
    ensures var i := MatchIndex(attributes).value;
      var key := TargetKey(attributes);
      && attributes[i..i + 7] == "Target="
      && (forall j: nat | j < i :: !MatchAt(attributes, j))
      && |key| > 0 && i + 7 + |key| <= |attributes|
      && attributes[i + 7..i + 7 + |key|] == key
      && (forall c | c in key :: IsKeyChar(c))
      && (i + 7 + |key| == |attributes| || !IsKeyChar(attributes[i + 7 + |key|]))
  {
    MatchIndexSpec(attributes);
    var i := MatchIndex(attributes).value;
    var t := attributes[i + 7..];
    assert t[0] == attributes[i + 7];
  }

  /** Without any match the key is the fixed fallback. */
  lemma NoTargetKey(attributes: string)
    requires forall j: nat :: !MatchAt(attributes, j)
    ensures TargetKey(attributes) == "NO_TARGET"
  {
    if MatchIndex(attributes).Some? {
      MatchIndexSpec(attributes);
    }
  }

  // ------------------------------------------------------------ lines

  /** The attribute column with the colour tag appended. */
  function Tagged(attributes: string, color: string): string {
    attributes + ";color=" + color
  }

  /** `fields[8] = f"{attributes};{color_tag}"` and the tab join. */
  function Recolored(fields: seq<string>, color: string): string
    requires |fields| >= 9
  {
    Join(fields[8 := Tagged(fields[8], color)], "\t")
  }

  /** Splitting the written line at tabs gives the fields back, the ninth with
      the colour tag appended. */
  lemma RecoloredColumns(fields: seq<string>, color: string)
    requires |fields| >= 9
    requires forall k | 0 <= k < |fields| :: '\t' !in fields[k]
    requires '\t' !in color
    ensures Split(Recolored(fields, color), "\t") == fields[8 := Tagged(fields[8], color)]
  {
    var out := fields[8 := Tagged(fields[8], color)];
    forall k | 0 <= k < |out|
      ensures '\t' !in out[k]
    {
      if k == 8 {
        assert Tagged(fields[8], color) == fields[8] + (";color=" + color);
      }
    }
    SplitJoin(out, '\t');
  }

  /** The fields of a stripped line: none holds a tab. */
  lemma FieldsTabFree(line: string)
    ensures forall k | 0 <= k < |Split(Strip(line), "\t")| :: '\t' !in Split(Strip(line), "\t")[k]
  {
    var fields := Split(Strip(line), "\t");
    SplitNoSep(Strip(line), "\t");
    forall k | 0 <= k < |fields|
      ensures '\t' !in fields[k]
    {
      NoChar(fields[k], '\t');
    }
  }

  /** A header or blank line, or one with fewer than nine fields, is written as
      it was read. */
  predicate Kept(line: string) {
    StartsWith(line, "#") || IsBlank(line) || |Split(Strip(line), "\t")| < 9
  }

  /** What the script writes for one line. */
  function ColoredLine(line: string, digest: Digest): string {
    if Kept(line) then line
    else
      var fields := Split(Strip(line), "\t");
      Recolored(fields, HashColor(digest, TargetKey(fields[8])))
  }

  lemma ColorTabFree(digest: Digest, key: string)
    ensures '\t' !in HashColor(digest, key)
  {
    var c := HashColor(digest, key);
    forall i | 0 <= i < |c|
      ensures c[i] != '\t'
    {
      if i > 0 {
        assert IsLowerHex(c[i]);
      }
    }
  }

  /** A data line is written with the same columns, the ninth with exactly one
      colour tag appended, whose colour comes from the line's Target key. */
  lemma ColoredLineColumns(line: string, digest: Digest)
    requires !Kept(line)
    ensures var fields := Split(Strip(line), "\t");
      var out := Split(ColoredLine(line, digest), "\t");
      && |out| == |fields|
      && (forall k | 0 <= k < |fields| && k != 8 :: out[k] == fields[k])
      && out[8] == fields[8] + ";color=" + HashColor(digest, TargetKey(fields[8]))
  {
    var fields := Split(Strip(line), "\t");
    var color := HashColor(digest, TargetKey(fields[8]));
    FieldsTabFree(line);
    ColorTabFree(digest, TargetKey(fields[8]));
    RecoloredColumns(fields, color);
    assert ColoredLine(line, digest) == Recolored(fields, color);
    assert Tagged(fields[8], color) == fields[8] + ";color=" + color;
  }

  /** One pass of the main loop: the line written for `line`. */
  method WriteLine(line: string, digest: Digest) returns (out: string)
    ensures out == ColoredLine(line, digest)
    ensures Kept(line) ==> out == line
  {
    StripEmptyIffBlank(line);
    if StartsWith(line, "#") || Strip(line) == [] {
      return line;
    }
    var fields := Split(Strip(line), "\t");
    if |fields| < 9 {
      return line;
    }
    var attributes := fields[8];
    var target := TargetKey(attributes);
    var color := HashColor(digest, target);
    fields := fields[8 := Tagged(attributes, color)];
    out := Join(fields, "\t");
  }

  /** The lines written for `lines`, in order. */
  function ColoredLines(lines: seq<string>, digest: Digest): (out: seq<string>)
    ensures |out| == |lines|
  {
    if lines == [] then []
    else ColoredLines(lines[..|lines| - 1], digest) + [ColoredLine(lines[|lines| - 1], digest)]
  }

  /** Each written line is the one for the input line at the same place. */
  lemma {:induction false} ColoredLinesAt(lines: seq<string>, digest: Digest, i: nat)
    requires i < |lines|
    ensures ColoredLines(lines, digest)[i] == ColoredLine(lines[i], digest)
  {
    if i < |lines| - 1 {
      ColoredLinesAt(lines[..|lines| - 1], digest, i);
    }
  }

  /** The main loop: one written line per input line. */
  method Colorize(lines: seq<string>, digest: Digest) returns (out: seq<string>)
    ensures out == ColoredLines(lines, digest)
  {
    out := [];
    for i := 0 to |lines|
      invariant out == ColoredLines(lines[..i], digest)
    {
      var written := WriteLine(lines[i], digest);
      assert lines[..i + 1][..i] == lines[..i];
      out := out + [written];
    }
    assert lines[..|lines|] == lines;
  }
}
