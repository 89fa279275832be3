/** The Python `str` operations the scripts rely on, on `seq<char>`:
    `startswith`, `endswith`, `in`, `find`, `split(sep)`, `join`, `split()`,
    `strip()`, `replace`, `upper`/`lower` (on ASCII letters only), `int()`
    and `str()` of integers, and `<` on strings. */
module Strings {
  import opened Common

  /** Characters Python's `str.isspace` accepts (used by `strip()` and `split()`). */
  predicate IsSpace(c: char) {
    || c == ' ' || ('\t' <= c <= '\r') || ('\U{1C}' <= c <= '\U{1F}')
    || c == '\U{85}' || c == '\U{A0}' || c == '\U{1680}' || ('\U{2000}' <= c <= '\U{200A}')
    || c == '\U{2028}' || c == '\U{2029}' || c == '\U{202F}' || c == '\U{205F}' || c == '\U{3000}'
  }

  predicate StartsWith(s: string, p: string) {
    |p| <= |s| && s[..|p|] == p
  }

  predicate EndsWith(s: string, p: string) {
    |p| <= |s| && s[|s| - |p|..] == p
  }

  /** `s.find(pat)`: the first index at which `pat` occurs, if any. */
  function Find(s: string, pat: string): (r: Option<nat>)
    ensures r.Some? ==> r.value + |pat| <= |s|
    decreases |s|
  {
    if StartsWith(s, pat) then Some(0)
    else if |s| == 0 then None
    else
      match Find(s[1..], pat)
      case None => None
      case Some(i) => Some(i + 1)
  }

  /** `find` reports an occurrence, none before it, and none at all when it
      reports none. */
  lemma {:induction false} FindSpec(s: string, pat: string)
    ensures var r := Find(s, pat);
            && (r.Some? ==> StartsWith(s[r.value..], pat))
            && (r.Some? ==> forall j | 0 <= j < r.value :: !StartsWith(s[j..], pat))
            && (r.None? ==> forall j | 0 <= j <= |s| :: !StartsWith(s[j..], pat))
    decreases |s|
  {
    if !StartsWith(s, pat) && |s| > 0 {
      FindSpec(s[1..], pat);
      assert forall j | 1 <= j <= |s| :: s[j..] == s[1..][j - 1..];
    }
  }

  /** No occurrence anywhere means `find` reports none. */
  lemma FindNone(s: string, pat: string)
    requires forall j | 0 <= j <= |s| :: !StartsWith(s[j..], pat)
    ensures Find(s, pat).None?
  {
    FindSpec(s, pat);
  }

  /** An occurrence at `i` with none before it is what `find` reports. */
  lemma FindAt(s: string, pat: string, i: nat)
    requires i <= |s| && StartsWith(s[i..], pat)
    requires forall j | 0 <= j < i :: !StartsWith(s[j..], pat)
    ensures Find(s, pat) == Some(i)
  {
    FindSpec(s, pat);
  }

  /** A prefix that ends before the first occurrence holds no occurrence. */
  lemma NoneBefore(s: string, pat: string, i: nat)
    requires |pat| > 0 && i <= |s|
    requires forall j | 0 <= j < i :: !StartsWith(s[j..], pat)
    ensures !Contains(s[..i], pat)
  {
    forall j | 0 <= j <= i
      ensures !StartsWith(s[..i][j..], pat)
    {
      if j + |pat| <= i {
        assert s[..i][j..][..|pat|] == s[j..][..|pat|];
      }
    }
    FindNone(s[..i], pat);
  }

  /** `pat in s` */
  predicate Contains(s: string, pat: string) {
    Find(s, pat).Some?
  }

  /** Any occurrence of `pat` in `s` makes `pat in s` true. */
  lemma ContainsAt(s: string, pat: string, i: nat)
    requires i + |pat| <= |s| && s[i..i + |pat|] == pat
    ensures Contains(s, pat)
  {
    assert StartsWith(s[i..], pat);
    FindSpec(s, pat);
  }

  /** Substrings of substrings are substrings. */
  lemma ContainsTrans(s: string, mid: string, pat: string)
    requires Contains(s, mid) && Contains(mid, pat)
    ensures Contains(s, pat)
  {
    FindSpec(s, mid);
    FindSpec(mid, pat);
    var i := Find(s, mid).value;
    var k := Find(mid, pat).value;
    assert s[i..][..|mid|] == s[i..i + |mid|];
    assert mid[k..][..|pat|] == mid[k..k + |pat|];
    SliceOfSlice(s, mid, pat, i, k);
    ContainsAt(s, pat, i + k);
  }

  /** A piece of a piece of `s` is a piece of `s`. */
  lemma SliceOfSlice<T>(s: seq<T>, mid: seq<T>, pat: seq<T>, i: nat, k: nat)
    requires i + |mid| <= |s| && s[i..i + |mid|] == mid
    requires k + |pat| <= |mid| && mid[k..k + |pat|] == pat
    ensures s[i + k..i + k + |pat|] == pat
  {
    forall t | 0 <= t < |pat|
      ensures s[i + k + t] == pat[t]
    {
      assert s[i..i + |mid|][k + t] == s[i + k + t];
      assert mid[k..k + |pat|][t] == mid[k + t];
    }
  }

  /** `s.split(sep)` for a non-empty separator. */
  function Split(s: string, sep: string): (parts: seq<string>)
    requires |sep| > 0
    ensures |parts| >= 1
    decreases |s|
  {
    match Find(s, sep)
    case None => [s]
    case Some(i) => [s[..i]] + Split(s[i + |sep|..], sep)
  }

  /** No part of a split holds the separator. */
  lemma {:induction false} SplitNoSep(s: string, sep: string)
    requires |sep| > 0
    ensures forall k | 0 <= k < |Split(s, sep)| :: !Contains(Split(s, sep)[k], sep)
    decreases |s|
  {
    FindSpec(s, sep);
    match Find(s, sep)
    case None =>
    case Some(i) =>
      NoneBefore(s, sep, i);
      SplitNoSep(s[i + |sep|..], sep);
  }

  /** `sep.join(parts)` */
  function Join(parts: seq<string>, sep: string): string {
    if |parts| == 0 then ""
    else if |parts| == 1 then parts[0]
    else parts[0] + sep + Join(parts[1..], sep)
  }

  /** Joining what was split gives the original text back. */
  lemma {:induction false} JoinSplit(s: string, sep: string)
    requires |sep| > 0
    ensures Join(Split(s, sep), sep) == s
    decreases |s|
  {
    var r := Find(s, sep);
    FindSpec(s, sep);
    if r.Some? {
      var i := r.value;
      var rest := s[i + |sep|..];
      var rp := Split(rest, sep);
      assert Split(s, sep) == [s[..i]] + rp;
      JoinSplit(rest, sep);
      assert Join([s[..i]] + rp, sep) == s[..i] + sep + Join(rp, sep);
      assert s[i..][..|sep|] == sep;
      assert s == s[..i] + s[i..][..|sep|] + rest;
    }
  }

  /** Splitting at a one-character separator what was joined with it gives
      the parts back, when no part contains that character. */
  lemma {:induction false} SplitJoin(parts: seq<string>, c: char)
    requires |parts| >= 1
    requires forall k | 0 <= k < |parts| :: c !in parts[k]
    ensures Split(Join(parts, [c]), [c]) == parts
    decreases |parts|
  {
    var s := Join(parts, [c]);
    if |parts| == 1 {
      NoCharNoFind(parts[0], c);
    } else {
      var p := parts[0];
      var rest := Join(parts[1..], [c]);
      assert s == p + [c] + rest;
      FirstCharFind(p, c, rest);
      assert s[|p| + 1..] == rest;
      SplitJoin(parts[1..], c);
      assert Split(s, [c]) == [s[..|p|]] + Split(rest, [c]);
      assert s[..|p|] == p;
      assert parts == [p] + parts[1..];
    }
  }

  lemma NoCharNoFind(s: string, c: char)
    requires c !in s
    ensures Find(s, [c]).None?
  {
    forall j | 0 <= j <= |s|
      ensures !StartsWith(s[j..], [c])
    {
      if j < |s| {
        assert s[j..][..1] == [s[j]];
      }
    }
    FindNone(s, [c]);
  }

  lemma FirstCharFind(p: string, c: char, rest: string)
    requires c !in p
    ensures Find(p + [c] + rest, [c]) == Some(|p|)
  {
    var s := p + [c] + rest;
    assert s[|p|..][..1] == [c];
    forall j | 0 <= j < |p|
      ensures !StartsWith(s[j..], [c])
    {
      assert s[j..][..1] == [p[j]];
    }
    FindAt(s, [c], |p|);
  }

  /** A one-character pattern that does not occur is not a character of the text. */
  lemma NoChar(p: string, c: char)
    requires !Contains(p, [c])
    ensures c !in p
  {
    if c in p {
      var i :| 0 <= i < |p| && p[i] == c;
      ContainsAt(p, [c], i);
    }
  }

  /** A piece of `s.split(sep)` is a slice of `s`: every character of it is a
      character of `s`. */
  lemma SplitPieceIn(s: string, sep: string, k: nat)
    requires |sep| > 0 && k < |Split(s, sep)|
    ensures forall c | c in Split(s, sep)[k] :: c in s
  {
    JoinSplit(s, sep);
    JoinHas(Split(s, sep), sep, k);
  }

  lemma {:induction false} JoinHas(parts: seq<string>, sep: string, k: nat)
    requires k < |parts|
    ensures forall c | c in parts[k] :: c in Join(parts, sep)
    decreases |parts|
  {
    if |parts| > 1 && k > 0 {
      JoinHas(parts[1..], sep, k - 1);
    }
  }

  /** Every character of a join comes from a part or from the separator. */
  lemma {:induction false} JoinChars(parts: seq<string>, sep: string)
    ensures forall c | c in Join(parts, sep) :: c in sep || exists k | 0 <= k < |parts| :: c in parts[k]
    decreases |parts|
  {
    if |parts| > 1 {
      JoinChars(parts[1..], sep);
      forall c | c in Join(parts, sep)
        ensures c in sep || exists k | 0 <= k < |parts| :: c in parts[k]
      {
        if c !in parts[0] && c !in sep {
          assert c in Join(parts[1..], sep);
          var k :| 0 <= k < |parts[1..]| && c in parts[1..][k];
          assert c in parts[k + 1];
        }
      }
    }
  }

  /** `s.replace(pat, rep)`: every non-overlapping occurrence, left to right. */
  function ReplaceAll(s: string, pat: string, rep: string): string
    requires |pat| > 0
  {
    Join(Split(s, pat), rep)
  }

  /** Replacing a substring that does not occur changes nothing. */
  lemma ReplaceAbsent(s: string, pat: string, rep: string)
    requires |pat| > 0 && !Contains(s, pat)
    ensures ReplaceAll(s, pat, rep) == s
  {
  }

  /** `s.lstrip()` */
  function LStrip(s: string): (r: string)
    ensures |r| <= |s| && r == s[|s| - |r|..]
    ensures r == [] || !IsSpace(r[0])
    ensures forall i | 0 <= i < |s| - |r| :: IsSpace(s[i])
  {
    if |s| > 0 && IsSpace(s[0]) then LStrip(s[1..]) else s
  }

  /** `s.rstrip()` */
  function RStrip(s: string): (r: string)
    ensures |r| <= |s| && r == s[..|r|]
    ensures r == [] || !IsSpace(r[|r| - 1])
    ensures forall i | |r| <= i < |s| :: IsSpace(s[i])
  {
    if |s| > 0 && IsSpace(s[|s| - 1]) then RStrip(s[..|s| - 1]) else s
  }

  /** `s.strip()` */
  function Strip(s: string): string {
    LStrip(RStrip(s))
  }

  /** `s.strip(c)` for a single character `c`. */
  function StripChar(s: string, c: char): (r: string)
    ensures |r| <= |s|
    ensures r == [] || (r[0] != c && r[|r| - 1] != c)
  {
    if |s| > 0 && s[0] == c then StripChar(s[1..], c)
    else if |s| > 0 && s[|s| - 1] == c then StripChar(s[..|s| - 1], c)
    else s
  }

  /** `not s.strip()`: the line holds only whitespace. */
  predicate IsBlank(s: string) {
    forall i | 0 <= i < |s| :: IsSpace(s[i])
  }

  lemma StripEmptyIffBlank(s: string)
    ensures Strip(s) == [] <==> IsBlank(s)
  {
    var r := RStrip(s);
    if r != [] {
      assert !IsSpace(r[|r| - 1]);
      assert LStrip(r) != [];
      assert s[|r| - 1] == r[|r| - 1];
    }
  }

  /** Length of the leading run of non-space characters. */
  function WordLen(s: string): (n: nat)
    ensures n <= |s|
    ensures forall i | 0 <= i < n :: !IsSpace(s[i])
    ensures n < |s| ==> IsSpace(s[n])
  {
    if |s| == 0 || IsSpace(s[0]) then 0 else 1 + WordLen(s[1..])
  }

  predicate IsWord(w: string) {
    |w| > 0 && forall i | 0 <= i < |w| :: !IsSpace(w[i])
  }

  /** `s.split()`: the maximal runs of non-space characters. */
  function Words(s: string): seq<string>
    decreases |s|
  {
    var t := LStrip(s);
    if t == [] then []
    else
      var n := WordLen(t);
      [t[..n]] + Words(t[n..])
  }

  /** Every token of `s.split()` is a non-empty run of non-space characters. */
  lemma {:induction false} WordsAreWords(s: string)
    ensures forall k | 0 <= k < |Words(s)| :: IsWord(Words(s)[k])
    decreases |s|
  {
    var t := LStrip(s);
    if t != [] {
      var n := WordLen(t);
      assert n > 0;
      assert IsWord(t[..n]);
      WordsAreWords(t[n..]);
      forall k | 0 < k < |Words(s)|
        ensures IsWord(Words(s)[k])
      {
        assert Words(s)[k] == Words(t[n..])[k - 1];
      }
    }
  }

  /** A text with no leading space starts with its first token. */
  lemma WordsFront(s: string)
    requires s != [] && !IsSpace(s[0])
    ensures Words(s) == [s[..WordLen(s)]] + Words(s[WordLen(s)..])
  {
    assert LStrip(s) == s;
  }

  /** A leading space does not change the tokens. */
  lemma WordsSpace(r: string)
    ensures Words(" " + r) == Words(r)
  {
    assert (" " + r)[1..] == r;
    assert LStrip(" " + r) == LStrip(r);
  }

  /** A token alone is the only token. */
  lemma WordAlone(w: string)
    requires IsWord(w)
    ensures Words(w) == [w]
  {
    WordLenOf(w, "");
    assert w + "" == w;
    WordsFront(w);
    assert w[|w|..] == [];
  }

  /** A token, a space and more text: the token comes first. */
  lemma WordThenSpace(w: string, rest: string)
    requires IsWord(w)
    ensures Words(w + " " + rest) == [w] + Words(rest)
  {
    var s := w + " " + rest;
    assert s == w + (" " + rest);
    WordLenOf(w, " " + rest);
    assert s[..|w|] == w && s[|w|..] == " " + rest;
    WordsFront(s);
    WordsSpace(rest);
  }

  /** `' '.join(ws).split() == ws` for words. */
  lemma {:induction false} WordsOfJoin(ws: seq<string>)
    requires forall k | 0 <= k < |ws| :: IsWord(ws[k])
    ensures Words(Join(ws, " ")) == ws
    decreases |ws|
  {
    if |ws| == 1 {
      WordAlone(ws[0]);
      HeadTail(ws, []);
    } else if |ws| > 1 {
      WordsOfJoin(ws[1..]);
      assert Join(ws, " ") == ws[0] + " " + Join(ws[1..], " ");
      WordThenSpace(ws[0], Join(ws[1..], " "));
      HeadTail(ws, ws[1..]);
    }
  }

  /** A sequence is its head followed by its tail. */
  lemma HeadTail<T>(xs: seq<T>, ys: seq<T>)
    requires xs != [] && ys == xs[1..]
    ensures [xs[0]] + ys == xs
  {
  }

  /** Every character of a token of `s.split()` is a character of `s`. */
  lemma {:induction false} WordsIn(s: string)
    ensures forall k, c | 0 <= k < |Words(s)| && c in Words(s)[k] :: c in s
    decreases |s|
  {
    var t := LStrip(s);
    if t != [] {
      var n := WordLen(t);
      var rest := Words(t[n..]);
      assert Words(s) == [t[..n]] + rest;
      WordsIn(t[n..]);
      forall k, c | 0 <= k < |Words(s)| && c in Words(s)[k]
        ensures c in s
      {
        if k == 0 {
          InPrefix(t, n, c);
        } else {
          assert Words(s)[k] == rest[k - 1];
          InSuffix(t, n, c);
        }
        InSuffix(s, |s| - |t|, c);
      }
    }
  }

  /** What is in a prefix is in the sequence. */
  lemma InPrefix<T>(s: seq<T>, j: nat, c: T)
    requires j <= |s| && c in s[..j]
    ensures c in s
  {
    var m :| 0 <= m < j && s[..j][m] == c;
    assert s[m] == c;
  }

  /** What is in a suffix is in the sequence. */
  lemma InSuffix<T>(s: seq<T>, i: nat, c: T)
    requires i <= |s| && c in s[i..]
    ensures c in s
  {
    var m :| 0 <= m < |s| - i && s[i..][m] == c;
    assert s[i + m] == c;
  }

  /** A token has no surrounding whitespace to strip. */
  lemma StripWord(w: string)
    requires IsWord(w)
    ensures Strip(w) == w
  {
  }

  lemma {:induction false} WordLenOf(w: string, rest: string)
    requires IsWord(w)
    requires rest == [] || IsSpace(rest[0])
    ensures WordLen(w + rest) == |w|
    decreases |w|
  {
    var s := w + rest;
    assert s[0] == w[0];
    assert s[1..] == w[1..] + rest;
    if |w| == 1 {
      assert s[1..] == rest;
    } else {
      forall i | 0 <= i < |w| - 1
        ensures !IsSpace(w[1..][i])
      {
        assert w[1..][i] == w[i + 1];
      }
      WordLenOf(w[1..], rest);
    }
  }

  /** `s.upper()` / `s.lower()` on ASCII letters. */
  function Upper(s: string): (r: string)
    ensures |r| == |s|
  {
    if s == [] then [] else [UpperChar(s[0])] + Upper(s[1..])
  }

  function Lower(s: string): (r: string)
    ensures |r| == |s|
  {
    if s == [] then [] else [LowerChar(s[0])] + Lower(s[1..])
  }

  function UpperChar(c: char): char {
    if 'a' <= c <= 'z' then c - 'a' + 'A' else c
  }

  function LowerChar(c: char): char {
    if 'A' <= c <= 'Z' then c - 'A' + 'a' else c
  }

  predicate IsDigit(c: char) {
    '0' <= c <= '9'
  }

  predicate AllDigits(s: string) {
    forall i | 0 <= i < |s| :: IsDigit(s[i])
  }

  /** Length of the leading run of decimal digits. */
  function DigitRun(s: string): (n: nat)
    ensures n <= |s|
    ensures AllDigits(s[..n])
    ensures n < |s| ==> !IsDigit(s[n])
  {
    if s != [] && IsDigit(s[0]) then
      var n := 1 + DigitRun(s[1..]);
      assert s[..n] == [s[0]] + s[1..][..n - 1];
      n
    else 0
  }

  /** The value of a string of decimal digits. */
  function DigitsValue(s: string): nat
    requires AllDigits(s)
  {
    if s == [] then 0 else DigitsValue(s[..|s| - 1]) * 10 + (s[|s| - 1] - '0') as nat
  }

  /** `int(s)` on an already stripped token: an optional sign and at least one digit. */
  function ParseInt(s: string): Option<int> {
    if |s| > 0 && (s[0] == '-' || s[0] == '+') then
      var d := s[1..];
      if |d| > 0 && AllDigits(d) then
        var v: int := if s[0] == '-' then -(DigitsValue(d) as int) else DigitsValue(d);
        Some(v)
      else None
    else if |s| > 0 && AllDigits(s) then Some(DigitsValue(s))
    else None
  }

  /** `int(s)`, which ignores surrounding whitespace; `None` stands for its ValueError. */
  function PyInt(s: string): Option<int> {
    ParseInt(Strip(s))
  }

  function DigitChar(d: nat): char
    requires d < 10
  {
    ('0' as int + d) as char
  }

  /** `str(n)` for a natural number. */
  function NatToString(n: nat): (s: string)
    ensures |s| > 0 && AllDigits(s)
  {
    if n < 10 then [DigitChar(n)] else NatToString(n / 10) + [DigitChar(n % 10)]
  }

  /** `str(n)` for an integer. */
  function IntToString(n: int): (s: string)
    ensures |s| > 0
    ensures forall i | 0 <= i < |s| :: IsDigit(s[i]) || s[i] == '-'
  {
    if n < 0 then "-" + NatToString(-n) else NatToString(n)
  }

  lemma {:induction false} NatToStringValue(n: nat)
    ensures DigitsValue(NatToString(n)) == n
  {
    if n >= 10 {
      var s := NatToString(n);
      assert s[..|s| - 1] == NatToString(n / 10);
      NatToStringValue(n / 10);
    }
  }

  /** `int(str(n)) == n` */
  lemma ParseIntToString(n: int)
    ensures ParseInt(IntToString(n)) == Some(n)
  {
    if n < 0 {
      NatToStringValue(-n);
      assert IntToString(n)[1..] == NatToString(-n);
    } else {
      NatToStringValue(n);
    }
  }

  /** Python's `a <= b` on strings: lexicographic by code point. */
  predicate LexLe(a: string, b: string) {
    |a| == 0 || (|b| > 0 && (a[0] < b[0] || (a[0] == b[0] && LexLe(a[1..], b[1..]))))
  }

  lemma LexLeTotal(a: string, b: string)
    ensures LexLe(a, b) || LexLe(b, a)
  {
  }

  lemma LexLeTrans(a: string, b: string, c: string)
    requires LexLe(a, b) && LexLe(b, c)
    ensures LexLe(a, c)
  {
  }

  lemma {:induction false} LexLeAntisym(a: string, b: string)
    requires LexLe(a, b) && LexLe(b, a)
    ensures a == b
  {
    if |a| > 0 && |b| > 0 {
      LexLeAntisym(a[1..], b[1..]);
      assert a == [a[0]] + a[1..];
      assert b == [b[0]] + b[1..];
    }
  }

  /** `LexLeAntisym` stated as an implication. */
  lemma LexLeSame(a: string, b: string)
    ensures LexLe(a, b) && LexLe(b, a) ==> a == b
  {
    if LexLe(a, b) && LexLe(b, a) {
      LexLeAntisym(a, b);
    }
  }
}
