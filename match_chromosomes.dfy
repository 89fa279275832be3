/** `match_chromosomes.py`: append to every line of a table the chromosome
    name of a lookup list that best matches the line's first field, asking
    the user once per key when no tier of matching decides. */
module MatchChromosomes {
  import opened Common
  import opened Strings

  /** The hard-coded overrides. */
  const Manual: map<string, string> := map["1B" := "chr1_mat"]

  /** `normalize`: drop `chr`, `_mat` and `_pat` (in that order, each with
      `str.replace`), then upper-case. */
  function Normalize(chrom: string): string {
    Upper(ReplaceAll(ReplaceAll(ReplaceAll(chrom, "chr", ""), "_mat", ""), "_pat", ""))
  }

  predicate IsLowerLetter(c: char) {
    'a' <= c <= 'z'
  }

  predicate NoLower(s: string) {
    forall i | 0 <= i < |s| :: !IsLowerLetter(s[i])
  }

  lemma {:induction false} UpperNoLower(s: string)
    ensures NoLower(Upper(s))
  {
    if s != [] {
      UpperNoLower(s[1..]);
      assert Upper(s) == [UpperChar(s[0])] + Upper(s[1..]);
    }
  }

  lemma {:induction false} UpperKeeps(s: string)
    requires NoLower(s)
    ensures Upper(s) == s
  {
    if s != [] {
      UpperKeeps(s[1..]);
      assert s == [s[0]] + s[1..];
    }
  }

  /** Every character of an occurring pattern is a character of the text. */
  lemma ContainsChar(s: string, pat: string, j: nat)
    requires j < |pat|
    ensures Contains(s, pat) ==> pat[j] in s
  {
    if Contains(s, pat) {
      FindSpec(s, pat);
      var i := Find(s, pat).value;
      assert s[i..][..|pat|] == pat;
      assert s[i + j] == pat[j];
    }
  }

  /** A pattern with a lower-case letter does not occur in a text without one. */
  lemma AbsentInUpper(s: string, pat: string, j: nat)
    requires NoLower(s) && j < |pat| && IsLowerLetter(pat[j])
    ensures !Contains(s, pat)
  {
    ContainsChar(s, pat, j);
    assert forall i | 0 <= i < |s| :: s[i] != pat[j];
  }

  /** A name without lower-case letters is its own normal form. */
  lemma NormalizeKeeps(s: string)
    requires NoLower(s)
    ensures Normalize(s) == s
  {
    AbsentInUpper(s, "chr", 0);
    ReplaceAbsent(s, "chr", "");
    AbsentInUpper(s, "_mat", 1);
    ReplaceAbsent(s, "_mat", "");
    AbsentInUpper(s, "_pat", 1);
    ReplaceAbsent(s, "_pat", "");
    UpperKeeps(s);
  }

  /** Normalizing twice is normalizing once: the result has no lower-case
      letter left, so none of the removed markers can occur in it. */
  lemma NormalizeIdempotent(chrom: string)
    ensures NoLower(Normalize(chrom))
    ensures Normalize(Normalize(chrom)) == Normalize(chrom)
  {
    UpperNoLower(ReplaceAll(ReplaceAll(ReplaceAll(chrom, "chr", ""), "_mat", ""), "_pat", ""));
    NormalizeKeeps(Normalize(chrom));
  }

  /** The three tiers of `best_match`, tried in this order. */
  datatype Tier = Exact | Prefix | Partial

  function Rank(t: Tier): nat {
    match t
    case Exact => 0
    case Prefix => 1
    case Partial => 2
  }

  /** Lookup value `v` matches the normalized key `norm` at tier `t`. */
  predicate Matches(t: Tier, v: string, norm: string) {
    var nv := Normalize(v);
    match t
    case Exact => nv == norm
    case Prefix => StartsWith(nv, norm)
    case Partial => Contains(nv, norm)
  }

  /** Each tier accepts everything the previous one accepts. */
  lemma TiersNested(v: string, norm: string)
    ensures Matches(Exact, v, norm) ==> Matches(Prefix, v, norm)
    ensures Matches(Prefix, v, norm) ==> Matches(Partial, v, norm)
  {
    var nv := Normalize(v);
    if StartsWith(nv, norm) {
      ContainsAt(nv, norm, 0);
    }
  }

  /** The test of tier `t` for the normalized key `norm`. */
  function Test(t: Tier, norm: string): string -> bool {
    v => Matches(t, v, norm)
  }

  /** `[v for v in lookup_values if keep(v)]` */
  function Filter(lookup: seq<string>, keep: string -> bool): (r: seq<string>)
    ensures |r| <= |lookup|
  {
    if lookup == [] then []
    else
      var v := lookup[|lookup| - 1];
      Filter(lookup[..|lookup| - 1], keep) + (if keep(v) then [v] else [])
  }

  /** Place `k` is the one and only place of the lookup list that `keep` accepts. */
  ghost predicate ExactlyOne(lookup: seq<string>, keep: string -> bool, k: nat) {
    && k < |lookup| && keep(lookup[k])
    && forall j | 0 <= j < |lookup| && j != k :: !keep(lookup[j])
  }

  ghost predicate Unique(lookup: seq<string>, keep: string -> bool) {
    exists k: nat :: ExactlyOne(lookup, keep, k)
  }

  /** A filtered list is empty exactly when no lookup value is accepted. */
  lemma {:induction false} FilterEmpty(lookup: seq<string>, keep: string -> bool)
    ensures Filter(lookup, keep) == [] <==> forall j | 0 <= j < |lookup| :: !keep(lookup[j])
  {
    if lookup != [] {
      var front := lookup[..|lookup| - 1];
      FilterEmpty(front, keep);
      assert forall j | 0 <= j < |front| :: front[j] == lookup[j];
    }
  }

  /** A single accepted place gives a one-element list holding its value. */
  lemma {:induction false} FilterOne(lookup: seq<string>, keep: string -> bool, k: nat)
    requires ExactlyOne(lookup, keep, k)
    ensures Filter(lookup, keep) == [lookup[k]]
  {
    var front := lookup[..|lookup| - 1];
    assert forall j | 0 <= j < |front| :: front[j] == lookup[j];
    if k == |lookup| - 1 {
      FilterEmpty(front, keep);
    } else {
      assert ExactlyOne(front, keep, k);
      FilterOne(front, keep, k);
    }
  }

  /** A one-element list comes from a single accepted place. */
  lemma {:induction false} FilterOneBack(lookup: seq<string>, keep: string -> bool)
    requires |Filter(lookup, keep)| == 1
    ensures exists k: nat :: ExactlyOne(lookup, keep, k) && Filter(lookup, keep)[0] == lookup[k]
  {
    var front := lookup[..|lookup| - 1];
    var last := |lookup| - 1;
    assert forall j | 0 <= j < |front| :: front[j] == lookup[j];
    if keep(lookup[last]) {
      FilterEmpty(front, keep);
      assert ExactlyOne(lookup, keep, last);
    } else {
      FilterOneBack(front, keep);
      var k: nat :| ExactlyOne(front, keep, k) && Filter(front, keep)[0] == front[k];
      assert ExactlyOne(lookup, keep, k);
    }
  }

  /** A tier decides exactly when exactly one place matches at it. */
  lemma FilterSingle(lookup: seq<string>, keep: string -> bool)
    ensures |Filter(lookup, keep)| == 1 <==> Unique(lookup, keep)
  {
    if |Filter(lookup, keep)| == 1 {
      FilterOneBack(lookup, keep);
    }
    if Unique(lookup, keep) {
      var k: nat :| ExactlyOne(lookup, keep, k);
      FilterOne(lookup, keep, k);
    }
  }

  /** `best_match`: the override, else the first tier with exactly one
      match, else nothing (`None`). */
  function BestMatch(chrom: string, lookup: seq<string>): Option<string> {
    if chrom in Manual then Some(Manual[chrom])
    else
      var norm := Normalize(chrom);
      var exact := Filter(lookup, Test(Exact, norm));
      if |exact| == 1 then Some(exact[0])
      else
        var prefix := Filter(lookup, Test(Prefix, norm));
        if |prefix| == 1 then Some(prefix[0])
        else
          var partial := Filter(lookup, Test(Partial, norm));
          if |partial| == 1 then Some(partial[0]) else None
  }

  /** When no earlier tier decides and tier `t` has its single match at `k`,
      that value is the answer. */
  lemma BestMatchTier(chrom: string, lookup: seq<string>, t: Tier, k: nat)
    requires chrom !in Manual
    requires ExactlyOne(lookup, Test(t, Normalize(chrom)), k)
    requires forall t' | Rank(t') < Rank(t) :: !Unique(lookup, Test(t', Normalize(chrom)))
    ensures BestMatch(chrom, lookup) == Some(lookup[k])
  {
    var norm := Normalize(chrom);
    FilterOne(lookup, Test(t, norm), k);
    FilterSingle(lookup, Test(Exact, norm));
    FilterSingle(lookup, Test(Prefix, norm));
  }

  /** Without an override there is no answer exactly when no tier has a
      single match. */
  lemma BestMatchNone(chrom: string, lookup: seq<string>)
    requires chrom !in Manual
    ensures BestMatch(chrom, lookup).None? <==> forall t: Tier :: !Unique(lookup, Test(t, Normalize(chrom)))
  {
    var norm := Normalize(chrom);
    FilterSingle(lookup, Test(Exact, norm));
    FilterSingle(lookup, Test(Prefix, norm));
    FilterSingle(lookup, Test(Partial, norm));
    if BestMatch(chrom, lookup).None? {
      forall t: Tier
        ensures !Unique(lookup, Test(t, norm))
      {
        FilterSingle(lookup, Test(t, norm));
      }
    }
  }

  /** An override is returned whatever the list holds; any other answer is
      the single match of some tier, hence an element of the list. */
  lemma BestMatchFound(chrom: string, lookup: seq<string>)
    ensures chrom in Manual ==> BestMatch(chrom, lookup) == Some(Manual[chrom])
    ensures chrom !in Manual && BestMatch(chrom, lookup).Some? ==>
      exists t: Tier, k: nat :: ExactlyOne(lookup, Test(t, Normalize(chrom)), k) && BestMatch(chrom, lookup).value == lookup[k]
  {
    var norm := Normalize(chrom);
    if chrom !in Manual {
      if |Filter(lookup, Test(Exact, norm))| == 1 {
        FilterOneBack(lookup, Test(Exact, norm));
      } else if |Filter(lookup, Test(Prefix, norm))| == 1 {
        FilterOneBack(lookup, Test(Prefix, norm));
      } else if |Filter(lookup, Test(Partial, norm))| == 1 {
        FilterOneBack(lookup, Test(Partial, norm));
      }
    }
  }

  /** `prompt_user`: the user's answer for a key (the lookup value chosen, or
      the empty text for "undefined"). The dialogue itself is not part of
      this model; since each key is asked at most once, one answer per key
      is all that matters. */
  type Prompt = string -> string

  /** The value appended for a key. */
  function Answer(key: string, lookup: seq<string>, prompt: Prompt): string {
    match BestMatch(key, lookup)
    case Some(v) => v
    case None => prompt(key)
  }

  function Answers(lookup: seq<string>, prompt: Prompt): string -> string {
    k => Answer(k, lookup, prompt)
  }

  /** The tab fields of a non-blank line, after `rstrip`. */
  function LineFields(line: string): Option<seq<string>> {
    var l := RStrip(line);
    if Strip(l) == [] then None else Some(Split(l, "\t"))
  }

  method ReadLine(line: string) returns (f: Option<seq<string>>)
    ensures f == LineFields(line)
  {
    var l := RStrip(line);
    if Strip(l) == [] {
      return None;
    }
    var fields := Split(l, "\t");
    f := Some(fields);
  }

  /** The fields of the non-blank lines, in order. */
  function Present(lines: seq<string>): (p: seq<seq<string>>)
    ensures forall j | 0 <= j < |p| :: |p[j]| >= 1
  {
    if lines == [] then []
    else
      match LineFields(lines[|lines| - 1])
      case None => Present(lines[..|lines| - 1])
      case Some(f) => Present(lines[..|lines| - 1]) + [f]
  }

  lemma PresentSnoc(lines: seq<string>, i: nat)
    requires i < |lines|
    ensures Present(lines[..i + 1]) ==
      match LineFields(lines[i])
      case None => Present(lines[..i])
      case Some(f) => Present(lines[..i]) + [f]
  {
    assert lines[..i + 1][..i] == lines[..i];
  }

  /** The keys (first fields) in order. */
  function KeysOf(p: seq<seq<string>>): (ks: seq<string>)
    requires forall j | 0 <= j < |p| :: |p[j]| >= 1
    ensures |ks| == |p|
  {
    if p == [] then [] else KeysOf(p[..|p| - 1]) + [p[|p| - 1][0]]
  }

  /** The written line for a row's fields. */
  function OutLine(f: seq<string>, answer: string -> string): string
    requires |f| >= 1
  {
    Join(f + [answer(f[0])], "\t")
  }

  /** The written lines. */
  function Written(p: seq<seq<string>>, answer: string -> string): (out: seq<string>)
    requires forall j | 0 <= j < |p| :: |p[j]| >= 1
    ensures |out| == |p|
  {
    if p == [] then [] else Written(p[..|p| - 1], answer) + [OutLine(p[|p| - 1], answer)]
  }

  lemma KeysWrittenSnoc(p: seq<seq<string>>, f: seq<string>, answer: string -> string)
    requires forall j | 0 <= j < |p| :: |p[j]| >= 1
    requires |f| >= 1
    ensures KeysOf(p + [f]) == KeysOf(p) + [f[0]]
    ensures Written(p + [f], answer) == Written(p, answer) + [OutLine(f, answer)]
  {
    assert (p + [f])[..|p|] == p;
  }

  /** The cache holds exactly the keys looked up so far, each with its answer. */
  ghost predicate CacheOk(resolved: map<string, string>, looked: seq<string>, answer: string -> string) {
    && (forall k :: k in resolved <==> k in looked)
    && (forall k | k in resolved :: resolved[k] == answer(k))
  }

  /** The cache lookup of one line: the cached answer, or `best_match` (and,
      failing that, the prompt) whose answer is then cached. */
  method Resolved(resolved: map<string, string>, looked: seq<string>, key: string, lookup: seq<string>, prompt: Prompt)
    returns (answer: string, resolved': map<string, string>, looked': seq<string>)
    requires CacheOk(resolved, looked, Answers(lookup, prompt))
    ensures answer == Answer(key, lookup, prompt)
    ensures looked' == if key in looked then looked else looked + [key]
    ensures CacheOk(resolved', looked', Answers(lookup, prompt))
  {
    resolved', looked' := resolved, looked;
    if key in resolved {
      answer := resolved[key];
    } else {
      var m := BestMatch(key, lookup);
      if m.None? {
        answer := prompt(key);
      } else {
        answer := m.value;
      }
      resolved' := resolved[key := answer];
      looked' := looked + [key];
    }
  }

  /** The loop of `main`. `looked` lists the keys for which `best_match` (and
      possibly the prompt) ran, in order. */
  method Resolve(lines: seq<string>, lookup: seq<string>, prompt: Prompt)
    returns (out: seq<string>, looked: seq<string>)
    ensures out == Written(Present(lines), Answers(lookup, prompt))
    ensures looked == Dedup(KeysOf(Present(lines)))
  {
    var resolved: map<string, string> := map[];
    out, looked := [], [];
    ghost var rows: seq<seq<string>> := [];
    for i := 0 to |lines|
      invariant rows == Present(lines[..i])
      invariant out == Written(rows, Answers(lookup, prompt))
      invariant looked == Dedup(KeysOf(rows))
      invariant CacheOk(resolved, looked, Answers(lookup, prompt))
    {
      var f := ReadLine(lines[i]);
      PresentSnoc(lines, i);
      if f.Some? {
        var fields := f.value;
        KeysWrittenSnoc(rows, fields, Answers(lookup, prompt));
        DedupSnoc(KeysOf(rows), fields[0]);
        var answer;
        answer, resolved, looked := Resolved(resolved, looked, fields[0], lookup, prompt);
        out := out + [Join(fields + [answer], "\t")];
        rows := rows + [fields];
      }
    }
    assert lines[..|lines|] == lines;
  }

  /** `best_match` runs once for each distinct key and never twice for the
      same key. */
  lemma LookedOnce(lines: seq<string>, key: string)
    ensures var looked := Dedup(KeysOf(Present(lines)));
      && (key in looked <==> key in KeysOf(Present(lines)))
      && multiset(looked)[key] <= 1
  {
    DistinctCount(Dedup(KeysOf(Present(lines))), key);
  }

  /** The written line of row `j` splits back into the row's fields plus
      exactly one more: the answer for its key (when that answer holds no tab). */
  lemma OutLineFields(lines: seq<string>, j: nat, lookup: seq<string>, prompt: Prompt)
    requires j < |Present(lines)|
    requires '\t' !in Answer(Present(lines)[j][0], lookup, prompt)
    ensures var f := Present(lines)[j];
      Split(Written(Present(lines), Answers(lookup, prompt))[j], "\t") == f + [Answer(f[0], lookup, prompt)]
  {
    var p := Present(lines);
    WrittenAt(p, j, Answers(lookup, prompt));
    PresentNoTab(lines, j);
    AppendedSplits(p[j], Answer(p[j][0], lookup, prompt));
  }

  /** Joining tab-free fields and one more tab-free field splits back. */
  lemma AppendedSplits(f: seq<string>, a: string)
    requires forall k | 0 <= k < |f| :: '\t' !in f[k]
    requires '\t' !in a
    ensures Split(Join(f + [a], "\t"), "\t") == f + [a]
  {
    var parts := f + [a];
    assert forall k | 0 <= k < |parts| :: '\t' !in parts[k] by {
      assert forall k | 0 <= k < |f| :: parts[k] == f[k];
    }
    SplitJoin(parts, '\t');
  }

  lemma {:induction false} WrittenAt(p: seq<seq<string>>, j: nat, answer: string -> string)
    requires forall k | 0 <= k < |p| :: |p[k]| >= 1
    requires j < |p|
    ensures Written(p, answer)[j] == OutLine(p[j], answer)
  {
    if j < |p| - 1 {
      WrittenAt(p[..|p| - 1], j, answer);
    }
  }

  /** No field of a present row holds a tab. */
  lemma {:induction false} PresentNoTab(lines: seq<string>, j: nat)
    requires j < |Present(lines)|
    ensures forall k | 0 <= k < |Present(lines)[j]| :: '\t' !in Present(lines)[j][k]
  {
    var front := lines[..|lines| - 1];
    var l := RStrip(lines[|lines| - 1]);
    if j < |Present(front)| {
      PresentNoTab(front, j);
    } else {
      var f := Split(l, "\t");
      assert Present(lines)[j] == f;
      SplitNoSep(l, "\t");
      forall k | 0 <= k < |f|
        ensures '\t' !in f[k]
      {
        NoChar(f[k], '\t');
      }
    }
  }
}
