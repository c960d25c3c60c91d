/**
 Bundle keys such as `archive/2025.5-RC1.1`: what a key means, and the recursive parser that reads it.

 The meaning is given by plain functions on the text (scope, version numbers, suffix groups); the parser is
 the loop-and-recursion of the source, proved to compute that meaning.
 */
module BundleKey {
  import opened Text

  datatype SuffixPart = Name(text: string) | Number(key: Key)
  datatype Key = Key(scope: seq<string>, versionParts: seq<int>, suffixParts: seq<SuffixPart>)

  predicate IsDigitOrDot(c: char) {
    c == '.' || '0' <= c <= '9'
  }

  predicate IsLetterOrDigit(c: char) {
    'a' <= c <= 'z' || 'A' <= c <= 'Z' || '0' <= c <= '9'
  }

  predicate IsNumeric(s: string) {
    forall i | 0 <= i < |s| :: IsDigitOrDot(s[i])
  }

  // ----- meaning -----

  function NonEmpty(parts: seq<string>): seq<string> {
    if parts == [] then []
    else (if parts[0] != "" then [parts[0]] else []) + NonEmpty(parts[1..])
  }

  /** The position of the last `c` in `s`, or -1. */
  function LastIndexOf(s: string, c: char): (r: int)
    ensures -1 <= r < |s|
    ensures r >= 0 ==> s[r] == c
    ensures forall i | r < i < |s| :: s[i] != c
  {
    if s == "" then -1
    else if s[|s| - 1] == c then |s| - 1
    else LastIndexOf(s[..|s| - 1], c)
  }

  /** The segments before the last '/', empty ones dropped. */
  function ScopeOf(raw: string): seq<string> {
    var i := LastIndexOf(raw, '/');
    if i < 0 then [] else NonEmpty(Split(raw[..i], '/'))
  }

  /** What follows the last '/'. */
  function FinalSegment(raw: string): (s: string)
    ensures |s| <= |raw|
    ensures Free(s, '/')
  {
    raw[LastIndexOf(raw, '/') + 1..]
  }

  /** The leading digits and dots. */
  function VersionOf(segment: string): string {
    segment[..SpanLength(segment, IsDigitOrDot)]
  }

  /** The rest, without one separator in front. */
  function SuffixOf(segment: string): string {
    var rest := segment[SpanLength(segment, IsDigitOrDot)..];
    if rest != "" && !IsLetterOrDigit(rest[0]) then rest[1..] else rest
  }

  /** The numbers among dot-separated parts: a part that is empty or does not fit 64 bits is dropped. */
  function Numbers(parts: seq<string>): seq<int> {
    if parts == [] then []
    else (match ParseInt(parts[0]) case Some(n) => [n] case None => []) + Numbers(parts[1..])
  }

  function StripZeros(ns: seq<int>): (r: seq<int>)
    ensures r <= ns
    ensures r != [] ==> r[|r| - 1] != 0
  {
    if ns != [] && ns[|ns| - 1] == 0 then StripZeros(ns[..|ns| - 1]) else ns
  }

  function VersionNumbers(version: string): seq<int> {
    StripZeros(Numbers(Split(version, '.')))
  }

  /** Every group is non-empty and all numeric or all not, and neighbours differ: a maximal alternating cut. */
  ghost predicate IsGrouping(groups: seq<string>, s: string) {
    && Concat(groups) == s
    && (forall i | 0 <= i < |groups| :: groups[i] != "" && Uniform(groups[i]))
    && (forall i | 0 < i < |groups| && groups[i - 1] != "" && groups[i] != "" ::
          IsDigitOrDot(groups[i - 1][0]) != IsDigitOrDot(groups[i][0]))
  }

  predicate Uniform(g: string) {
    forall i | 0 <= i < |g| :: IsDigitOrDot(g[i]) == IsDigitOrDot(g[0])
  }

  /** The grouping of a suffix (there is exactly one, `GroupingUnique`). */
  function Groups(s: string): (groups: seq<string>)
    ensures s == "" ==> groups == []
    ensures s != "" ==> groups != [] && groups[0] != "" && groups[0][0] == s[0]
  {
    if s == "" then []
    else
      var rest := Groups(s[1..]);
      if rest != [] && IsDigitOrDot(rest[0][0]) == IsDigitOrDot(s[0]) then [[s[0]] + rest[0]] + rest[1..]
      else [[s[0]]] + rest
  }

  /** What one suffix group stands for: a nested number without scope or suffix, or the text itself. */
  function PartOf(group: string): SuffixPart {
    if group != "" && IsDigitOrDot(group[0]) then Number(Key([], VersionNumbers(group), [])) else Name(group)
  }

  function PartsOf(groups: seq<string>): seq<SuffixPart>
  {
    seq(|groups|, i requires 0 <= i < |groups| => PartOf(groups[i]))
  }

  /** What a final segment means in a scope. */
  function MeaningIn(scope: seq<string>, segment: string): Key {
    Key(scope, VersionNumbers(VersionOf(segment)), PartsOf(Groups(SuffixOf(segment))))
  }

  /** What a raw key means. */
  function Meaning(raw: string): Key {
    MeaningIn(ScopeOf(raw), FinalSegment(raw))
  }

  // ----- facts about the meaning -----

  lemma {:induction false} GroupsAreGrouping(s: string)
    ensures IsGrouping(Groups(s), s)
  {
    if s != "" {
      GroupsAreGrouping(s[1..]);
      var rest := Groups(s[1..]);
      var all := Groups(s);
      if rest != [] && IsDigitOrDot(rest[0][0]) == IsDigitOrDot(s[0]) {
        assert all[1..] == rest[1..];
        assert Concat(rest) == rest[0] + Concat(rest[1..]);
      } else {
        assert all[1..] == rest;
      }
      assert [s[0]] + s[1..] == s;
    }
  }

  /** A string has one grouping. */
  lemma {:induction false} GroupingUnique(a: seq<string>, b: seq<string>, s: string)
    requires IsGrouping(a, s) && IsGrouping(b, s)
    ensures a == b
  {
    if s != "" {
      GroupingHead(a, s);
      GroupingHead(b, s);
      var n := |a[0]|;
      assert a[0] == b[0];
      GroupingTail(a, s);
      GroupingTail(b, s);
      GroupingUnique(a[1..], b[1..], s[n..]);
      assert a == [a[0]] + a[1..] && b == [b[0]] + b[1..];
    }
  }

  /** The first group is as long as it can be. */
  lemma GroupingHead(a: seq<string>, s: string)
    requires IsGrouping(a, s) && s != ""
    ensures a != [] && a[0] != "" && a[0] <= s
    ensures |a[0]| < |s| ==> IsDigitOrDot(s[|a[0]|]) != IsDigitOrDot(s[0])
  {
    assert a != [];
    assert s == a[0] + Concat(a[1..]);
    if |a[0]| < |s| {
      assert a[1..] != [];
      assert a[1] != "" && Concat(a[1..]) == a[1] + Concat(a[1..][1..]);
      assert s[|a[0]|] == a[1][0];
    }
  }

  lemma GroupingTail(a: seq<string>, s: string)
    requires IsGrouping(a, s) && a != []
    ensures a[0] <= s && IsGrouping(a[1..], s[|a[0]|..])
  {
    assert s == a[0] + Concat(a[1..]);
  }

  /** A numeric string is its own version, with nothing before or after it. */
  lemma NumericIsFlat(s: string)
    requires IsNumeric(s)
    ensures ScopeOf(s) == [] && FinalSegment(s) == s && VersionOf(s) == s && SuffixOf(s) == ""
    ensures Meaning(s) == Key([], VersionNumbers(s), [])
  {
    hide VersionNumbers;
    hide Groups;
    assert forall i | 0 <= i < |s| :: IsDigitOrDot(s[i]) && s[i] != '/';
    assert SpanLength(s, IsDigitOrDot) == |s|;
  }

  /** The numeric groups of a suffix are strictly shorter than the key: this is why the parser terminates. */
  lemma NumericGroupsAreShorter(segment: string, groups: seq<string>, i: nat)
    requires IsGrouping(groups, SuffixOf(segment)) && i < |groups| && IsDigitOrDot(groups[i][0])
    ensures |groups[i]| < |segment| && IsNumeric(groups[i])
  {
    var suffix := SuffixOf(segment);
    assert groups == groups[..i] + [groups[i]] + groups[i + 1..];
    ConcatAppend(groups[..i] + [groups[i]], groups[i + 1..]);
    ConcatAppend(groups[..i], [groups[i]]);
    assert Concat([groups[i]]) == groups[i] + Concat([groups[i]][1..]) == groups[i];
    assert |groups[i]| <= |suffix|;
    if |suffix| == |segment| {
      // nothing was cut off, so the suffix starts with a letter, in a group before this one
      assert suffix == segment && !IsDigitOrDot(suffix[0]);
      GroupingHead(groups, suffix);
      assert i != 0;
      assert groups[..i] == [groups[0]] + groups[1..i];
      assert Concat(groups[..i]) == groups[0] + Concat(groups[..i][1..]);
    }
  }

  // ----- the parser -----

  /** Cuts a suffix at every change between digits-or-dots and the rest, one pass over its characters. */
  method SplitSuffixGroups(s: string) returns (groups: seq<string>)
    ensures IsGrouping(groups, s)
    ensures groups == Groups(s)
  {
    hide IsGrouping;
    GroupsAreGrouping(s);
    if s == "" {
      return [];
    }
    groups := [];
    assert IsGrouping([], "") by { EmptyGrouping(); }
    var start := 0;
    for i := 1 to |s|
      invariant 0 <= start < i
      invariant IsGrouping(groups, s[..start])
      invariant forall k | start <= k < i :: IsDigitOrDot(s[k]) == IsDigitOrDot(s[start])
      invariant groups != [] ==>
        groups[|groups| - 1] != "" && IsDigitOrDot(groups[|groups| - 1][0]) != IsDigitOrDot(s[start])
    {
      var prevType := IsDigitOrDot(s[i - 1]);
      var curType := IsDigitOrDot(s[i]);
      if prevType != curType {
        AddGroup(groups, s[..start], s[start..i]);
        assert s[..start] + s[start..i] == s[..i];
        groups := groups + [s[start..i]];
        start := i;
      }
    }
    AddGroup(groups, s[..start], s[start..]);
    assert s[..start] + s[start..] == s;
    groups := groups + [s[start..]];
    GroupingUnique(groups, Groups(s), s);
  }

  lemma EmptyGrouping()
    ensures IsGrouping([], "")
  {
  }

  lemma AddGroup(groups: seq<string>, s: string, g: string)
    requires IsGrouping(groups, s) && g != "" && Uniform(g)
    requires groups != [] ==> groups[|groups| - 1] != "" && IsDigitOrDot(groups[|groups| - 1][0]) != IsDigitOrDot(g[0])
    ensures IsGrouping(groups + [g], s + g)
  {
    ConcatAppend(groups, [g]);
    assert Concat([g]) == g + Concat([g][1..]);
  }

  method ParseScope(scopeStr: string) returns (scope: seq<string>)
    ensures scope == NonEmpty(Split(scopeStr, '/'))
  {
    scope := [];
    var segments := Split(scopeStr, '/');
    for i := 0 to |segments|
      invariant scope == NonEmpty(segments[..i])
    {
      assert segments[..i + 1] == segments[..i] + [segments[i]];
      NonEmptyAppend(segments[..i], segments[i]);
      if segments[i] != "" {
        scope := scope + [segments[i]];
      }
    }
    assert segments[..|segments|] == segments;
  }

  method ParseVersion(versionStr: string) returns (versionParts: seq<int>)
    ensures versionParts == VersionNumbers(versionStr)
  {
    hide ParseInt;
    hide Split;
    versionParts := [];
    var fields := Split(versionStr, '.');
    for i := 0 to |fields|
      invariant versionParts == Numbers(fields[..i])
    {
      assert fields[..i + 1] == fields[..i] + [fields[i]];
      NumbersAppend(fields[..i], [fields[i]]);
      var n := ParseInt(fields[i]);
      if n.Some? {
        versionParts := versionParts + [n.value];
      }
    }
    assert fields[..|fields|] == fields;
    while |versionParts| > 0 && versionParts[|versionParts| - 1] == 0
      invariant StripZeros(versionParts) == VersionNumbers(versionStr)
    {
      versionParts := versionParts[..|versionParts| - 1];
    }
  }

  /** The recursive parser computes the meaning of its input, and stops. */
  method ParseBundleKey(raw: string) returns (key: Key)
    ensures key == Meaning(raw)
    decreases |raw|, 1
  {
    var text := raw;
    var scope := [];
    var idx := LastIndexOf(text, '/');
    if idx != -1 {
      scope := ParseScope(text[..idx]);
      text := text[idx + 1..];
    }
    assert text == FinalSegment(raw) && scope == ScopeOf(raw);

    var firstNonVersion := SpanLength(text, IsDigitOrDot);
    var suffixStr := text[firstNonVersion..];
    if suffixStr != "" && !IsLetterOrDigit(suffixStr[0]) {
      suffixStr := suffixStr[1..];
    }
    var versionParts := ParseVersion(text[..firstNonVersion]);
    var suffixParts := ParseSuffix(suffixStr, text);
    key := Key(scope, versionParts, suffixParts);
  }

  /** The suffix part of the parser: numeric groups are parsed by the key parser again. */
  method ParseSuffix(suffixStr: string, ghost segment: string) returns (suffixParts: seq<SuffixPart>)
    requires suffixStr == SuffixOf(segment)
    ensures suffixParts == PartsOf(Groups(suffixStr))
    decreases |segment|, 0
  {
    hide SuffixOf;
    hide VersionNumbers;
    hide Groups;
    suffixParts := [];
    if suffixStr != "" {
      var groups := SplitSuffixGroups(suffixStr);
      for i := 0 to |groups|
        invariant suffixParts == PartsOf(groups)[..i]
      {
        var group := groups[i];
        assert PartsOf(groups)[..i + 1] == PartsOf(groups)[..i] + [PartOf(group)];
        if group != "" && IsDigitOrDot(group[0]) {
          NestedGroup(segment, groups, i);
          var nested := ParseBundleKey(group);
          suffixParts := suffixParts + [Number(nested)];
        } else {
          suffixParts := suffixParts + [Name(group)];
        }
      }
    }
  }

  lemma NestedGroup(segment: string, groups: seq<string>, i: nat)
    requires IsGrouping(groups, SuffixOf(segment)) && i < |groups| && IsDigitOrDot(groups[i][0])
    ensures |groups[i]| < |segment| && PartOf(groups[i]) == Number(Meaning(groups[i]))
  {
    NumericGroupsAreShorter(segment, groups, i);
    NumericIsFlat(groups[i]);
  }

  lemma {:induction false} NonEmptyAppend(parts: seq<string>, last: string)
    ensures NonEmpty(parts + [last]) == NonEmpty(parts) + if last != "" then [last] else []
  {
    if parts != [] {
      assert (parts + [last])[1..] == parts[1..] + [last];
      NonEmptyAppend(parts[1..], last);
    }
  }

  lemma {:induction false} NumbersAppend(a: seq<string>, b: seq<string>)
    ensures Numbers(a + b) == Numbers(a) + Numbers(b)
  {
    hide ParseInt;
    if a == [] {
      assert a + b == b;
    } else {
      assert (a + b)[1..] == a[1..] + b;
      NumbersAppend(a[1..], b);
    }
  }
}
