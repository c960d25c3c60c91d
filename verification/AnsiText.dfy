/**
 The streaming ANSI stripper of the log viewer: control sequences are removed, tabs become four spaces, and
 an unfinished sequence at the end of a chunk is carried into the next one.

 A control sequence is ESC '[' followed by parameter and intermediate bytes (0x20-0x3f) and one final byte
 (0x40-0x7e), section 5.4 of ECMA-48 with the two ranges merged.
 */
module AnsiText {
  import opened Text

  const ESC: char := '\U{1B}'
  const FOUR_SPACES: string := "    "

  predicate IsMiddle(c: char) {
    ' ' <= c <= '?'
  }

  predicate IsFinal(c: char) {
    '@' <= c <= '~'
  }

  datatype Scan = Scan(out: string, rest: string) {
    function Prepend(text: string): Scan {
      Scan(text + out, rest)
    }
  }

  /** For a string that starts with ESC '[': the length up to the first byte that is not a middle byte. */
  function MiddleEnd(s: string): (n: nat)
    requires |s| >= 2
    ensures 2 <= n <= |s|
  {
    2 + SpanLength(s[2..], IsMiddle)
  }

  datatype Step = Unfinished | Cut(length: nat, shown: string)

  /** What the byte loop does at the start of `s`: wait for more, or take some bytes and show a text for them. */
  function FirstStep(s: string): (step: Step)
    requires s != ""
    ensures step.Cut? ==> 0 < step.length <= |s|
  {
    if s[0] == ESC then
      if |s| == 1 then Unfinished
      else if s[1] != '[' then Cut(1, "")
      else if MiddleEnd(s) == |s| then Unfinished
      else if IsFinal(s[MiddleEnd(s)]) then Cut(MiddleEnd(s) + 1, "")
      else Cut(1, "")
    else if s[0] == '\t' then Cut(1, FOUR_SPACES)
    else Cut(1, [s[0]])
  }

  /** The stripper: what is shown of `s`, and the unfinished sequence it ends in. */
  function Strip(s: string): Scan {
    if s == "" then Scan("", "")
    else
      match FirstStep(s)
      case Unfinished => Scan("", s)
      case Cut(n, shown) => Strip(s[n..]).Prepend(shown)
  }

  // ----- the grammar the stripper recognizes -----

  datatype Token = Plain(c: char) | Tab | Sequence(middle: string, final: char) | StrayEscape {
    function Bytes(): string {
      match this
      case Plain(c) => [c]
      case Tab => "\t"
      case Sequence(middle, final) => [ESC, '['] + middle + [final]
      case StrayEscape => [ESC]
    }

    function Shown(): string {
      match this
      case Plain(c) => [c]
      case Tab => FOUR_SPACES
      case Sequence(_, _) => ""
      case StrayEscape => ""
    }

    /** Whether this is how the text `Bytes() + following` starts. */
    predicate Fits(following: string) {
      match this
      case Plain(c) => c != ESC && c != '\t'
      case Tab => true
      case Sequence(middle, final) => AllMiddle(middle) && IsFinal(final)
      case StrayEscape => !IsUnfinished([ESC] + following) && !StartsSequence([ESC] + following)
    }
  }

  predicate AllMiddle(s: string) {
    forall i | 0 <= i < |s| :: IsMiddle(s[i])
  }

  /** Nothing, or a proper prefix of a control sequence. */
  predicate IsUnfinished(s: string) {
    s != "" ==> s[0] == ESC && (|s| > 1 ==> s[1] == '[' && AllMiddle(s[2..]))
  }

  predicate StartsSequence(s: string) {
    exists n | 2 <= n < |s| :: s[..2] == [ESC, '['] && AllMiddle(s[2..n]) && IsFinal(s[n])
  }

  function BytesOf(tokens: seq<Token>): string {
    if tokens == [] then "" else tokens[0].Bytes() + BytesOf(tokens[1..])
  }

  function ShownOf(tokens: seq<Token>): string {
    if tokens == [] then "" else tokens[0].Shown() + ShownOf(tokens[1..])
  }

  /** `tokens` followed by the unfinished `rest` is a reading of `s`. */
  predicate IsReading(tokens: seq<Token>, rest: string, s: string) {
    if tokens == [] then s == rest && IsUnfinished(rest)
    else
      var bytes := tokens[0].Bytes();
      bytes <= s && tokens[0].Fits(s[|bytes|..]) && IsReading(tokens[1..], rest, s[|bytes|..])
  }

  lemma {:induction false} ReadingSpells(tokens: seq<Token>, rest: string, s: string)
    requires IsReading(tokens, rest, s)
    ensures s == BytesOf(tokens) + rest && IsUnfinished(rest)
  {
    hide Token.Bytes;
    hide Token.Fits;
    if tokens != [] {
      var bytes := tokens[0].Bytes();
      ReadingSpells(tokens[1..], rest, s[|bytes|..]);
      assert s == bytes + s[|bytes|..];
      assert s == bytes + (BytesOf(tokens[1..]) + rest);
    } else {
      assert BytesOf(tokens) + rest == rest;
    }
  }

  /** How the middle bytes of a sequence end, for the stripper and for the grammar. */
  lemma MiddleEndIs(s: string, n: nat)
    requires 2 <= n <= |s| && AllMiddle(s[2..n]) && (n < |s| ==> !IsMiddle(s[n]))
    ensures MiddleEnd(s) == n
  {
    assert forall i | 0 <= i < n - 2 :: s[2..n][i] == s[2..][i];
    assert n < |s| ==> s[2..][n - 2] == s[n];
  }

  lemma MiddleEndMiddle(s: string)
    requires |s| >= 2
    ensures AllMiddle(s[2..MiddleEnd(s)])
    ensures MiddleEnd(s) < |s| ==> !IsMiddle(s[MiddleEnd(s)])
  {
    assert forall i | 0 <= i < MiddleEnd(s) - 2 :: s[2..MiddleEnd(s)][i] == s[2..][i];
  }

  /** The stripper's three-way test on an ESC is the grammar's: unfinished, a sequence, or a stray ESC. */
  lemma EscapeCases(s: string)
    requires s != "" && s[0] == ESC
    ensures IsUnfinished(s) <==> |s| == 1 || (s[1] == '[' && MiddleEnd(s) == |s|)
    ensures StartsSequence(s) <==> |s| > 1 && s[1] == '[' && MiddleEnd(s) < |s| && IsFinal(s[MiddleEnd(s)])
  {
    if |s| > 1 {
      var m := MiddleEnd(s);
      MiddleEndMiddle(s);
      if AllMiddle(s[2..]) {
        assert s[2..|s|] == s[2..];
        MiddleEndIs(s, |s|);
      }
      if StartsSequence(s) {
        var n :| 2 <= n < |s| && s[..2] == [ESC, '['] && AllMiddle(s[2..n]) && IsFinal(s[n]);
        MiddleEndIs(s, n);
        assert s[..2][1] == '[';
      }
      if s[1] == '[' && m < |s| && IsFinal(s[m]) {
        assert s[..2] == [ESC, '['];
      }
      if m == |s| {
        assert s[2..m] == s[2..];
      }
    }
  }

  /** Every string has a reading, and the stripper shows it. */
  lemma {:induction false} StripReads(s: string) returns (tokens: seq<Token>)
    ensures IsReading(tokens, Strip(s).rest, s)
    ensures Strip(s).out == ShownOf(tokens)
  {
    if s == "" {
      return [];
    }
    var t: Token;
    if s[0] == ESC {
      EscapeCases(s);
      if IsUnfinished(s) {
        return [];
      }
      if StartsSequence(s) {
        var m := MiddleEnd(s);
        MiddleEndMiddle(s);
        t := Sequence(s[2..m], s[m]);
        assert t.Bytes() == s[..m + 1];
      } else {
        t := StrayEscape;
        assert [ESC] + s[1..] == s;
      }
    } else {
      t := if s[0] == '\t' then Tab else Plain(s[0]);
    }
    var n := |t.Bytes()|;
    assert t.Bytes() == s[..n];
    var more := StripReads(s[n..]);
    tokens := [t] + more;
    assert tokens[1..] == more;
  }

  /** A reading is the only one. */
  lemma {:induction false} ReadingUnique(a: seq<Token>, x: string, b: seq<Token>, y: string, s: string)
    requires IsReading(a, x, s) && IsReading(b, y, s)
    ensures a == b && x == y
  {
    if a == [] && b == [] {
    } else if a == [] {
      UnfinishedHasNoToken(b, y, s);
    } else if b == [] {
      UnfinishedHasNoToken(a, x, s);
    } else {
      FirstTokenUnique(a[0], b[0], s);
      var n := |a[0].Bytes()|;
      ReadingUnique(a[1..], x, b[1..], y, s[n..]);
      assert a == [a[0]] + a[1..] && b == [b[0]] + b[1..];
    }
  }

  lemma TokenOfEscape(t: Token, s: string)
    requires t.Bytes() <= s && t.Fits(s[|t.Bytes()|..]) && s[0] == ESC
    ensures t.Sequence? || t.StrayEscape?
    ensures !IsUnfinished(s) && (t.Sequence? <==> StartsSequence(s))
    ensures t.Sequence? ==> t.middle == s[2..MiddleEnd(s)] && t.final == s[MiddleEnd(s)]
  {
    EscapeCases(s);
    match t {
      case Sequence(middle, final) => SequenceOfEscape(middle, final, s);
      case StrayEscape =>
        assert [ESC] + s[1..] == s;
      case Plain(c) =>
      case Tab =>
    }
  }

  lemma SequenceOfEscape(middle: string, final: char, s: string)
    requires Sequence(middle, final).Bytes() <= s && AllMiddle(middle) && IsFinal(final)
    ensures |s| > 2 + |middle| && s[0] == ESC && s[1] == '[' && MiddleEnd(s) == 2 + |middle|
    ensures middle == s[2..MiddleEnd(s)] && final == s[MiddleEnd(s)]
  {
    var bytes, n := [ESC, '['] + middle + [final], 2 + |middle|;
    assert Sequence(middle, final).Bytes() == bytes;
    hide Token.Bytes;
    assert |bytes| == n + 1 && bytes[0] == ESC && bytes[1] == '[' && bytes[2..n] == middle && bytes[n] == final;
    assert s[..n + 1] == bytes;
    assert s[2..n] == bytes[2..n] && s[0] == bytes[0] && s[1] == bytes[1] && s[n] == bytes[n];
    hide AllMiddle;
    MiddleEndIs(s, n);
  }

  lemma UnfinishedHasNoToken(tokens: seq<Token>, rest: string, s: string)
    requires tokens != [] && IsReading(tokens, rest, s)
    ensures !IsUnfinished(s)
  {
    assert tokens[0].Bytes() <= s;
    if s[0] == ESC {
      TokenOfEscape(tokens[0], s);
    }
  }

  lemma FirstTokenUnique(t: Token, u: Token, s: string)
    requires t.Bytes() <= s && t.Fits(s[|t.Bytes()|..])
    requires u.Bytes() <= s && u.Fits(s[|u.Bytes()|..])
    ensures t == u
  {
    assert s[0] == t.Bytes()[0] == u.Bytes()[0];
    if s[0] == ESC {
      TokenOfEscape(t, s);
      TokenOfEscape(u, s);
    }
  }

  /**
   The stripper is correct for the grammar: whatever way a string can be read as tokens and an unfinished
   rest, the stripper shows those tokens and keeps that rest.
   */
  lemma StripIsReading(tokens: seq<Token>, rest: string, s: string)
    requires IsReading(tokens, rest, s)
    ensures Strip(s) == Scan(ShownOf(tokens), rest)
  {
    var read := StripReads(s);
    ReadingUnique(tokens, rest, read, Strip(s).rest, s);
  }

  // ----- chunks -----

  lemma {:induction false} SpanPrefix(a: string, b: string, p: char -> bool)
    requires SpanLength(a, p) < |a|
    ensures SpanLength(a + b, p) == SpanLength(a, p)
  {
    assert (a + b)[0] == a[0];
    if p(a[0]) {
      assert (a + b)[1..] == a[1..] + b;
      SpanPrefix(a[1..], b, p);
    }
  }

  /** Bytes that come later do not change a step that did not wait for them. */
  lemma StepAppend(a: string, b: string)
    requires a != "" && FirstStep(a).Cut?
    ensures FirstStep(a + b) == FirstStep(a)
  {
    assert (a + b)[0] == a[0];
    if |a| > 1 {
      assert (a + b)[1] == a[1];
      if a[1] == '[' && MiddleEnd(a) < |a| {
        assert (a + b)[2..] == a[2..] + b;
        SpanPrefix(a[2..], b, IsMiddle);
      }
    }
  }

  /** A chunk boundary does not matter: the rest of `a` continues with `b`. */
  lemma {:induction false} StripAppend(a: string, b: string)
    ensures Strip(a + b) == Strip(Strip(a).rest + b).Prepend(Strip(a).out)
  {
    hide FirstStep;
    if a == "" {
      assert a + b == b;
      assert Strip(b).Prepend("") == Strip(b);
    } else {
      var step := FirstStep(a);
      if step.Cut? {
        StepAppend(a, b);
        var tail := a[step.length..];
        StripAppend(tail, b);
        assert (a + b)[step.length..] == tail + b;
        PrependTwice(Strip(Strip(tail).rest + b), Strip(tail).out, step.shown);
      } else {
        assert Strip(a + b).Prepend("") == Strip(a + b);
      }
    }
  }

  /** Stripping chunk by chunk, from a carry. */
  function StripChunks(carry: string, chunks: seq<string>): Scan
    decreases chunks
  {
    if chunks == [] then Scan("", carry)
    else
      var first := Strip(carry + chunks[0]);
      StripChunks(first.rest, chunks[1..]).Prepend(first.out)
  }

  lemma PrependTwice(x: Scan, inner: string, outer: string)
    ensures x.Prepend(inner).Prepend(outer) == x.Prepend(outer + inner)
  {
    assert outer + (inner + x.out) == outer + inner + x.out;
  }

  lemma {:induction false} CarriedOn(carry: string, chunks: seq<string>)
    requires IsUnfinished(carry)
    ensures StripChunks(carry, chunks) == Strip(carry + Concat(chunks))
    decreases chunks
  {
    hide Strip;
    if chunks == [] {
      assert carry + Concat(chunks) == carry;
      StripIsReading([], carry, carry);
    } else {
      var text, more := carry + chunks[0], Concat(chunks[1..]);
      StripRest(text);
      CarriedOn(Strip(text).rest, chunks[1..]);
      StripAppend(text, more);
      assert text + more == carry + (chunks[0] + more);
    }
  }

  /** What is kept is nothing or the start of a control sequence, and it is the end of the input. */
  lemma {:induction false} StripRest(s: string)
    ensures IsUnfinished(Strip(s).rest)
    ensures |Strip(s).rest| <= |s| && s[|s| - |Strip(s).rest|..] == Strip(s).rest
  {
    var tokens := StripReads(s);
    ReadingSpells(tokens, Strip(s).rest, s);
  }

  /** For every way of cutting a stream into chunks, the result is that of the whole stream. */
  lemma ChunkInvariance(chunks: seq<string>)
    ensures StripChunks("", chunks) == Strip(Concat(chunks))
  {
    CarriedOn("", chunks);
    assert "" + Concat(chunks) == Concat(chunks);
  }

  // ----- what is shown -----

  lemma {:induction false} ShownIsClean(s: string)
    ensures Free(Strip(s).out, ESC) && Free(Strip(s).out, '\t')
  {
    hide MiddleEnd;
    if s != "" && FirstStep(s).Cut? {
      ShownIsClean(s[FirstStep(s).length..]);
    }
  }

  lemma {:induction false} CleanIsKept(s: string)
    requires Free(s, ESC) && Free(s, '\t')
    ensures Strip(s) == Scan(s, "")
  {
    if s != "" {
      CleanIsKept(s[1..]);
      assert [s[0]] + s[1..] == s;
    }
  }

  lemma StripIsIdempotent(s: string)
    ensures Strip(Strip(s).out) == Scan(Strip(s).out, "")
  {
    ShownIsClean(s);
    CleanIsKept(Strip(s).out);
  }

  // ----- the regular expression of the whole-log path -----

  predicate IsParameter(c: char) {
    '0' <= c <= '9' || c == ';'
  }

  predicate IsLetter(c: char) {
    'A' <= c <= 'Z' || 'a' <= c <= 'z'
  }

  /** The length of a match of ESC '[' [0-9;]* [A-Za-z] at the start of `s`, or 0. */
  function MatchLength(s: string): (n: nat)
    ensures n <= |s|
  {
    if |s| < 2 || s[0] != ESC || s[1] != '[' then 0
    else
      var n := 2 + SpanLength(s[2..], IsParameter);
      if n < |s| && IsLetter(s[n]) then n + 1 else 0
  }

  /** `ReplaceAllString(s, "")`: matches are removed from left to right. */
  function RemoveMatches(s: string): string {
    if s == "" then ""
    else if MatchLength(s) > 0 then RemoveMatches(s[MatchLength(s)..])
    else [s[0]] + RemoveMatches(s[1..])
  }

  function StripAnsi(s: string): string {
    ReplaceAll(RemoveMatches(s), "\t", FOUR_SPACES)
  }

  /** Every ESC starts a match of the regular expression. */
  predicate OnlyMatches(s: string) {
    forall i | 0 <= i < |s| && s[i] == ESC :: MatchLength(s[i..]) > 0
  }

  /** A match of the regular expression is a control sequence, with one ESC, at its start. */
  lemma MatchIsSequence(s: string)
    requires MatchLength(s) > 0
    ensures |s| > 1 && s[0] == ESC && s[1] == '[' && MiddleEnd(s) + 1 == MatchLength(s) && IsFinal(s[MiddleEnd(s)])
    ensures forall i | 0 < i < MatchLength(s) :: s[i] != ESC
  {
    var n := MatchLength(s) - 1;
    forall i | 2 <= i < n ensures IsParameter(s[i]) {
      assert s[2..][i - 2] == s[i];
    }
    assert forall i | 0 <= i < n - 2 :: IsMiddle(s[2..n][i]);
    MiddleEndIs(s, n);
  }

  lemma IndexShift(c: char, s: string)
    requires c != '\t'
    ensures Index([c] + s, "\t") == if Index(s, "\t") < 0 then -1 else Index(s, "\t") + 1
  {
    var t := [c] + s;
    forall j | 0 <= j < |s| ensures OccursAt(s, "\t", j) <==> OccursAt(t, "\t", j + 1) {
      assert t[j + 1..j + 2] == s[j..j + 1];
    }
    assert !OccursAt(t, "\t", 0);
    var k := Index(t, "\t");
    assert k >= 0 ==> OccursAt(s, "\t", k - 1);
  }

  lemma TabsExpanded(c: char, s: string)
    ensures ReplaceAll([c] + s, "\t", FOUR_SPACES) ==
            (if c == '\t' then FOUR_SPACES else [c]) + ReplaceAll(s, "\t", FOUR_SPACES)
  {
    var t := [c] + s;
    if c == '\t' {
      TabFirst(t);
    } else {
      IndexShift(c, s);
    }
    ExpandedStep(c, s, "\t", FOUR_SPACES);
    hide *;
  }

  lemma TabFirst(t: string)
    requires t != "" && t[0] == '\t'
    ensures Index(t, "\t") == 0
  {
    assert OccursAt(t, "\t", 0);
  }

  /** One more character in front, in terms of where the first `v` is found. */
  lemma ExpandedStep(c: char, s: string, v: string, substitute: string)
    requires |v| == 1
    requires Index([c] + s, v) == if c == v[0] then 0 else if Index(s, v) < 0 then -1 else Index(s, v) + 1
    ensures ReplaceAll([c] + s, v, substitute) == (if c == v[0] then substitute else [c]) + ReplaceAll(s, v, substitute)
  {
    var t := [c] + s;
    IndexBound(s, v);
    hide *;
    ReplaceAllStep(t, v, substitute);
    ReplaceAllStep(s, v, substitute);
    if c == v[0] {
      assert t[1..] == s && t[..0] + substitute == substitute;
    } else {
      var k := Index(s, v);
      if k >= 0 {
        assert t[..k + 1] == [c] + s[..k] && t[k + 2..] == s[k + 1..];
        Regroup([c], s[..k], substitute, ReplaceAll(s[k + 1..], v, substitute));
      }
    }
  }

  lemma IndexBound(s: string, v: string)
    ensures Index(s, v) + |v| <= |s| || Index(s, v) < 0
  {
  }

  lemma OnlyMatchesAfter(s: string, n: nat)
    requires OnlyMatches(s) && n <= |s|
    ensures OnlyMatches(s[n..])
  {
    forall i | 0 <= i < |s[n..]| && s[n..][i] == ESC ensures MatchLength(s[n..][i..]) > 0 {
      assert s[n..][i..] == s[n + i..];
    }
  }

  lemma {:induction false} OnlyMatchesAgrees(s: string)
    requires OnlyMatches(s)
    ensures Strip(s) == Scan(StripAnsi(s), "")
  {
    if s != "" {
      if s[0] == ESC {
        assert s[0..] == s;
        MatchIsSequence(s);
        OnlyMatchesAfter(s, MatchLength(s));
        OnlyMatchesAgrees(s[MatchLength(s)..]);
      } else {
        OnlyMatchesAfter(s, 1);
        OnlyMatchesAgrees(s[1..]);
        TabsExpanded(s[0], RemoveMatches(s[1..]));
      }
    }
  }

  lemma {:induction false} RegexKeepsOtherEscapes(s: string)
    ensures Free(RemoveMatches(s), ESC) ==> OnlyMatches(s)
  {
    if s != "" && Free(RemoveMatches(s), ESC) {
      var n := if MatchLength(s) > 0 then MatchLength(s) else 1;
      RemovedStep(s);
      hide *;
      RegexKeepsOtherEscapes(s[n..]);
      OnlyMatchesFrom(s, n);
    }
  }

  /** Nothing that the expression matches is an ESC but the first character, and what it leaves is no ESC here. */
  lemma RemovedStep(s: string)
    requires s != "" && Free(RemoveMatches(s), ESC)
    ensures var n := if MatchLength(s) > 0 then MatchLength(s) else 1;
            && n <= |s| && Free(RemoveMatches(s[n..]), ESC)
            && (s[0] == ESC ==> MatchLength(s) > 0)
            && forall i | 0 < i < n :: s[i] != ESC
  {
    RemoveStep(s);
    if MatchLength(s) > 0 {
      MatchIsSequence(s);
    } else {
      FreeParts([s[0]], RemoveMatches(s[1..]), ESC);
      assert [s[0]][0] == s[0];
    }
    hide MatchLength;
    hide RemoveMatches;
  }

  lemma RemoveStep(s: string)
    requires s != ""
    ensures RemoveMatches(s) ==
            if MatchLength(s) > 0 then RemoveMatches(s[MatchLength(s)..]) else [s[0]] + RemoveMatches(s[1..])
  {
    hide MatchLength;
  }

  lemma OnlyMatchesFrom(s: string, n: nat)
    requires 0 < n <= |s| && OnlyMatches(s[n..])
    requires (s[0] == ESC ==> MatchLength(s) > 0) && forall i | 0 < i < n :: s[i] != ESC
    ensures OnlyMatches(s)
  {
    hide MatchLength;
    forall i | 0 <= i < |s| && s[i] == ESC ensures MatchLength(s[i..]) > 0 {
      if i == 0 {
        assert s[0..] == s;
      } else {
        SliceOfSlice(s, n, i - n);
        assert s[n..][i - n] == ESC;
      }
    }
  }

  lemma {:induction false} ExpandingKeepsEscapes(s: string)
    ensures Free(ReplaceAll(s, "\t", FOUR_SPACES), ESC) ==> Free(s, ESC)
  {
    if s != "" {
      var head, tail := if s[0] == '\t' then FOUR_SPACES else [s[0]], s[1..];
      assert s == [s[0]] + tail;
      TabsExpanded(s[0], tail);
      ExpandingKeepsEscapes(tail);
      FreeParts(head, ReplaceAll(tail, "\t", FOUR_SPACES), ESC);
      FreeParts([s[0]], tail, ESC);
      assert [s[0]][0] == s[0];
      hide ReplaceAll;
    }
  }

  lemma FreeParts(a: string, b: string, c: char)
    ensures Free(a + b, c) <==> Free(a, c) && Free(b, c)
  {
    assert forall i | 0 <= i < |a| :: (a + b)[i] == a[i];
    assert forall i | 0 <= i < |b| :: (a + b)[|a| + i] == b[i];
  }

  /**
   The streaming stripper and the regular expression of the whole-log path agree on exactly those logs in
   which every ESC starts a match of the expression.
   */
  lemma StripAgreesWithRegex(s: string)
    ensures Strip(s) == Scan(StripAnsi(s), "") <==> OnlyMatches(s)
  {
    if OnlyMatches(s) {
      OnlyMatchesAgrees(s);
    }
    if Strip(s) == Scan(StripAnsi(s), "") {
      ShownIsClean(s);
      ExpandingKeepsEscapes(RemoveMatches(s));
      RegexKeepsOtherEscapes(s);
    }
  }

  // ----- the loop of the source -----

  /** The byte loop: `i` is the next byte to look at, `j` looks for the end of a control sequence. */
  method StripBytes(b: string) returns (out: string, from: nat)
    ensures from <= |b|
    ensures Strip(b) == Scan(out, b[from..])
  {
    hide FirstStep;
    hide IsMiddle;
    hide IsFinal;
    hide Strip;
    out := "";
    var i := 0;
    assert b[0..] == b && Strip(b).Prepend("") == Strip(b);
    while i < |b|
      invariant 0 <= i <= |b|
      invariant Strip(b) == Strip(b[i..]).Prepend(out)
    {
      var c := b[i];
      ghost var here := b[i..];
      if c == ESC {
        if i + 1 >= |b| {
          LoopStep(here, 0);
          Waits(b, i, out);
          return out, i;
        }
        if b[i + 1] != '[' {
          LoopStep(here, 0);
          Advances(b, i, out, 1, "");
          i := i + 1;
          continue;
        }
        var j := i + 2;
        while j < |b| && IsMiddle(b[j])
          invariant i + 2 <= j <= |b|
          invariant AllMiddle(here[2..j - i])
        {
          assert here[2..j + 1 - i] == here[2..j - i] + [b[j]];
          j := j + 1;
        }
        LoopStep(here, j - i);
        if j >= |b| {
          Waits(b, i, out);
          return out, i;
        }
        if IsFinal(b[j]) {
          Advances(b, i, out, j + 1 - i, "");
          i := j + 1;
          continue;
        }
        Advances(b, i, out, 1, "");
        i := i + 1;
      } else if c == '\t' {
        LoopStep(here, 0);
        Advances(b, i, out, 1, FOUR_SPACES);
        out := out + FOUR_SPACES;
        i := i + 1;
      } else {
        LoopStep(here, 0);
        Advances(b, i, out, 1, [c]);
        out := out + [c];
        i := i + 1;
      }
    }
    Done(b, i, out);
    from := |b|;
  }

  lemma Done(b: string, i: nat, out: string)
    requires i == |b| && Strip(b) == Strip(b[i..]).Prepend(out)
    ensures Strip(b) == Scan(out, b[i..])
  {
    assert b[i..] == "" && out + "" == out;
  }

  lemma Advances(b: string, i: nat, out: string, n: nat, shown: string)
    requires i < |b| && Strip(b) == Strip(b[i..]).Prepend(out) && FirstStep(b[i..]) == Cut(n, shown)
    ensures i + n <= |b| && Strip(b) == Strip(b[i + n..]).Prepend(out + shown) && out + "" == out
  {
    hide *;
    StripStep(b[i..]);
    SliceOfSlice(b, i, n);
    PrependTwice(Strip(b[i + n..]), shown, out);
  }

  lemma SliceOfSlice(b: string, i: nat, n: nat)
    requires i + n <= |b|
    ensures b[i..][n..] == b[i + n..]
  {
  }

  lemma StripStep(s: string)
    requires s != "" && FirstStep(s).Cut?
    ensures Strip(s) == Strip(s[FirstStep(s).length..]).Prepend(FirstStep(s).shown)
  {
    hide FirstStep;
  }

  lemma Waits(b: string, i: nat, out: string)
    requires i < |b| && Strip(b) == Strip(b[i..]).Prepend(out) && FirstStep(b[i..]).Unfinished?
    ensures Strip(b) == Scan(out, b[i..])
  {
    hide FirstStep;
    assert Strip(b[i..]) == Scan("", b[i..]);
    assert out + "" == out;
  }

  /** The step at the start of `s`, by the cases of the loop; `m` is where the middle bytes end. */
  lemma LoopStep(s: string, m: nat)
    requires s != ""
    requires s[0] == ESC && |s| > 1 && s[1] == '[' ==>
      2 <= m <= |s| && AllMiddle(s[2..m]) && (m < |s| ==> !IsMiddle(s[m]))
    ensures FirstStep(s) ==
      if s[0] == ESC then
        if |s| == 1 then Unfinished
        else if s[1] != '[' then Cut(1, "")
        else if m == |s| then Unfinished
        else if IsFinal(s[m]) then Cut(m + 1, "")
        else Cut(1, "")
      else Cut(1, if s[0] == '\t' then FOUR_SPACES else [s[0]])
  {
    if s[0] == ESC && |s| > 1 && s[1] == '[' {
      MiddleEndIs(s, m);
    }
  }
}
