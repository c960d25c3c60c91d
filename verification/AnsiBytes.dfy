/**
 What the stripper and the regular expression do, said of byte numbers alone.

 A stream that is not empty starts in one of the ways below, and each says what is shown for it, so together they
 determine the stripper without the predicates it is written with.
 */
module AnsiBytes {
  import opened Text
  import opened AnsiText

  predicate AllWithin(m: string, low: int, high: int) {
    forall i | 0 <= i < |m| :: low <= m[i] as int <= high
  }

  /** How a text that starts with ESC '[' goes on. */
  lemma Opened(s: string, m: string, t: string)
    requires s == "\U{1B}[" + m + t && AllWithin(m, 0x20, 0x3f)
    requires t != "" ==> !(0x20 <= t[0] as int <= 0x3f)
    ensures s[0] == ESC && s[1] == '[' && MiddleEnd(s) == 2 + |m|
    ensures t != "" ==> s[2 + |m|] == t[0]
  {
    assert s[2..2 + |m|] == m;
    MiddleEndIs(s, 2 + |m|);
  }

  /** A control sequence vanishes: ESC, '[', any bytes of 0x20..0x3f, and one of 0x40..0x7e. */
  lemma SequenceVanishes(m: string, f: char, b: string)
    requires AllWithin(m, 0x20, 0x3f) && 0x40 <= f as int <= 0x7e
    ensures Strip("\U{1B}[" + m + [f] + b) == Strip(b)
  {
    var s := "\U{1B}[" + m + [f] + b;
    assert s == "\U{1B}[" + m + ([f] + b);
    Opened(s, m, [f] + b);
    assert s[3 + |m|..] == b;
    assert FirstStep(s) == Cut(3 + |m|, "");
    StripStep(s);
    NothingShown(Strip(b));
    hide Strip;
  }

  lemma NothingShown(x: Scan)
    ensures x.Prepend("") == x
  {
    assert "" + x.out == x.out;
  }

  /** If a byte of neither range comes first, only the ESC goes. */
  lemma BrokenSequence(m: string, c: char, b: string)
    requires AllWithin(m, 0x20, 0x3f) && !(0x20 <= c as int <= 0x7e)
    ensures Strip("\U{1B}[" + m + [c] + b) == Strip("[" + m + [c] + b)
  {
    var s := "\U{1B}[" + m + [c] + b;
    assert s == "\U{1B}[" + m + ([c] + b);
    Opened(s, m, [c] + b);
    assert s[1..] == "[" + m + [c] + b;
    assert FirstStep(s) == Cut(1, "");
    StripStep(s);
    NothingShown(Strip(s[1..]));
    hide Strip;
  }

  /** An ESC that is not followed by '[' goes alone. */
  lemma StrayEscape(c: char, b: string)
    requires c as int != 0x5b
    ensures Strip("\U{1B}" + [c] + b) == Strip([c] + b)
  {
    var s := "\U{1B}" + [c] + b;
    assert s[0] == ESC && s[1] == c && s[1..] == [c] + b;
    StripStep(s);
    NothingShown(Strip(s[1..]));
    hide Strip;
  }

  /** What could still become a control sequence is carried, and nothing is shown for it. */
  lemma UnfinishedIsCarried(m: string)
    requires AllWithin(m, 0x20, 0x3f)
    ensures Strip("\U{1B}[" + m) == Scan("", "\U{1B}[" + m)
    ensures Strip("\U{1B}") == Scan("", "\U{1B}")
  {
    var s := "\U{1B}[" + m;
    assert s == "\U{1B}[" + m + "";
    Opened(s, m, "");
    hide MiddleEnd;
  }

  /** A tab (0x09) is shown as four spaces (0x20). */
  lemma TabIsFourSpaces(b: string)
    ensures Strip("\U{09}" + b) == Strip(b).Prepend("\U{20}\U{20}\U{20}\U{20}")
  {
    var s := "\U{09}" + b;
    assert s[0] == '\t' && s[1..] == b;
    StripStep(s);
    hide Strip;
  }

  /** Every other byte is shown as it is, line feeds and other control bytes too. */
  lemma OthersAreShown(c: char, b: string)
    requires c as int != 0x1b && c as int != 0x09
    ensures Strip([c] + b) == Strip(b).Prepend([c])
  {
    var s := [c] + b;
    assert s[1..] == b;
    StripStep(s);
    hide Strip;
  }

  // ----- the regular expression -----

  predicate IsParameterByte(n: int) {
    0x30 <= n <= 0x39 || n == 0x3b
  }

  predicate IsLetterByte(n: int) {
    0x41 <= n <= 0x5a || 0x61 <= n <= 0x7a
  }

  /** After ESC '[' and parameters (digits and ';') there is a match exactly when a letter follows. */
  lemma MatchIs(m: string, t: string)
    requires forall i | 0 <= i < |m| :: IsParameterByte(m[i] as int)
    requires t != "" ==> !IsParameterByte(t[0] as int)
    ensures MatchLength("\U{1B}[" + m + t) == if t != "" && IsLetterByte(t[0] as int) then 3 + |m| else 0
  {
    var s := "\U{1B}[" + m + t;
    assert s[0] == ESC && s[1] == '[' && s[2..] == m + t;
    SpanIs(m, t, IsParameter);
    assert t != "" ==> s[2 + |m|] == t[0];
  }

  /** Nothing matches that does not start with ESC '['. */
  lemma NoMatch(s: string)
    requires |s| < 2 || s[0] as int != 0x1b || s[1] as int != 0x5b
    ensures MatchLength(s) == 0
  {
  }

  /** The expression removes a colour code, and of any other text keeps the first byte. */
  lemma MatchesGo(m: string, f: char, b: string)
    requires (forall i | 0 <= i < |m| :: IsParameterByte(m[i] as int)) && IsLetterByte(f as int)
    ensures StripAnsi("\U{1B}[" + m + [f] + b) == StripAnsi(b)
  {
    var s := "\U{1B}[" + m + [f] + b;
    assert s == "\U{1B}[" + m + ([f] + b);
    MatchIs(m, [f] + b);
    assert s[3 + |m|..] == b;
    RemoveStep(s);
    hide RemoveMatches;
  }

  lemma OthersStay(s: string)
    requires s != "" && MatchLength(s) == 0
    ensures StripAnsi(s) == (if s[0] as int == 0x09 then "    " else [s[0]]) + StripAnsi(s[1..])
  {
    RemoveStep(s);
    TabsExpanded(s[0], RemoveMatches(s[1..]));
    hide RemoveMatches;
    hide MatchLength;
  }
}
