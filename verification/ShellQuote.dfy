/**
 The quoting of values that are put into the Keycloak init script, and the shell rules that undo it: sections
 2.2.1 (backslash) and 2.2.2 (single quotes) of the Shell Command Language in POSIX.1-2017.

 A shell word cannot hold a NUL byte, so what is proved for every string is about NUL-free ones.
 */
module ShellQuote {
  import opened Text

  const QUOTE: char := '\''
  const ESCAPED_QUOTE: string := "'\\''"

  /** `shquote` */
  function Shquote(s: string): string {
    "'" + ReplaceAll(s, "'", ESCAPED_QUOTE) + "'"
  }

  /**
   The value of a word made of quoted parts and escaped quotes, and nothing else. None is any other word: one that
   ends inside quotes, or has another character outside them, escaped or not.
   */
  function Evaluate(word: string, quoted: bool): Option<string> {
    if word == "" then if quoted then None else Some("")
    else if quoted then
      if word[0] == QUOTE then Evaluate(word[1..], false) else Cons(word[0], Evaluate(word[1..], true))
    else if word[0] == QUOTE then Evaluate(word[1..], true)
    else if word[0] == '\\' && |word| > 1 && word[1] == QUOTE then Cons(word[1], Evaluate(word[2..], false))
    else None
  }

  function Cons(c: char, rest: Option<string>): Option<string> {
    match rest case Some(s) => Some([c] + s) case None => None
  }

  /** Text without a quote stands for itself inside quotes. */
  lemma {:induction false} PlainInside(s: string, rest: string)
    requires Free(s, QUOTE)
    ensures Evaluate(s + rest, true) ==
            match Evaluate(rest, true) case Some(r) => Some(s + r) case None => None
  {
    if s == "" {
      assert s + rest == rest;
      if Evaluate(rest, true).Some? {
        assert s + Evaluate(rest, true).value == Evaluate(rest, true).value;
      }
    } else {
      assert (s + rest)[0] == s[0] && (s + rest)[1..] == s[1..] + rest;
      PlainInside(s[1..], rest);
      if Evaluate(rest, true).Some? {
        assert [s[0]] + (s[1..] + Evaluate(rest, true).value) == s + Evaluate(rest, true).value;
      }
    }
  }

  /** Leaving the quotes, an escaped quote, and entering them again stands for one quote. */
  lemma EscapedQuote(rest: string)
    ensures Evaluate(ESCAPED_QUOTE + rest, true) == Cons(QUOTE, Evaluate(rest, true))
  {
    var one := "\\''" + rest;
    assert (ESCAPED_QUOTE + rest)[1..] == one;
    assert one[0] == '\\' && one[1] == QUOTE && one[2..] == "'" + rest;
    assert ("'" + rest)[1..] == rest;
    assert Evaluate("'" + rest, false) == Evaluate(rest, true);
    assert Evaluate(one, false) == Cons(QUOTE, Evaluate("'" + rest, false));
  }

  lemma {:induction false} ReplacedEvaluates(s: string)
    ensures Evaluate(ReplaceAll(s, "'", ESCAPED_QUOTE) + "'", true) == Some(s)
    decreases |s|
  {
    hide *;
    var i := Index(s, "'");
    ReplaceAllStep(s, "'", ESCAPED_QUOTE);
    BeforeQuote(s);
    if i < 0 {
      Closing(s);
    } else {
      ReplacedEvaluates(s[i + 1..]);
      AtQuote(s, i, ReplaceAll(s[i + 1..], "'", ESCAPED_QUOTE));
    }
  }

  lemma AtQuote(s: string, i: nat, replaced: string)
    requires i < |s| && s[i] == QUOTE && Free(s[..i], QUOTE)
    requires Evaluate(replaced + "'", true) == Some(s[i + 1..])
    ensures Evaluate(s[..i] + ESCAPED_QUOTE + replaced + "'", true) == Some(s)
  {
    hide *;
    OneQuote(s[..i], replaced + "'", s[i + 1..]);
    Regroup(s[..i], ESCAPED_QUOTE, replaced, "'");
    assert s == s[..i] + ([QUOTE] + s[i + 1..]);
  }

  lemma OneQuote(head: string, more: string, tail: string)
    requires Free(head, QUOTE) && Evaluate(more, true) == Some(tail)
    ensures Evaluate(head + (ESCAPED_QUOTE + more), true) == Some(head + ([QUOTE] + tail))
  {
    hide Evaluate;
    EscapedQuote(more);
    PlainInside(head, ESCAPED_QUOTE + more);
  }

  lemma Closing(s: string)
    requires Free(s, QUOTE)
    ensures Evaluate(s + "'", true) == Some(s)
  {
    assert "'"[1..] == "" && s + "" == s;
    PlainInside(s, "'");
  }

  lemma BeforeQuote(s: string)
    ensures var i := Index(s, "'");
            if i < 0 then Free(s, QUOTE) else i < |s| && Free(s[..i], QUOTE) && s[i] == QUOTE
  {
    var i := Index(s, "'");
    forall j | 0 <= j < |s| && s[j] == QUOTE ensures OccursAt(s, "'", j) {
      assert s[j..j + 1] == "'";
    }
    if i >= 0 {
      assert s[i..i + 1] == "'";
    }
  }

  /** Quoting round-trips: the shell reads the original string back, for every string. */
  lemma QuotingRoundTrips(s: string)
    ensures Evaluate(Shquote(s), false) == Some(s)
  {
    var inner := ReplaceAll(s, "'", ESCAPED_QUOTE) + "'";
    ReplacedEvaluates(s);
    assert Shquote(s) == "'" + inner;
    assert ("'" + inner)[0] == QUOTE && ("'" + inner)[1..] == inner;
  }

  /** Distinct strings are quoted differently. */
  lemma QuotingInjective(s: string, t: string)
    requires Shquote(s) == Shquote(t)
    ensures s == t
  {
    hide Evaluate;
    hide Shquote;
    QuotingRoundTrips(s);
    QuotingRoundTrips(t);
  }

  /** Text without a quote (0x27) is put between quotes as it is, the empty text too. */
  lemma QuotedWhole(s: string)
    requires forall i | 0 <= i < |s| :: s[i] as int != 0x27
    ensures Shquote(s) == "\U{27}" + s + "\U{27}"
  {
    hide *;
    ReplaceAllStep(s, "'", ESCAPED_QUOTE);
    BeforeQuote(s);
    IsShquote(s);
  }

  lemma IsShquote(s: string)
    ensures Shquote(s) == "'" + ReplaceAll(s, "'", ESCAPED_QUOTE) + "'"
    ensures ESCAPED_QUOTE == "\U{27}\U{5C}\U{27}\U{27}" && "'" == "\U{27}" && "'"[0] == QUOTE
  {
    hide ReplaceAll;
  }

  /** A quote is written as the four bytes that close the quotes, escape one, and open them again. */
  lemma QuotedInParts(s: string, t: string)
    requires forall i | 0 <= i < |s| :: s[i] as int != 0x27
    ensures Shquote(s + "\U{27}" + t) == "\U{27}" + s + "\U{27}\U{5C}\U{27}" + Shquote(t)
  {
    var whole := s + "\U{27}" + t;
    assert whole[|s|] == QUOTE && whole[..|s|] == s && whole[|s| + 1..] == t;
    hide *;
    BeforeQuote(whole);
    IsShquote(whole);
    IsShquote(t);
    assert Index(whole, "'") == |s| by { FirstQuote(whole, |s|); }
    ReplaceAllStep(whole, "'", ESCAPED_QUOTE);
    PartsRegrouped(s, ReplaceAll(t, "'", ESCAPED_QUOTE));
  }

  lemma FirstQuote(s: string, n: nat)
    requires n < |s| && s[n] as int == 0x27 && forall i | 0 <= i < n :: s[..n][i] as int != 0x27
    ensures Index(s, "'") == n
  {
    BeforeQuote(s);
    assert s[n..n + 1] == "'";
    assert OccursAt(s, "'", n);
    hide Index;
    assert forall i | 0 <= i < n :: s[..n][i] == s[i];
  }

  lemma PartsRegrouped(s: string, replaced: string)
    ensures "'" + (s + "'\\''" + replaced) + "'" == "'" + s + "'\\'" + ("'" + replaced + "'")
  {
  }
}
