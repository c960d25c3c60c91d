/**
 What the accepted forms of a pull period are worth, with the numbers written out: days, hours, minutes and seconds
 of an ISO 8601 duration, in either case, and the seconds of a bare number.
 */
module PeriodSpelling {
  import opened Text
  import opened PullPeriod

  /** The units are these and no others, in nanoseconds. */
  lemma UnitsAre(c: char)
    ensures DateUnits.Of(c) == if c == 'D' then Some(86_400_000_000_000) else None
    ensures TimeUnits.Of(c) ==
            if c == 'H' then Some(3_600_000_000_000)
            else if c == 'M' then Some(60_000_000_000)
            else if c == 'S' then Some(1_000_000_000)
            else None
  {
  }

  function OneDate(d: nat): seq<Component> {
    [Component(Itoa(d), 'D')]
  }

  function OneTime(h: nat, m: nat, s: nat): seq<Component> {
    [Component(Itoa(h), 'H'), Component(Itoa(m), 'M'), Component(Itoa(s), 'S')]
  }

  lemma FitsAndIs(n: nat, c: char, units: Units, unit: int)
    requires n <= 9223372036854775807 && units.Of(c) == Some(unit)
    ensures Component(Itoa(n), c).Fits(units) && Component(Itoa(n), c).Value(units) == n * unit
  {
    ParseItoa(n);
    hide ParseInt;
    hide Itoa;
    hide Units.Of;
  }

  lemma DateTotal(d: nat)
    requires d <= 9223372036854775807
    ensures AllFit(OneDate(d), DateUnits) && Total(OneDate(d), DateUnits) == d * 86_400_000_000_000
    ensures Spelled(OneDate(d)) == Itoa(d) + "D" && OneDate(d) != []
  {
    UnitsAre('D');
    FitsAndIs(d, 'D', DateUnits, 86_400_000_000_000);
    NothingSpelled(DateUnits);
    OneMoreComponent(Component(Itoa(d), 'D'), [], DateUnits);
    assert [Component(Itoa(d), 'D')] + [] == OneDate(d);
    assert Total([], DateUnits) == 0;
    hide Component.Fits;
    hide Component.Value;
    hide Itoa;
    hide Units.Of;
  }

  lemma OneMoreUnit(n: nat, c: char, unit: int, more: seq<Component>)
    requires n <= 9223372036854775807 && TimeUnits.Of(c) == Some(unit) && AllFit(more, TimeUnits)
    ensures var all := [Component(Itoa(n), c)] + more;
            && AllFit(all, TimeUnits) && Total(all, TimeUnits) == n * unit + Total(more, TimeUnits)
            && Spelled(all) == Itoa(n) + [c] + Spelled(more)
  {
    FitsAndIs(n, c, TimeUnits, unit);
    OneMoreComponent(Component(Itoa(n), c), more, TimeUnits);
    hide Component.Fits;
    hide Component.Value;
    hide Itoa;
    hide Units.Of;
  }

  lemma TimeTotal(h: nat, m: nat, s: nat)
    requires h <= 9223372036854775807 && m <= 9223372036854775807 && s <= 9223372036854775807
    ensures AllFit(OneTime(h, m, s), TimeUnits)
    ensures Total(OneTime(h, m, s), TimeUnits) == h * 3_600_000_000_000 + m * 60_000_000_000 + s * 1_000_000_000
    ensures Spelled(OneTime(h, m, s)) == Itoa(h) + "H" + (Itoa(m) + "M" + (Itoa(s) + "S"))
  {
    UnitsAre('H');
    UnitsAre('M');
    UnitsAre('S');
    NothingSpelled(TimeUnits);
    assert Total([], TimeUnits) == 0;
    hide *;
    var seconds := [Component(Itoa(s), 'S')] + [];
    var minutes := [Component(Itoa(m), 'M')] + seconds;
    var hours := [Component(Itoa(h), 'H')] + minutes;
    OneMoreUnit(s, 'S', 1_000_000_000, []);
    OneMoreUnit(m, 'M', 60_000_000_000, seconds);
    OneMoreUnit(h, 'H', 3_600_000_000_000, minutes);
    assert hours == OneTime(h, m, s) by { OneTimeIs(h, m, s); }
    assert Itoa(s) + "S" + "" == Itoa(s) + "S";
  }

  lemma OneTimeIs(h: nat, m: nat, s: nat)
    ensures OneTime(h, m, s) ==
            [Component(Itoa(h), 'H')] + ([Component(Itoa(m), 'M')] + ([Component(Itoa(s), 'S')] + []))
  {
    hide Itoa;
  }

  /** The text of a duration in all four units. */
  function DurationText(d: nat, h: nat, m: nat, s: nat): string {
    "P" + Itoa(d) + "DT" + Itoa(h) + "H" + Itoa(m) + "M" + Itoa(s) + "S"
  }

  lemma DurationTextIs(d: nat, h: nat, m: nat, s: nat)
    requires Spelled(OneDate(d)) == Itoa(d) + "D"
    requires Spelled(OneTime(h, m, s)) == Itoa(h) + "H" + (Itoa(m) + "M" + (Itoa(s) + "S"))
    ensures Prefixed(false, Parts(OneDate(d), true, OneTime(h, m, s))) == DurationText(d, h, m, s)
    ensures Prefixed(true, Parts(OneDate(d), true, OneTime(h, m, s))) == "-" + DurationText(d, h, m, s)
  {
    hide Itoa;
    hide Spelled;
    var seconds := Itoa(s) + "S";
    var minutes := Itoa(m) + "M" + seconds;
    var hours := Itoa(h) + "H" + minutes;
    DurationTextEnds(d, h, m, s);
    assert Parts(OneDate(d), true, OneTime(h, m, s)) == Itoa(d) + "D" + ("T" + hours) by {
      RegroupThree(Itoa(m), "M", seconds);
      RegroupThree(Itoa(h), "H", minutes);
    }
    hide Parts;
    hide DurationText;
    hide Prefixed;
    PrefixedIs(Itoa(d), hours);
  }

  lemma PrefixedIs(days: string, hours: string)
    ensures Prefixed(false, days + "D" + ("T" + hours)) == "P" + days + "DT" + hours
    ensures Prefixed(true, days + "D" + ("T" + hours)) == "-" + ("P" + days + "DT" + hours)
  {
    var parts := days + "D" + ("T" + hours);
    assert "P" + days + "DT" + hours == "P" + parts;
    assert ['P'] + parts == "P" + parts && ['-', 'P'] + parts == "-" + ("P" + parts);
  }

  lemma DurationTextEnds(d: nat, h: nat, m: nat, s: nat)
    ensures DurationText(d, h, m, s) == "P" + Itoa(d) + "DT" + (Itoa(h) + "H" + (Itoa(m) + "M" + (Itoa(s) + "S")))
  {
    hide Itoa;
    var head := "P" + Itoa(d) + "DT";
    RegroupThree(head + Itoa(h) + "H" + Itoa(m) + "M", Itoa(s), "S");
    EndsRegrouped(head + Itoa(h) + "H", Itoa(m), "M", Itoa(s) + "S");
    EndsRegrouped(head, Itoa(h), "H", Itoa(m) + "M" + (Itoa(s) + "S"));
  }

  lemma EndsRegrouped(a: string, b: string, c: string, d: string)
    ensures a + b + c + d == a + (b + c + d)
  {
  }

  /** Days, hours, minutes and seconds are worth what they say, with a minus sign in front its negative. */
  lemma DurationDenotes(d: nat, h: nat, m: nat, s: nat)
    requires d <= 9223372036854775807 && h <= 9223372036854775807
    requires m <= 9223372036854775807 && s <= 9223372036854775807
    ensures var n := (((d * 24 + h) * 60 + m) * 60 + s) * 1_000_000_000;
            DenotedISO(DurationText(d, h, m, s)) == Some(n) && DenotedISO("-" + DurationText(d, h, m, s)) == Some(-n)
  {
    hide *;
    DateTotal(d);
    TimeTotal(h, m, s);
    DurationTextIs(d, h, m, s);
    SpellingIs(OneDate(d), OneTime(h, m, s));
    ISOSpelledIsDenoted(false, OneDate(d), true, OneTime(h, m, s));
    ISOSpelledIsDenoted(true, OneDate(d), true, OneTime(h, m, s));
    SignedIs(Total(OneDate(d), DateUnits) + Total(OneTime(h, m, s), TimeUnits));
  }

  lemma SpellingIs(date: seq<Component>, time: seq<Component>)
    requires AllFit(date, DateUnits) && AllFit(time, TimeUnits) && date != []
    ensures IsSpelling(date, true, time)
  {
  }

  lemma SignedIs(n: int)
    ensures Signed(false, Some(n)) == Some(n) && Signed(true, Some(n)) == Some(-n)
  {
  }

  // ----- what is accepted -----

  /** A text in any case that reads as a duration is no number, and is taken for ISO 8601. */
  lemma ReadsAsISO(t: string, upper: string)
    requires ToUpper(t) == upper && upper != "" && upper[0] == 'P'
    ensures t != "" && ParseInt(t).None? && LooksISO(t) && DenotedPeriod(t) == DenotedISO(upper)
  {
    assert |t| == |upper| && UpperChar(t[0]) == 'P';
    assert t[0] == 'P' || t[0] == 'p';
    assert !AllDigits(t);
    hide DenotedISO;
  }

  /** An accepted number of nanoseconds is returned as it is. */
  lemma AnswersAre(t: string, n: int)
    requires t != "" && (ParseInt(t).Some? || LooksISO(t)) && DenotedPeriod(t) == Some(n)
    ensures n <= 9223372036854775807 && n >= -9223372036854775808 ==>
              forall goDuration, d, ok | IsAnswer(t, goDuration, d, ok) :: (ok <==> n > 0) && (ok ==> d == n)
  {
    hide *;
    if n <= 9223372036854775807 && n >= -9223372036854775808 {
      assert IsInt64(n) by { InRange(n); }
      forall goDuration, d, ok | IsAnswer(t, goDuration, d, ok) ensures (ok <==> n > 0) && (ok ==> d == n) {
        RightIffItFits(t, goDuration, d, ok);
      }
    }
  }

  lemma InRange(n: int)
    ensures IsInt64(n) <==> -9223372036854775808 <= n <= 9223372036854775807
  {
  }

  /** Written in any case, a duration of up to 292 years is accepted, unless it is zero, and returned as it is. */
  lemma DurationIsAccepted(d: nat, h: nat, m: nat, s: nat, t: string)
    requires ToUpper(t) == DurationText(d, h, m, s)
    requires (((d * 24 + h) * 60 + m) * 60 + s) * 1_000_000_000 <= 9223372036854775807
    ensures var n := (((d * 24 + h) * 60 + m) * 60 + s) * 1_000_000_000;
            && DenotedPeriod(t) == Some(n)
            && forall goDuration, r, ok | IsAnswer(t, goDuration, r, ok) :: (ok <==> n > 0) && (ok ==> r == n)
  {
    hide *;
    DurationDenotes(d, h, m, s);
    StartsWithP(d, h, m, s);
    ReadsAsISO(t, DurationText(d, h, m, s));
    AnswersAre(t, (((d * 24 + h) * 60 + m) * 60 + s) * 1_000_000_000);
  }

  /** With a minus sign in front it is refused, and never left to the parser of Go durations. */
  lemma NegativeIsRefused(d: nat, h: nat, m: nat, s: nat, t: string)
    requires ToUpper(t) == "-" + DurationText(d, h, m, s)
    requires (((d * 24 + h) * 60 + m) * 60 + s) * 1_000_000_000 <= 9223372036854775807
    ensures forall goDuration, r, ok | IsAnswer(t, goDuration, r, ok) :: !ok
  {
    hide *;
    DurationDenotes(d, h, m, s);
    StartsWithP(d, h, m, s);
    ReadsAsNegative(t, DurationText(d, h, m, s));
    AnswersAre(t, -((((d * 24 + h) * 60 + m) * 60 + s) * 1_000_000_000));
  }

  lemma ReadsAsNegative(t: string, upper: string)
    requires ToUpper(t) == "-" + upper && upper != "" && upper[0] == 'P'
    ensures t != "" && ParseInt(t).None? && LooksISO(t) && DenotedPeriod(t) == DenotedISO("-" + upper)
  {
    var all := "-" + upper;
    assert |t| == |all| && UpperChar(t[0]) == '-' && UpperChar(t[1]) == 'P' by {
      assert ToUpper(t)[0] == all[0] && ToUpper(t)[1] == all[1];
    }
    assert t[0] == '-' && t[1..][0] == t[1] && !AllDigits(t[1..]);
    hide DenotedISO;
    hide Decimal;
  }

  lemma StartsWithP(d: nat, h: nat, m: nat, s: nat)
    ensures DurationText(d, h, m, s) != "" && DurationText(d, h, m, s)[0] == 'P'
  {
    hide Itoa;
  }

  /** A bare number is a number of seconds. */
  lemma NumberIsSeconds(n: nat)
    requires n <= 9223372036854775807
    ensures DenotedPeriod(Itoa(n)) == Some(n * 1_000_000_000)
    ensures n <= 9223372036 ==>
              forall goDuration, d, ok | IsAnswer(Itoa(n), goDuration, d, ok) ::
                (ok <==> n > 0) && (ok ==> d == n * 1_000_000_000)
  {
    ParseItoa(n);
    hide Itoa;
    hide ParseInt;
    assert DenotedPeriod(Itoa(n)) == Some(n * 1_000_000_000);
    hide *;
    AnswersAre(Itoa(n), n * 1_000_000_000);
  }

  /** A number of 64 bits, with the bounds written out. */
  function IfItFits(n: int): Option<int> {
    if -9223372036854775808 <= n <= 9223372036854775807 then Some(n) else None
  }

  /** A sign counts, and a number that does not fit 64 bits is none. */
  lemma SignedNumbers(n: nat)
    ensures ParseInt(Itoa(n)) == ParseInt("+" + Itoa(n)) == IfItFits(n)
    ensures ParseInt("-" + Itoa(n)) == IfItFits(0 - n)
  {
    var digits := Itoa(n);
    hide Itoa;
    hide Decimal;
    assert IsDigit(digits[0]);
    assert ("+" + digits)[0] == '+' && ("+" + digits)[1..] == digits;
    assert ("-" + digits)[0] == '-' && ("-" + digits)[1..] == digits;
  }

  /** A number below zero is refused, whatever its size. */
  lemma NegativeNumberIsRefused(n: nat)
    requires n <= 9223372036854775808
    ensures forall goDuration, d, ok | IsAnswer("-" + Itoa(n), goDuration, d, ok) :: !ok
  {
    SignedNumbers(n);
    assert "-" + Itoa(n) != "";
    hide Itoa;
    hide ParseInt;
    hide Wrap64;
    hide DenotedISO;
    hide LooksISO;
    hide ToLower;
  }

  /** One component, behind the T or before it. */
  lemma OneUnit(digits: string, c: char, n: nat, unit: int)
    requires AllDigits(digits) && digits != "" && ParseInt(digits) == Some(n) && TimeUnits.Of(c) == Some(unit)
    ensures DenotedISO("PT" + digits + [c]) == Some(n * unit)
  {
    var p := Component(digits, c);
    assert p.Fits(TimeUnits) && p.Value(TimeUnits) == n * unit by { hide ParseInt; hide Units.Of; }
    NothingSpelled(TimeUnits);
    NothingSpelled(DateUnits);
    OneMoreComponent(p, [], TimeUnits);
    assert [p] + [] == [p] && digits + [c] + "" == digits + [c];
    assert Total([], TimeUnits) == 0 && Total([], DateUnits) == 0;
    hide Component.Fits;
    hide Component.Value;
    hide ParseInt;
    hide Units.Of;
    hide DenotedISO;
    assert Spelled([p]) == digits + [c] && Total([p], TimeUnits) == n * unit;
    hide Spelled;
    hide Total;
    hide AllFit;
    assert Prefixed(false, Parts([], true, [p])) == "PT" + digits + [c];
    ISOSpelledIsDenoted(false, [], true, [p]);
    SignedIs(n * unit);
  }

  lemma TwoDigits(s: string, n: nat)
    requires |s| == 2 && AllDigits(s) && n == (s[0] as int - 0x30) * 10 + (s[1] as int - 0x30)
    ensures ParseInt(s) == Some(n)
  {
    assert IsDigit(s[0]) && IsDigit(s[1]);
    assert s[..1] == [s[0]] && [s[0]][..0] == "";
    assert Decimal([s[0]]) == s[0] as int - 0x30;
    assert Decimal(s) == n;
  }

  /** The half hour that the source gives as an example is half an hour, in either case. */
  lemma HalfAnHour(t: string)
    requires t == "PT30M" || t == "pt30m"
    ensures forall goDuration, d, ok | IsAnswer(t, goDuration, d, ok) :: ok && d == 30 * 60 * 1_000_000_000
  {
    TwoDigits("30", 30);
    UnitsAre('M');
    OneUnit("30", 'M', 30, 60_000_000_000);
    assert "PT" + "30" + ['M'] == "PT30M";
    UpperHalfHour(t);
    hide *;
    ReadsAsISO(t, "PT30M");
    AnswersAre(t, 30 * 60 * 1_000_000_000);
  }

  lemma UpperHalfHour(t: string)
    requires t == "PT30M" || t == "pt30m"
    ensures ToUpper(t) == "PT30M" && "PT30M"[0] == 'P'
  {
    var u := "PT30M";
    assert |t| == 5 && u == ['P', 'T', '3', '0', 'M'];
    assert UpperChar(t[0]) == u[0] && UpperChar(t[1]) == u[1] && UpperChar(t[2]) == u[2];
    assert UpperChar(t[3]) == u[3] && UpperChar(t[4]) == u[4];
  }

  // ----- spaces -----

  /** A text without its spaces (0x20). */
  function WithoutSpaces(s: string): string {
    if s == "" then "" else (if s[0] as int == 0x20 then "" else [s[0]]) + WithoutSpaces(s[1..])
  }

  lemma {:induction false} WithoutSpacesOfBoth(a: string, b: string)
    ensures WithoutSpaces(a + b) == WithoutSpaces(a) + WithoutSpaces(b)
  {
    if a == "" {
      assert a + b == b;
    } else {
      assert (a + b)[0] == a[0] && (a + b)[1..] == a[1..] + b;
      WithoutSpacesOfBoth(a[1..], b);
    }
  }

  lemma {:induction false} NoSpaces(s: string)
    requires Free(s, ' ')
    ensures WithoutSpaces(s) == s
  {
    if s != "" {
      NoSpaces(s[1..]);
      assert s == [s[0]] + s[1..];
    }
  }

  lemma FirstSpace(s: string)
    ensures var i := Index(s, " ");
            if i < 0 then Free(s, ' ')
            else i < |s| && Free(s[..i], ' ') && s[i] == ' '
  {
    var i := Index(s, " ");
    forall j | 0 <= j < |s| && s[j] == ' ' ensures OccursAt(s, " ", j) {
      assert s[j..j + 1] == " ";
    }
    if i >= 0 {
      assert s[i..i + 1] == " ";
    }
  }

  lemma {:induction false} SpacesGo(s: string)
    ensures ReplaceAll(s, " ", "") == WithoutSpaces(s)
    decreases |s|
  {
    hide *;
    var i := Index(s, " ");
    FirstSpace(s);
    ReplaceAllStep(s, " ", "");
    if i < 0 {
      NoSpaces(s);
    } else {
      SpacesGo(s[i + 1..]);
      NoSpaces(s[..i]);
      CutAround(s, i);
      WithoutSpacesOfBoth(s[..i], [' '] + s[i + 1..]);
      SpaceFirst(s[i + 1..]);
    }
  }

  lemma CutAround(s: string, i: nat)
    requires i < |s|
    ensures s == s[..i] + ([s[i]] + s[i + 1..]) && s[..i] + "" + ReplaceAll(s[i + 1..], " ", "") ==
            s[..i] + ReplaceAll(s[i + 1..], " ", "")
  {
    hide *;
  }

  lemma SpaceFirst(s: string)
    ensures WithoutSpaces([' '] + s) == WithoutSpaces(s)
  {
    assert ([' '] + s)[1..] == s;
  }

  /** What is read is the text without white space around it and without spaces inside. */
  lemma SqueezedIs(text: string) returns (from: nat, to: nat)
    ensures IsTrimmed(text, from, to) && Squeezed(text) == WithoutSpaces(text[from..to])
  {
    from, to := TrimmedIs(text);
    SpacesGo(TrimSpace(text));
    hide TrimSpace;
    hide ReplaceAll;
  }
}
