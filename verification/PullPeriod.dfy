/**
 Pull periods of bundle repositories: a bare number of seconds, an ISO 8601 duration, or a Go duration.

 Durations are 64-bit nanosecond counts, and the arithmetic wraps. What a text denotes is an unbounded number;
 the parsers return it modulo 2^64. Parsing Go's own duration form is a parameter.
 */
module PullPeriod {
  import opened Text

  const SECOND: int := 1_000_000_000
  const MINUTE: int := 60 * SECOND
  const HOUR: int := 60 * MINUTE
  const DAY: int := 24 * HOUR

  datatype Units = DateUnits | TimeUnits {
    function Of(c: char): Option<int> {
      match this
      case DateUnits => if c == 'D' then Some(DAY) else None
      case TimeUnits =>
        if c == 'H' then Some(HOUR) else if c == 'M' then Some(MINUTE) else if c == 'S' then Some(SECOND) else None
    }
  }

  function Nanoseconds(n: int, unit: int): int {
    n * unit
  }

  // ----- wrap-around -----

  const MODULUS: int := 0x1_0000_0000_0000_0000

  /** Wrapping takes off whole turns, and a number in range has none to take off. */
  lemma WrapTurns(n: int) returns (turns: int)
    ensures Wrap64(n) == n - turns * MODULUS && MIN_INT64 <= Wrap64(n) <= MAX_INT64
  {
    turns := (n - Wrap64(n)) / MODULUS;
  }

  lemma OnlyOneInRange(a: int, b: int, turns: int)
    requires MIN_INT64 <= a <= MAX_INT64 && MIN_INT64 <= b <= MAX_INT64 && a - b == turns * MODULUS
    ensures a == b
  {
  }

  /** Numbers that are whole turns apart wrap to the same value. */
  lemma WrapCongruent(a: int, b: int, turns: int)
    requires a - b == turns * MODULUS
    ensures Wrap64(a) == Wrap64(b)
  {
    var m := WrapTurns(a);
    var n := WrapTurns(b);
    hide Wrap64;
    OnlyOneInRange(Wrap64(a), Wrap64(b), turns - m + n);
  }

  /** Wrapping the terms of a sum first makes no difference. */
  lemma WrapSum(a: int, b: int)
    ensures Wrap64(Wrap64(a) + Wrap64(b)) == Wrap64(a + b)
  {
    var m := WrapTurns(a);
    var n := WrapTurns(b);
    hide Wrap64;
    WrapCongruent(Wrap64(a) + Wrap64(b), a + b, -m - n);
  }

  lemma WrapNegation(a: int)
    ensures Wrap64(-Wrap64(a)) == Wrap64(-a)
  {
    var m := WrapTurns(a);
    hide Wrap64;
    WrapCongruent(-Wrap64(a), -a, m);
  }

  // ----- components -----

  datatype Component = Component(digits: string, unit: char) {
    function Text(): string {
      digits + [unit]
    }

    predicate Fits(units: Units) {
      digits != "" && AllDigits(digits) && ParseInt(digits).Some? && units.Of(unit).Some?
    }

    function Value(units: Units): int
      requires Fits(units)
    {
      Nanoseconds(ParseInt(digits).value, units.Of(unit).value)
    }
  }

  function Spelled(parts: seq<Component>): string {
    if parts == [] then "" else parts[0].Text() + Spelled(parts[1..])
  }

  predicate AllFit(parts: seq<Component>, units: Units) {
    forall i | 0 <= i < |parts| :: parts[i].Fits(units)
  }

  function Total(parts: seq<Component>, units: Units): int
    requires AllFit(parts, units)
  {
    if parts == [] then 0 else parts[0].Value(units) + Total(parts[1..], units)
  }

  /** The number that a run of components denotes, or None when the text is no such run. */
  function Denoted(s: string, units: Units): Option<int>
    decreases |s|
  {
    if s == "" then Some(0)
    else
      var n := SpanLength(s, IsDigit);
      if n == 0 || n == |s| || units.Of(s[n]).None? || ParseInt(s[..n]).None? then None
      else
        match Denoted(s[n + 1..], units)
        case None => None
        case Some(rest) => Some(Nanoseconds(ParseInt(s[..n]).value, units.Of(s[n]).value) + rest)
  }

  lemma UnitIsNoDigit(units: Units, c: char)
    requires units.Of(c).Some?
    ensures !IsDigit(c)
  {
  }

  lemma {:induction false} DenotedIsSpelled(s: string, units: Units) returns (parts: seq<Component>)
    requires Denoted(s, units).Some?
    ensures AllFit(parts, units) && Spelled(parts) == s && Denoted(s, units) == Some(Total(parts, units))
    decreases |s|
  {
    hide *;
    if s == "" {
      parts := [];
      NothingSpelled(units);
    } else {
      FirstFits(s, units);
      var n := SpanLength(s, IsDigit);
      var p := Component(s[..n], s[n]);
      var more := DenotedIsSpelled(s[n + 1..], units);
      parts := [p] + more;
      OneMoreComponent(p, more, units);
      assert s == s[..n] + [s[n]] + s[n + 1..];
    }
  }

  lemma FirstFits(s: string, units: Units)
    requires s != "" && Denoted(s, units).Some?
    ensures var n := SpanLength(s, IsDigit);
            && n < |s| && Denoted(s[n + 1..], units).Some?
            && var p := Component(s[..n], s[n]);
            && p.Fits(units) && p.Text() == s[..n] + [s[n]]
            && Denoted(s, units) == Some(p.Value(units) + Denoted(s[n + 1..], units).value)
  {
    hide ParseInt;
    hide Nanoseconds;
    hide Units.Of;
  }

  lemma OneMoreComponent(p: Component, more: seq<Component>, units: Units)
    requires p.Fits(units) && AllFit(more, units)
    ensures AllFit([p] + more, units) && Spelled([p] + more) == p.Text() + Spelled(more)
    ensures Total([p] + more, units) == p.Value(units) + Total(more, units)
  {
    assert ([p] + more)[1..] == more;
    hide Component.Fits;
    hide Component.Text;
    hide Component.Value;
  }

  /** The first component of a text whose digits end at `n`. */
  function FirstComponent(s: string, n: nat, units: Units): Option<int>
    requires n < |s|
  {
    if n == 0 || units.Of(s[n]).None? || ParseInt(s[..n]).None? then None
    else Some(Nanoseconds(ParseInt(s[..n]).value, units.Of(s[n]).value))
  }

  function Plus(a: Option<int>, b: Option<int>): Option<int> {
    if a.Some? && b.Some? then Some(a.value + b.value) else None
  }

  predicate DigitsUpTo(s: string, n: nat) {
    n < |s| && AllDigits(s[..n]) && !IsDigit(s[n])
  }

  /** A text denotes its first component and what follows it. */
  lemma DenotedStep(s: string, n: nat, units: Units)
    requires DigitsUpTo(s, n)
    ensures Denoted(s, units) == Plus(FirstComponent(s, n, units), Denoted(s[n + 1..], units))
  {
    hide ParseInt;
    hide Units.Of;
    hide Nanoseconds;
    assert s == s[..n] + [s[n]] + s[n + 1..];
    SpanIs(s[..n], s[n..], IsDigit);
    assert s[..n] + s[n..] == s;
  }

  /** A text is accepted exactly when it can be spelled as components that fit, and denotes their total. */
  lemma {:induction false} SpelledIsDenoted(parts: seq<Component>, units: Units)
    requires AllFit(parts, units)
    ensures Denoted(Spelled(parts), units) == Some(Total(parts, units))
  {
    hide *;
    if parts == [] {
      NothingSpelled(units);
    } else {
      FitsRest(parts, units);
      SpelledIsDenoted(parts[1..], units);
      FirstSpelled(parts[0], Spelled(parts[1..]), units);
      SpelledStep(parts, units);
      PlusSome(parts[0].Value(units), Total(parts[1..], units));
    }
  }

  lemma NothingSpelled(units: Units)
    ensures AllFit([], units) && Denoted(Spelled([]), units) == Some(Total([], units)) && Spelled([]) == ""
  {
  }

  lemma PlusSome(a: int, b: int)
    ensures Plus(Some(a), Some(b)) == Some(a + b)
  {
  }

  lemma SpelledStep(parts: seq<Component>, units: Units)
    requires parts != [] && AllFit(parts, units)
    ensures Spelled(parts) == parts[0].Text() + Spelled(parts[1..])
    ensures AllFit(parts[1..], units)
    ensures parts[0].Value(units) + Total(parts[1..], units) == Total(parts, units)
  {
    hide Component.Value;
    hide Component.Text;
    FitsRest(parts, units);
    hide Component.Fits;
  }

  lemma FitsRest(parts: seq<Component>, units: Units)
    requires parts != [] && AllFit(parts, units)
    ensures parts[0].Fits(units) && AllFit(parts[1..], units)
  {
    hide Component.Fits;
  }

  lemma FirstSpelled(p: Component, rest: string, units: Units)
    requires p.Fits(units)
    ensures Denoted(p.Text() + rest, units) == Plus(Some(p.Value(units)), Denoted(rest, units))
  {
    hide ParseInt;
    hide Nanoseconds;
    hide Denoted;
    var s, n := p.Text() + rest, |p.digits|;
    UnitIsNoDigit(units, p.unit);
    hide Units.Of;
    assert s[..n] == p.digits && s[n] == p.unit && s[n + 1..] == rest;
    DenotedStep(s, n, units);
  }

  lemma DenotedHead(s: string, units: Units) returns (n: nat)
    requires s != "" && Denoted(s, units).Some?
    ensures DigitsUpTo(s, n)
  {
    hide ParseInt;
    hide Nanoseconds;
    n := SpanLength(s, IsDigit);
    UnitIsNoDigit(units, s[n]);
  }

  /** What a text denotes from `from` on, when its digits end at `i`. */
  lemma ComponentAt(s: string, from: nat, i: nat, units: Units)
    requires from <= i < |s| && (forall k | from <= k < i :: IsDigit(s[k])) && !IsDigit(s[i])
    ensures Denoted(s[from..], units) ==
            if i == from || units.Of(s[i]).None? || ParseInt(s[from..i]).None? then None
            else Plus(Some(Nanoseconds(ParseInt(s[from..i]).value, units.Of(s[i]).value)), Denoted(s[i + 1..], units))
  {
    hide ParseInt;
    hide Units.Of;
    hide Denoted;
    hide Nanoseconds;
    var here, n := s[from..], i - from;
    assert here[..n] == s[from..i] && here[n + 1..] == s[i + 1..] && here[n] == s[i];
    DenotedStep(here, n, units);
  }

  lemma FirstOfAppend(s: string, n: nat, t: string, units: Units)
    requires DigitsUpTo(s, n)
    ensures DigitsUpTo(s + t, n) && FirstComponent(s + t, n, units) == FirstComponent(s, n, units)
    ensures (s + t)[n + 1..] == s[n + 1..] + t
  {
    hide ParseInt;
    hide Units.Of;
    hide Nanoseconds;
    assert (s + t)[..n] == s[..n] && (s + t)[n] == s[n];
  }

  /** The total of two runs written one after the other is the sum of their totals. */
  lemma {:induction false} DenotedConcat(s: string, t: string, units: Units)
    requires Denoted(s, units).Some?
    ensures Denoted(s + t, units) == Plus(Denoted(s, units), Denoted(t, units))
    decreases |s|
  {
    hide Denoted;
    hide FirstComponent;
    hide DigitsUpTo;
    if s == "" {
      Nothing(units);
      assert s + t == t;
    } else {
      var n := DenotedHead(s, units);
      HeadInside(s, n);
      DenotedStep(s, n, units);
      FirstOfAppend(s, n, t, units);
      DenotedStep(s + t, n, units);
      DenotedConcat(s[n + 1..], t, units);
      assert Denoted(s + t, units) == Plus(FirstComponent(s, n, units), Denoted(s[n + 1..] + t, units));
    }
  }

  lemma HeadInside(s: string, n: nat)
    requires DigitsUpTo(s, n)
    ensures n < |s|
  {
  }

  /** The scan of the source: `numStart` is where the digits of the current component begin. */
  method ParseISOComponents(s: string, units: Units) returns (total: int, ok: bool)
    ensures ok <==> Denoted(s, units).Some?
    ensures ok ==> total == Wrap64(Denoted(s, units).value)
    ensures !ok ==> total == 0
  {
    hide Wrap64;
    hide ParseInt;
    hide Nanoseconds;
    hide Units.Of;
    hide Denoted;
    Nothing(units);
    total := 0;
    ghost var sum := 0;
    var numStart := 0;
    assert s[0..] == s;
    assert total == Wrap64(sum) by { WrapSmall(0); }
    for i := 0 to |s|
      invariant 0 <= numStart <= i
      invariant forall k | numStart <= k < i :: IsDigit(s[k])
      invariant total == Wrap64(sum)
      invariant Denoted(s, units) == Plus(Some(sum), Denoted(s[numStart..], units))
    {
      if IsDigit(s[i]) {
        continue;
      }
      var here := s[numStart..];
      ComponentAt(s, numStart, i, units);
      var unit := units.Of(s[i]);
      if unit.None? || i == numStart {
        return 0, false;
      }
      var n := ParseInt(s[numStart..i]);
      if n.None? {
        return 0, false;
      }
      var term := Nanoseconds(n.value, unit.value);
      WrapSum(sum, term);
      total := Wrap64(total + Wrap64(term));
      sum := sum + term;
      numStart := i + 1;
    }
    if numStart != |s| {
      TrailingDigits(s[numStart..], units);
      return 0, false;
    }
    assert s[numStart..] == "";
    ok := true;
  }

  lemma Nothing(units: Units)
    ensures Denoted("", units) == Some(0)
  {
  }

  lemma WrapSmall(n: int)
    requires MIN_INT64 <= n <= MAX_INT64
    ensures Wrap64(n) == n
  {
  }

  lemma TrailingDigits(s: string, units: Units)
    requires s != "" && AllDigits(s)
    ensures Denoted(s, units) == None
  {
  }

  // ----- ISO 8601 -----

  /** `strings.Cut(s, "T")`: what stands before the first T, and what stands after it. */
  function CutAtT(s: string): (string, string) {
    var i := Index(s, "T");
    if i < 0 then (s, "") else (s[..i], s[i + 1..])
  }

  /** [nD][T[nH][nM][nS]]; the date and time parts may not both be missing. */
  function DenotedParts(s: string): Option<int> {
    var (date, time) := CutAtT(s);
    if date == "" && time == "" then None else Plus(Denoted(date, DateUnits), Denoted(time, TimeUnits))
  }

  function Signed(negative: bool, n: Option<int>): Option<int> {
    if n.Some? && negative then Some(-n.value) else n
  }

  /** A P and its parts, with a sign in front. */
  function DenotedISO(s: string): Option<int> {
    var negative := s != "" && s[0] == '-';
    var body := if negative then s[1..] else s;
    if body == "" || body[0] != 'P' then None else Signed(negative, DenotedParts(body[1..]))
  }

  /** The parts as they are spelled; `mark` is whether the T is there, which it may be for no time part. */
  function Parts(date: seq<Component>, mark: bool, time: seq<Component>): string {
    Spelled(date) + if mark then "T" + Spelled(time) else ""
  }

  function Prefixed(negative: bool, parts: string): string {
    if negative then ['-', 'P'] + parts else ['P'] + parts
  }

  ghost predicate IsSpelling(date: seq<Component>, mark: bool, time: seq<Component>) {
    AllFit(date, DateUnits) && AllFit(time, TimeUnits) && (date != [] || time != []) && (time != [] ==> mark)
  }

  /** Every duration that can be spelled is accepted, with the signed total of its components. */
  lemma ISOSpelledIsDenoted(negative: bool, date: seq<Component>, mark: bool, time: seq<Component>)
    requires IsSpelling(date, mark, time)
    ensures DenotedISO(Prefixed(negative, Parts(date, mark, time))) ==
            Signed(negative, Some(Total(date, DateUnits) + Total(time, TimeUnits)))
  {
    hide *;
    PartsSpelled(date, mark, time);
    SignedParts(negative, Parts(date, mark, time));
  }

  lemma SignedParts(negative: bool, parts: string)
    ensures DenotedISO(Prefixed(negative, parts)) == Signed(negative, DenotedParts(parts))
  {
    hide DenotedParts;
    if negative {
      var s := ['-', 'P'] + parts;
      assert s[0] == '-' && s[1..] == ['P'] + parts;
    }
    var body := ['P'] + parts;
    assert body[0] == 'P' && body[1..] == parts;
  }

  lemma PartsSpelled(date: seq<Component>, mark: bool, time: seq<Component>)
    requires IsSpelling(date, mark, time)
    ensures DenotedParts(Parts(date, mark, time)) == Some(Total(date, DateUnits) + Total(time, TimeUnits))
  {
    hide *;
    CutSpelled(date, mark, time);
    SpelledIsDenoted(date, DateUnits);
    SpelledIsDenoted(time, TimeUnits);
    PartsAre(Parts(date, mark, time), Total(date, DateUnits), Total(time, TimeUnits));
  }

  lemma PartsAre(s: string, m: int, n: int)
    requires var (date, time) := CutAtT(s);
             && (date != "" || time != "")
             && Denoted(date, DateUnits) == Some(m) && Denoted(time, TimeUnits) == Some(n)
    ensures DenotedParts(s) == Some(m + n)
  {
    hide CutAtT;
    hide Denoted;
  }

  lemma SpelledEmpty(parts: seq<Component>, units: Units)
    requires AllFit(parts, units)
    ensures Spelled(parts) == "" <==> parts == []
  {
    if parts != [] {
      assert parts[0].Text() != "";
    }
  }

  lemma {:induction false} DateHasNoT(date: seq<Component>)
    requires AllFit(date, DateUnits)
    ensures Free(Spelled(date), 'T')
  {
    if date != [] {
      FitsRest(date, DateUnits);
      DateHasNoT(date[1..]);
      hide ParseInt;
      assert Free(date[0].Text(), 'T');
    }
  }

  /** The T is found where the date part ends. */
  lemma CutSpelled(date: seq<Component>, mark: bool, time: seq<Component>)
    requires IsSpelling(date, mark, time)
    ensures CutAtT(Parts(date, mark, time)) == (Spelled(date), Spelled(time))
    ensures AllFit(date, DateUnits) && AllFit(time, TimeUnits) && (Spelled(date) != "" || Spelled(time) != "")
  {
    SpelledEmpty(date, DateUnits);
    SpelledEmpty(time, TimeUnits);
    DateHasNoT(date);
    CutFree(Spelled(date), Spelled(time));
    hide CutAtT;
    hide Spelled;
    hide AllFit;
    assert Spelled(date) + "" == Spelled(date);
  }

  lemma CutFree(head: string, tail: string)
    requires Free(head, 'T')
    ensures CutAtT(head) == (head, "") && CutAtT(head + ("T" + tail)) == (head, tail)
  {
    var s := head + ("T" + tail);
    assert s[|head|] == 'T' && s[|head| + 1..] == tail && s[..|head|] == head;
    assert OccursAt(s, "T", |head|);
    forall i | OccursAt(s, "T", i) ensures i >= |head| {
      assert s[i..i + 1][0] == 'T';
    }
    forall i ensures !OccursAt(head, "T", i) {
      assert 0 <= i < |head| ==> head[i..i + 1][0] == head[i];
    }
  }

  /** Every duration that is accepted can be spelled. */
  lemma ISODenotedIsSpelled(s: string)
    returns (negative: bool, date: seq<Component>, mark: bool, time: seq<Component>)
    requires DenotedISO(s).Some?
    ensures IsSpelling(date, mark, time) && s == Prefixed(negative, Parts(date, mark, time))
  {
    hide *;
    var parts;
    negative, parts := AfterSign(s);
    date, mark, time := PartsAreSpelled(parts);
  }

  lemma AfterSign(s: string) returns (negative: bool, parts: string)
    requires DenotedISO(s).Some?
    ensures s == Prefixed(negative, parts) && DenotedParts(parts).Some?
  {
    hide DenotedParts;
    negative := s[0] == '-';
    var body := if negative then s[1..] else s;
    parts := body[1..];
    assert body == ['P'] + parts;
    if negative {
      assert s[0] == '-' && s[1..] == body;
      assert s == ['-', 'P'] + parts;
    }
  }

  lemma PartsAreSpelled(s: string) returns (date: seq<Component>, mark: bool, time: seq<Component>)
    requires DenotedParts(s).Some?
    ensures IsSpelling(date, mark, time) && s == Parts(date, mark, time)
  {
    var (d, t) := CutAtT(s);
    date := DenotedIsSpelled(d, DateUnits);
    time := DenotedIsSpelled(t, TimeUnits);
    mark := Index(s, "T") >= 0;
    JoinsAtT(s);
    SpelledEmpty(date, DateUnits);
    SpelledEmpty(time, TimeUnits);
    hide Spelled;
    hide Denoted;
    hide CutAtT;
    hide AllFit;
  }

  lemma JoinsAtT(s: string)
    ensures var (head, tail) := CutAtT(s);
            && s == head + (if Index(s, "T") >= 0 then "T" + tail else "")
            && (tail != "" ==> Index(s, "T") >= 0)
  {
    var i := Index(s, "T");
    if i >= 0 {
      assert s[i..i + 1] == "T";
      assert s == s[..i] + (s[i..i + 1] + s[i + 1..]);
    } else {
      assert s == s + "";
    }
  }

  method ParseISO8601Duration(text: string) returns (total: int, ok: bool)
    ensures ok <==> DenotedISO(text).Some?
    ensures ok ==> total == Wrap64(DenotedISO(text).value)
  {
    hide Wrap64;
    hide Denoted;
    hide CutAtT;
    hide Index;
    WrapSmall(0);
    Nothing(DateUnits);
    Nothing(TimeUnits);
    var s := text;
    var neg := s != "" && s[0] == '-';
    if neg {
      s := s[1..];
    }
    if s == "" || s[0] != 'P' {
      return 0, false;
    }
    var (datePart, timePart) := CutAtT(s[1..]);
    if datePart == "" && timePart == "" {
      return 0, false;
    }
    total := 0;
    ghost var sum := 0;
    if datePart != "" {
      var d, parsed := ParseISOComponents(datePart, DateUnits);
      if !parsed {
        return 0, false;
      }
      sum := Denoted(datePart, DateUnits).value;
      WrapSum(0, sum);
      total := Wrap64(total + d);
    }
    if timePart != "" {
      var d, parsed := ParseISOComponents(timePart, TimeUnits);
      if !parsed {
        return 0, false;
      }
      WrapSum(sum, Denoted(timePart, TimeUnits).value);
      total := Wrap64(total + d);
      sum := sum + Denoted(timePart, TimeUnits).value;
    }
    assert total == Wrap64(sum);
    if neg {
      WrapNegation(sum);
      total := Wrap64(-total);
    }
    ok := true;
  }

  // ----- pull periods -----

  function Squeezed(s: string): string {
    ReplaceAll(TrimSpace(s), " ", "")
  }

  predicate LooksISO(s: string) {
    var up := ToUpper(s);
    "P" <= up || "-P" <= up
  }

  /** The number of nanoseconds that a bare number or an ISO 8601 duration denotes. */
  function DenotedPeriod(s: string): Option<int> {
    match ParseInt(s)
    case Some(n) => Some(n * SECOND)
    case None => if LooksISO(s) then DenotedISO(ToUpper(s)) else None
  }

  /** Whether (d, ok) is the answer for the squeezed text `s`; `goDuration` is `time.ParseDuration`. */
  predicate IsAnswer(s: string, goDuration: string -> Option<int>, d: int, ok: bool) {
    && (!ok ==> d == 0)
    && if s == "" then !ok
       else if ParseInt(s).Some? then
         ok == (ParseInt(s).value > 0) && (ok ==> d == Wrap64(DenotedPeriod(s).value))
       else if LooksISO(s) then
         && ok == (DenotedPeriod(s).Some? && Wrap64(DenotedPeriod(s).value) > 0)
         && (ok ==> d == Wrap64(DenotedPeriod(s).value))
       else
         && ok == (goDuration(ToLower(s)).Some? && goDuration(ToLower(s)).value > 0)
         && (ok ==> d == goDuration(ToLower(s)).value)
  }

  method ParsePullPeriod(text: string, goDuration: string -> Option<int>) returns (d: int, ok: bool)
    ensures IsAnswer(Squeezed(text), goDuration, d, ok)
  {
    hide Wrap64;
    hide ParseInt;
    hide DenotedISO;
    var s := Squeezed(text);
    hide Squeezed;
    if s == "" {
      return 0, false;
    }
    var n := ParseInt(s);
    if n.Some? {
      if n.value <= 0 {
        return 0, false;
      }
      return Wrap64(n.value * SECOND), true;
    }
    var up := ToUpper(s);
    if "P" <= up || "-P" <= up {
      var total, parsed := ParseISO8601Duration(up);
      if parsed && total > 0 {
        return total, true;
      }
      return 0, false;
    }
    var g := goDuration(ToLower(s));
    if g.Some? && g.value > 0 {
      return g.value, true;
    }
    return 0, false;
  }

  /** A number that does not fit 64 bits is never returned as it is. */
  lemma ExactIffItFits(denoted: int)
    ensures Wrap64(denoted) == denoted <==> IsInt64(denoted)
  {
  }

  /**
   An accepted period is positive and the one denoted: for bare numbers this promise of the source holds exactly up
   to 9223372036, and for either form an accepted period is the one denoted exactly when that fits 64 bits. What
   fits is never misjudged: it is accepted exactly when it is positive.
   */
  lemma RightIffItFits(s: string, goDuration: string -> Option<int>, d: int, ok: bool)
    requires IsAnswer(s, goDuration, d, ok) && s != "" && (ParseInt(s).Some? || LooksISO(s))
    ensures ParseInt(s).Some? ==> ((ok ==> d > 0 && DenotedPeriod(s) == Some(d)) <==> ParseInt(s).value <= 9223372036)
    ensures ok ==> DenotedPeriod(s).Some? && (d == DenotedPeriod(s).value <==> IsInt64(DenotedPeriod(s).value))
    ensures DenotedPeriod(s).None? ==> !ok
    ensures DenotedPeriod(s).Some? && IsInt64(DenotedPeriod(s).value) ==>
              (ok <==> DenotedPeriod(s).value > 0) && (ok ==> d == DenotedPeriod(s).value)
  {
    hide ParseInt;
    hide DenotedISO;
    hide LooksISO;
    if DenotedPeriod(s).Some? {
      ExactIffItFits(DenotedPeriod(s).value);
    }
    hide Wrap64;
  }

  lemma ParseItoa(n: nat)
    requires n <= MAX_INT64
    ensures Itoa(n) != "" && ParseInt(Itoa(n)) == Some(n)
  {
    var s := Itoa(n);
    hide Itoa;
    hide Decimal;
    assert IsDigit(s[0]);
  }

  /** One second past the bound, the period is accepted with a negative duration. */
  lemma AcceptedButNegative() returns (s: string)
    ensures ParseInt(s) == Some(9223372037)
    ensures forall goDuration, d, ok | IsAnswer(s, goDuration, d, ok) :: ok && d < 0
  {
    assert Wrap64(9223372037 * SECOND) < 0;
    ParseItoa(9223372037);
    s := Itoa(9223372037);
    hide Itoa;
    hide ParseInt;
    hide Wrap64;
    hide LooksISO;
    hide DenotedISO;
    hide ToLower;
  }

  /** The ISO 8601 duration of so many hours. */
  lemma HoursDenote(n: nat) returns (s: string)
    requires n <= MAX_INT64
    ensures s != "" && ParseInt(s).None? && LooksISO(s) && DenotedPeriod(s) == Some(n * HOUR)
  {
    hide *;
    var hours := [Component(Itoa(n), 'H')];
    HoursFit(n, hours);
    ISOSpelledIsDenoted(false, [], true, hours);
    SignedNone(Total([], DateUnits) + Total(hours, TimeUnits));
    s := Prefixed(false, Parts([], true, hours));
    HoursText(s, Itoa(n));
    IsDenotedPeriod(s);
  }

  lemma SignedNone(n: int)
    ensures Signed(false, Some(n)) == Some(n)
  {
  }

  lemma HoursFit(n: nat, hours: seq<Component>)
    requires n <= MAX_INT64 && hours == [Component(Itoa(n), 'H')]
    ensures IsSpelling([], true, hours) && AllDigits(Itoa(n)) && AllFit([], DateUnits) && AllFit(hours, TimeUnits)
    ensures Total([], DateUnits) + Total(hours, TimeUnits) == n * HOUR
  {
    ParseItoa(n);
    hide ParseInt;
    hide Itoa;
    assert hours[0].Fits(TimeUnits) && hours[0].Value(TimeUnits) == Nanoseconds(n, HOUR) == n * HOUR;
    hide Component.Fits;
    hide Component.Value;
    assert hours[1..] == [] && Total([], TimeUnits) == 0;
  }

  lemma HoursText(s: string, digits: string)
    requires s == Prefixed(false, Parts([], true, [Component(digits, 'H')])) && AllDigits(digits)
    ensures s != "" && ParseInt(s).None? && LooksISO(s) && ToUpper(s) == s
  {
    assert Spelled([Component(digits, 'H')]) == digits + ['H'] + Spelled([]) by {
      assert [Component(digits, 'H')][1..] == [];
    }
    assert Spelled([]) == "" && digits + ['H'] + "" == digits + ['H'];
    assert s == ['P', 'T'] + digits + ['H'];
    assert s[0] == 'P' && !AllDigits(s);
    forall i | 0 <= i < |s| ensures UpperChar(s[i]) == s[i] {
      assert 2 <= i < |s| - 1 ==> IsDigit(s[i]) by {
        assert 2 <= i < |s| - 1 ==> s[i] == digits[i - 2];
      }
    }
    assert ToUpper(s) == s;
  }

  lemma IsDenotedPeriod(s: string)
    requires ParseInt(s).None? && LooksISO(s) && ToUpper(s) == s
    ensures DenotedPeriod(s) == DenotedISO(s)
  {
  }

  /** An ISO 8601 duration of 5124096 hours, over five centuries, is accepted as less than half an hour. */
  lemma AcceptedButShort() returns (s: string)
    ensures DenotedPeriod(s) == Some(5124096 * HOUR) && LooksISO(s)
    ensures forall goDuration, d, ok | IsAnswer(s, goDuration, d, ok) :: ok && 0 < d < HOUR / 2
  {
    WrappedHours(5124096 * HOUR);
    s := HoursDenote(5124096);
    hide ParseInt;
    hide Wrap64;
    hide LooksISO;
    hide DenotedPeriod;
    hide ToLower;
  }

  lemma WrappedHours(n: int)
    requires n == 5124096 * HOUR
    ensures 0 < Wrap64(n) < HOUR / 2
  {
  }
}
