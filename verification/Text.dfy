/**
 The string operations of Go's `strings` and `strconv` packages that the modelled code calls.

 A Go string is the sequence of its bytes; here it is a `string` whose characters stand for those bytes.
 Each function is the library operation stated by what it returns, so that the modules that use it can
 reason from the contract.
 */
module Text {

  datatype Option<+T> = None | Some(value: T)

  // ----- occurrences -----

  predicate OccursAt(s: string, v: string, i: int) {
    0 <= i && i + |v| <= |s| && s[i..i + |v|] == v
  }

  predicate Contains(s: string, v: string) {
    exists i | 0 <= i <= |s| :: OccursAt(s, v, i)
  }

  /** The least position at or after `from` where `v` occurs, or -1. */
  function IndexFrom(s: string, v: string, from: nat): (r: int)
    ensures r == -1 || (from <= r && OccursAt(s, v, r))
    ensures forall j | from <= j && OccursAt(s, v, j) :: 0 <= r <= j
    decreases |s| - from
  {
    if from + |v| > |s| then -1
    else if OccursAt(s, v, from) then from
    else IndexFrom(s, v, from + 1)
  }

  /** `strings.Index` */
  function Index(s: string, v: string): (r: int)
    ensures r == -1 || OccursAt(s, v, r)
    ensures forall j | OccursAt(s, v, j) :: 0 <= r <= j
    ensures r == -1 <==> !Contains(s, v)
  {
    IndexFrom(s, v, 0)
  }

  /** `strings.ReplaceAll` for a non-empty `v`: leftmost occurrences first, never overlapping. */
  function ReplaceAll(s: string, v: string, substitute: string): string
    requires v != ""
    decreases |s|
  {
    var i := Index(s, v);
    if i < 0 then s
    else s[..i] + substitute + ReplaceAll(s[i + |v|..], v, substitute)
  }

  lemma ReplaceAllStep(s: string, v: string, substitute: string)
    requires v != ""
    ensures var i := Index(s, v);
            ReplaceAll(s, v, substitute) ==
            if i < 0 then s else s[..i] + substitute + ReplaceAll(s[i + |v|..], v, substitute)
  {
    hide Index;
  }

  /** A character that `s` does not hold is not found by any slice of `s` either. */
  predicate Free(s: string, c: char) {
    forall i | 0 <= i < |s| :: s[i] != c
  }

  /** The number of leading characters of `s` that satisfy `p`. */
  function SpanLength(s: string, p: char -> bool): (n: nat)
    ensures n <= |s|
    ensures forall i | 0 <= i < n :: p(s[i])
    ensures n < |s| ==> !p(s[n])
  {
    if s == "" || !p(s[0]) then 0 else 1 + SpanLength(s[1..], p)
  }

  /** The span of characters that satisfy `p` ends where one does not. */
  lemma {:induction false} SpanIs(a: string, b: string, p: char -> bool)
    requires forall i | 0 <= i < |a| :: p(a[i])
    requires b != "" ==> !p(b[0])
    ensures SpanLength(a + b, p) == |a|
    ensures (a + b)[..|a|] == a && (a + b)[|a|..] == b
  {
    if a == "" {
      assert a + b == b;
    } else {
      assert (a + b)[1..] == a[1..] + b;
      SpanIs(a[1..], b, p);
    }
  }

  // ----- splitting and joining -----

  /** The position of the first `sep`, or the length of `s`. */
  function Until(s: string, sep: char): (n: nat)
    ensures n <= |s|
    ensures forall i | 0 <= i < n :: s[i] != sep
    ensures n < |s| ==> s[n] == sep
  {
    if s == "" || s[0] == sep then 0 else 1 + Until(s[1..], sep)
  }

  /** `strings.Split` for a one-character separator: the maximal runs without it. */
  function Split(s: string, sep: char): (parts: seq<string>)
    ensures |parts| >= 1
    decreases |s|
  {
    var n := Until(s, sep);
    if n == |s| then [s] else [s[..n]] + Split(s[n + 1..], sep)
  }

  /** `strings.Join` */
  function Join(parts: seq<string>, sep: string): string {
    if parts == [] then ""
    else if |parts| == 1 then parts[0]
    else parts[0] + sep + Join(parts[1..], sep)
  }

  /** Splitting loses nothing: joining the parts gives the string back. */
  lemma {:induction false} JoinSplit(s: string, sep: char)
    ensures Join(Split(s, sep), [sep]) == s
    decreases |s|
  {
    hide Join;
    var n := Until(s, sep);
    if n == |s| {
      JoinOne(s, [sep]);
    } else {
      var head, tail := s[..n], s[n + 1..];
      assert s == head + [sep] + tail;
      JoinSplit(tail, sep);
      JoinMore(head, Split(tail, sep), [sep]);
      hide Split;
    }
  }

  lemma JoinOne(s: string, sep: string)
    ensures Join([s], sep) == s
  {
  }

  lemma JoinMore(head: string, rest: seq<string>, sep: string)
    requires rest != []
    ensures Join([head] + rest, sep) == head + sep + Join(rest, sep)
  {
    assert ([head] + rest)[1..] == rest;
  }

  /** A separator cuts, wherever it stands. */
  lemma {:induction false} SplitAppend(s: string, sep: char, t: string)
    ensures Split(s + [sep] + t, sep) == Split(s, sep) + Split(t, sep)
  {
    if s == "" {
      SplitStep([sep] + t, sep);
      assert s + [sep] + t == [sep] + t && ([sep] + t)[1..] == t;
    } else {
      SplitAppend(s[1..], sep, t);
      var whole, tail := s + [sep] + t, s[1..] + [sep] + t;
      assert whole == [s[0]] + tail;
      assert whole[0] == s[0] && whole[1..] == tail;
      SplitStep(whole, sep);
      SplitStep(s, sep);
      Attach(s[0], Split(s[1..], sep), Split(t, sep));
    }
  }

  lemma Attach(c: char, left: seq<string>, right: seq<string>)
    requires left != []
    ensures [[c] + (left + right)[0]] + (left + right)[1..] == [[c] + left[0]] + left[1..] + right
    ensures [""] + (left + right) == [""] + left + right
  {
    assert (left + right)[1..] == left[1..] + right;
  }

  lemma SplitStep(s: string, sep: char)
    requires s != ""
    ensures var rest := Split(s[1..], sep);
            Split(s, sep) == if s[0] == sep then [""] + rest else [[s[0]] + rest[0]] + rest[1..]
  {
    var t, n := s[1..], Until(s, sep);
    if s[0] != sep {
      assert n == 1 + Until(t, sep);
      if n == |s| {
        assert [s[0]] + t == s;
      } else {
        assert t[..n - 1] == s[1..n] && t[n..] == s[n + 1..] && [s[0]] + s[1..n] == s[..n];
        assert ([t[..n - 1]] + Split(t[n..], sep))[1..] == Split(t[n..], sep);
      }
    }
  }

  /** A string without the separator is one part. */
  lemma SplitFree(s: string, sep: char)
    requires Free(s, sep)
    ensures Split(s, sep) == [s]
  {
    assert Until(s, sep) == |s|;
  }

  lemma MarkInside(a: string, x: string, b: string, y: string, isMark: char -> bool)
    requires a + x == b + y && |a| < |b| && (x == "" || isMark(x[0]))
    ensures exists i :: 0 <= i < |b| && isMark(b[i])
  {
    assert |a + x| == |b + y|;
    assert b[|a|] == (b + y)[|a|] == (a + x)[|a|] == x[0];
  }

  /** Two texts that end at their first marked character are the same, and so is what follows. */
  lemma SameStop(a: string, x: string, b: string, y: string, isMark: char -> bool)
    requires a + x == b + y
    requires forall i | 0 <= i < |a| :: !isMark(a[i])
    requires forall i | 0 <= i < |b| :: !isMark(b[i])
    requires (x == "" || isMark(x[0])) && (y == "" || isMark(y[0]))
    ensures a == b && x == y
  {
    if |a| < |b| {
      MarkInside(a, x, b, y, isMark);
    } else if |b| < |a| {
      MarkInside(b, y, a, x, isMark);
    } else {
      assert (a + x)[..|a|] == a && (a + x)[|a|..] == x;
      assert (b + y)[..|b|] == b && (b + y)[|b|..] == y;
    }
  }

  // ----- concatenation -----

  function Concat(parts: seq<string>): string {
    if parts == [] then "" else parts[0] + Concat(parts[1..])
  }

  lemma {:induction false} ConcatAppend(a: seq<string>, b: seq<string>)
    ensures Concat(a + b) == Concat(a) + Concat(b)
  {
    if a == [] {
      assert a + b == b;
    } else {
      assert (a + b)[1..] == a[1..] + b;
      ConcatAppend(a[1..], b);
    }
  }

  lemma Regroup(a: string, b: string, c: string, d: string)
    ensures a + b + c + d == a + (b + c + d) == a + (b + (c + d))
  {
  }

  lemma RegroupThree(a: string, b: string, c: string)
    ensures a + b + c == a + (b + c)
  {
  }

  // ----- trimming and case -----

  predicate IsSpace(c: char) {
    c == ' ' || '\t' <= c <= '\r'
  }

  /** `strings.TrimSpace` on ASCII white space */
  function TrimSpace(s: string): (r: string)
    ensures |r| <= |s|
    ensures r != "" ==> !IsSpace(r[0]) && !IsSpace(r[|r| - 1])
    ensures r == "" <==> forall i | 0 <= i < |s| :: IsSpace(s[i])
  {
    if s == "" then ""
    else if IsSpace(s[0]) then TrimSpace(s[1..])
    else if IsSpace(s[|s| - 1]) then TrimSpace(s[..|s| - 1])
    else s
  }

  predicate IsSpaceByte(n: int) {
    0x09 <= n <= 0x0d || n == 0x20
  }

  lemma SpaceIs(c: char)
    ensures IsSpace(c) <==> IsSpaceByte(c as int)
  {
  }

  /** What is trimmed is [from, to) of the text, and the bytes outside are white space. */
  predicate IsTrimmed(s: string, from: int, to: int) {
    && 0 <= from <= to <= |s|
    && (forall i | 0 <= i < from :: IsSpaceByte(s[i] as int))
    && (forall i | to <= i < |s| :: IsSpaceByte(s[i] as int))
    && (from < to ==> !IsSpaceByte(s[from] as int) && !IsSpaceByte(s[to - 1] as int))
  }

  lemma TrimmedAfter(s: string, from: nat, to: nat)
    requires s != "" && IsSpaceByte(s[0] as int) && IsTrimmed(s[1..], from, to)
    ensures IsTrimmed(s, from + 1, to + 1) && s[1..][from..to] == s[from + 1..to + 1]
  {
    hide IsSpaceByte;
    assert forall i | 1 <= i < |s| :: s[i] == s[1..][i - 1];
  }

  lemma TrimmedBefore(s: string, from: nat, to: nat)
    requires s != "" && IsSpaceByte(s[|s| - 1] as int) && IsTrimmed(s[..|s| - 1], from, to)
    ensures IsTrimmed(s, from, to) && s[..|s| - 1][from..to] == s[from..to]
  {
    hide IsSpaceByte;
    assert forall i | 0 <= i < |s| - 1 :: s[i] == s[..|s| - 1][i];
  }

  /** Trimming takes white space, the bytes 0x09 to 0x0d and 0x20, off both ends, and stops at any other byte. */
  lemma {:induction false} TrimmedIs(s: string) returns (from: nat, to: nat)
    ensures IsTrimmed(s, from, to) && TrimSpace(s) == s[from..to]
  {
    if s == "" {
      return 0, 0;
    }
    SpaceIs(s[0]);
    SpaceIs(s[|s| - 1]);
    hide IsSpace;
    hide IsSpaceByte;
    if IsSpace(s[0]) {
      from, to := TrimmedIs(s[1..]);
      TrimmedAfter(s, from, to);
      from, to := from + 1, to + 1;
    } else if IsSpace(s[|s| - 1]) {
      from, to := TrimmedIs(s[..|s| - 1]);
      TrimmedBefore(s, from, to);
    } else {
      from, to := 0, |s|;
      assert s[0..|s|] == s;
    }
    hide IsTrimmed;
  }

  function LowerChar(c: char): char {
    if 'A' <= c <= 'Z' then c - 'A' + 'a' else c
  }

  function UpperChar(c: char): char {
    if 'a' <= c <= 'z' then c - 'a' + 'A' else c
  }

  function ToLower(s: string): string {
    seq(|s|, i requires 0 <= i < |s| => LowerChar(s[i]))
  }

  function ToUpper(s: string): string {
    seq(|s|, i requires 0 <= i < |s| => UpperChar(s[i]))
  }

  lemma LowerByte(c: char)
    ensures LowerChar(c) as int == c as int + if 0x41 <= c as int <= 0x5a then 0x20 else 0
  {
  }

  lemma UpperByte(c: char)
    ensures UpperChar(c) as int == c as int - if 0x61 <= c as int <= 0x7a then 0x20 else 0
  {
  }

  /** Case is that of the ASCII letters; every other byte stays. */
  lemma CaseBytes(s: string, i: nat)
    requires i < |s|
    ensures |ToLower(s)| == |ToUpper(s)| == |s|
    ensures ToLower(s)[i] as int == s[i] as int + if 0x41 <= s[i] as int <= 0x5a then 0x20 else 0
    ensures ToUpper(s)[i] as int == s[i] as int - if 0x61 <= s[i] as int <= 0x7a then 0x20 else 0
  {
    LowerByte(s[i]);
    UpperByte(s[i]);
    hide LowerChar;
    hide UpperChar;
  }

  // ----- numbers -----

  const MAX_INT64: int := 0x7FFF_FFFF_FFFF_FFFF
  const MIN_INT64: int := -0x8000_0000_0000_0000

  predicate IsInt64(n: int) {
    MIN_INT64 <= n <= MAX_INT64
  }

  predicate IsDigit(c: char) {
    '0' <= c <= '9'
  }

  predicate AllDigits(s: string) {
    forall i | 0 <= i < |s| :: IsDigit(s[i])
  }

  function DigitValue(c: char): (d: int)
    requires IsDigit(c)
    ensures 0 <= d <= 9
  {
    c as int - '0' as int
  }

  /** The number a string of digits denotes in base ten. */
  function Decimal(s: string): (n: int)
    requires AllDigits(s)
    ensures n >= 0
  {
    if s == "" then 0 else Decimal(s[..|s| - 1]) * 10 + DigitValue(s[|s| - 1])
  }

  /** `strconv.ParseInt(s, 10, 64)`, and `strconv.Atoi` on a 64-bit machine; None is any error. */
  function ParseInt(s: string): Option<int> {
    var negative := s != "" && s[0] == '-';
    var digits := if s != "" && (s[0] == '-' || s[0] == '+') then s[1..] else s;
    if digits == "" || !AllDigits(digits) then None
    else
      var n := if negative then -Decimal(digits) else Decimal(digits);
      if MIN_INT64 <= n <= MAX_INT64 then Some(n) else None
  }

  /** Two's complement wrap-around to 64 bits. */
  function Wrap64(n: int): (r: int)
    ensures MIN_INT64 <= r <= MAX_INT64
    ensures MIN_INT64 <= n <= MAX_INT64 ==> r == n
    ensures (r - n) % 0x1_0000_0000_0000_0000 == 0
  {
    var m := n % 0x1_0000_0000_0000_0000;
    if m > MAX_INT64 then m - 0x1_0000_0000_0000_0000 else m
  }

  /** `strconv.Itoa` for a natural number */
  function Itoa(n: nat): (s: string)
    ensures s != "" && AllDigits(s)
    ensures Decimal(s) == n
  {
    if n < 10 then [('0' as int + n) as char]
    else
      var s := Itoa(n / 10) + [('0' as int + n % 10) as char];
      assert s[..|s| - 1] == Itoa(n / 10);
      s
  }
}
