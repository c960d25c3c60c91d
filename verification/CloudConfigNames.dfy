/**
 Which names collide: a name is written like a path of clean names exactly when its own text can be read as one.

 Clean names alone never collide. A name that holds a dot or a bracket collides with a longer path exactly when it
 is spelled as that path: clean names behind dots, and item numbers in brackets without a zero in front.
 */
module CloudConfigNames {
  import opened Text
  import opened CloudConfigFlattening
  import opened CloudConfigKeys

  // ----- numbers as they are written -----

  /** Digits without a zero in front of others. */
  predicate IsCanonical(d: string) {
    d != "" && AllDigits(d) && (|d| > 1 ==> d[0] != '0')
  }

  lemma {:induction false} ItoaIsCanonical(n: nat)
    ensures IsCanonical(Itoa(n)) && (n > 0 ==> Itoa(n)[0] != '0')
  {
    if n >= 10 {
      ItoaIsCanonical(n / 10);
    }
  }

  lemma {:induction false} CanonicalIsPositive(d: string)
    requires d != "" && AllDigits(d) && d[0] != '0'
    ensures Decimal(d) > 0
  {
    if |d| > 1 {
      CanonicalIsPositive(d[..|d| - 1]);
    }
  }

  lemma TenTimes(m: nat, c: nat)
    requires m > 0 && c < 10
    ensures (m * 10 + c) / 10 == m && (m * 10 + c) % 10 == c && m * 10 + c >= 10
  {
  }

  /** Every number is written in one way. */
  lemma {:induction false} ItoaOfDecimal(d: string)
    requires IsCanonical(d)
    ensures Itoa(Decimal(d)) == d
  {
    if |d| == 1 {
      assert d[..0] == "" && Decimal(d) == DigitValue(d[0]);
    } else {
      var front, last := d[..|d| - 1], d[|d| - 1];
      CanonicalIsPositive(front);
      ItoaOfDecimal(front);
      TenTimes(Decimal(front), DigitValue(last));
      assert d == front + [last];
    }
  }

  // ----- reading a text as a path -----

  predicate IsNameChar(c: char) {
    c != '.' && c != '['
  }

  /** Segments after the first: each a dot and a name that is not blank, or a number in brackets. */
  predicate IsTailText(t: string)
    decreases |t|
  {
    if t == "" then true
    else if t[0] == '.' then
      var n := SpanLength(t[1..], IsNameChar);
      NotBlank(t[1..][..n]) && IsTailText(t[1..][n..])
    else if t[0] == '[' then
      var n := SpanLength(t[1..], IsDigit);
      n + 1 < |t| && t[n + 1] == ']' && IsCanonical(t[1..][..n]) && IsTailText(t[n + 2..])
    else false
  }

  /** A name that is not blank, and segments. */
  predicate IsPathText(s: string) {
    var n := SpanLength(s, IsNameChar);
    NotBlank(s[..n]) && IsTailText(s[n..])
  }

  lemma CleanNameChars(name: string)
    ensures IsCleanName(name) <==> NotBlank(name) && forall i | 0 <= i < |name| :: IsNameChar(name[i])
  {
    hide NotBlank;
  }

  // ----- every path reads as one -----

  lemma FieldReads(name: string, more: string)
    requires IsCleanName(name) && StartsSegment(more) && IsTailText(more)
    ensures IsTailText("." + name + more)
  {
    var t := "." + name + more;
    CleanNameChars(name);
    assert t[0] == '.' && t[1..] == name + more;
    SpanIs(name, more, IsNameChar);
    hide NotBlank;
    hide SpanLength;
  }

  lemma ItemReads(i: nat, more: string)
    requires IsTailText(more)
    ensures IsTailText(ItemKey(i) + more)
  {
    var digits, t := Itoa(i), ItemKey(i) + more;
    ItoaIsCanonical(i);
    assert t == "[" + (digits + ("]" + more));
    assert t[1..] == digits + ("]" + more);
    SpanIs(digits, "]" + more, IsDigit);
    assert t[|digits| + 1] == ']' && t[|digits| + 2..] == more;
    hide Itoa;
    hide SpanLength;
  }

  lemma {:induction false} TailReads(p: seq<Segment>)
    requires IsCleanPath(p)
    ensures IsTailText(Tail(p))
  {
    if p != [] {
      PathStep("", p);
      TailReads(p[1..]);
      TailStarts(p[1..]);
      hide IsTailText;
      hide Tail;
      hide StartsSegment;
      match p[0] {
        case Field(name) => FieldReads(name, Tail(p[1..]));
        case Item(i) => ItemReads(i, Tail(p[1..]));
      }
    }
  }

  // ----- every text that reads as a path is one -----

  /** The first segment of such a text, and what follows it. */
  lemma ReadField(t: string) returns (name: string, more: string)
    requires IsTailText(t) && t != "" && t[0] == '.'
    ensures t == "." + name + more && IsCleanName(name) && IsTailText(more)
  {
    var n := SpanLength(t[1..], IsNameChar);
    name, more := t[1..][..n], t[1..][n..];
    CleanNameChars(name);
    hide IsCleanName;
    hide NotBlank;
    assert t[1..] == name + more;
    assert t == "." + t[1..];
  }

  lemma ReadItem(t: string) returns (i: nat, more: string)
    requires IsTailText(t) && t != "" && t[0] != '.'
    ensures t == ItemKey(i) + more && IsTailText(more)
  {
    var n := SpanLength(t[1..], IsDigit);
    var digits := t[1..][..n];
    more := t[n + 2..];
    ItoaOfDecimal(digits);
    i := Decimal(digits);
    hide Itoa;
    hide Decimal;
    hide SpanLength;
    BracketsAround(t, n, digits);
  }

  lemma BracketsAround(t: string, n: nat, digits: string)
    requires n + 1 < |t| && t[0] == '[' && t[n + 1] == ']' && digits == t[1..][..n]
    ensures t == "[" + digits + "]" + t[n + 2..]
  {
    assert t == [t[0]] + digits + [t[n + 1]] + t[n + 2..];
  }

  lemma {:induction false} TailPath(t: string) returns (p: seq<Segment>)
    requires IsTailText(t)
    ensures IsCleanPath(p) && Tail(p) == t
    decreases |t|
  {
    hide IsTailText;
    hide IsCleanName;
    hide Tail;
    if t == "" {
      p := [];
      NoSegment();
    } else if t[0] == '.' {
      var name, more := ReadField(t);
      var rest := TailPath(more);
      p := [Field(name)] + rest;
      OneMoreSegment(Field(name), rest);
    } else {
      var i, more := ReadItem(t);
      ItemIsNotEmpty(i);
      var rest := TailPath(more);
      p := [Item(i)] + rest;
      OneMoreSegment(Item(i), rest);
    }
  }

  lemma NoSegment()
    ensures Tail([]) == ""
  {
  }

  lemma ItemIsNotEmpty(i: nat)
    ensures ItemKey(i) != ""
  {
  }

  lemma OneMoreSegment(s: Segment, rest: seq<Segment>)
    requires IsCleanPath(rest) && (s.Field? ==> IsCleanName(s.name))
    ensures IsCleanPath([s] + rest) && Tail([s] + rest) == Part(s) + Tail(rest)
  {
    hide IsCleanName;
    assert ([s] + rest)[1..] == rest;
  }

  // ----- which names collide -----

  /** The flat key of a path that starts with a name. */
  lemma KeyOfNamed(p: seq<Segment>)
    requires p != [] && p[0].Field? && IsCleanPath(p)
    ensures KeyOf("", p) == p[0].name + Tail(p[1..])
  {
    PathStep("", p);
    TopLevel(p[0].name);
    assert NotBlank(p[0].name);
    hide *;
    KeyIsBaseAndTail(p[0].name, p[1..]);
  }

  ghost predicate IsKeyOfPath(s: string, p: seq<Segment>) {
    p != [] && p[0].Field? && IsCleanPath(p) && KeyOf("", p) == s
  }

  /** A text is the flat key of a clean path exactly when it can be read as one. */
  lemma PathTextIff(s: string)
    ensures (exists p :: IsKeyOfPath(s, p)) <==> IsPathText(s)
  {
    if p :| IsKeyOfPath(s, p) {
      PathReads(p);
    }
    if IsPathText(s) {
      var p := PathOfText(s);
    }
  }

  lemma PathReads(p: seq<Segment>)
    requires p != [] && p[0].Field? && IsCleanPath(p)
    ensures IsPathText(KeyOf("", p))
  {
    KeyOfNamed(p);
    PathStep("", p);
    TailReads(p[1..]);
    TailStarts(p[1..]);
    CleanNameChars(p[0].name);
    SpanIs(p[0].name, Tail(p[1..]), IsNameChar);
    hide IsTailText;
    hide Tail;
    hide NotBlank;
    hide SpanLength;
    hide KeyOf;
  }

  lemma PathOfText(s: string) returns (p: seq<Segment>)
    requires IsPathText(s)
    ensures IsKeyOfPath(s, p)
  {
    hide *;
    var name, more := ReadName(s);
    var rest := TailPath(more);
    p := [Field(name)] + rest;
    OneMoreSegment(Field(name), rest);
    assert p[1..] == rest;
    KeyOfNamed(p);
    IsKey(s, p);
  }

  lemma ReadName(s: string) returns (name: string, more: string)
    requires IsPathText(s)
    ensures s == name + more && IsCleanName(name) && IsTailText(more)
  {
    var n := SpanLength(s, IsNameChar);
    name, more := s[..n], s[n..];
    CleanNameChars(name);
  }

  lemma IsKey(s: string, p: seq<Segment>)
    requires p != [] && p[0].Field? && IsCleanPath(p) && KeyOf("", p) == s
    ensures IsKeyOfPath(s, p)
  {
  }

  /**
   A name at the top level collides with a clean path, other than itself, exactly when it is not clean and can be
   read as a path.
   */
  lemma NameCollidesIff(name: string)
    ensures (exists p :: p != [Field(name)] && IsKeyOfPath(KeyOf("", [Field(name)]), p)) <==>
            !IsCleanName(name) && IsPathText(name)
  {
    var own := [Field(name)];
    assert own[1..] == [];
    TopLevel(name);
    assert KeyOf("", own) == name;
    PathTextIff(name);
    hide KeyOf;
    hide IsPathText;
    if IsCleanName(name) {
      forall p | IsKeyOfPath(name, p) ensures p == own {
        KeysDistinct(p, own);
      }
    } else {
      forall p | IsKeyOfPath(name, p) ensures p != own {
        assert p == own ==> !IsCleanPath(p) by {
          assert own[0].Field?;
        }
      }
    }
  }
}
