/**
 Version keys compared as text, as the upgrade picker does, and as versions: when the two orders agree.

 Two results say so. Versions that differ in their last part alone are ranked alike by both orders exactly where
 the parts are equally wide, or the shorter part is smaller as text too; elsewhere the orders are opposite.
 And bare versions of one shape, equally many parts and corresponding parts of one width, are always ranked
 alike: there text order is version order.

 The proofs go through the digits. Digits of one width compare as the numbers they denote, a number that is
 written longer without a zero in front is larger, and trailing zeros of a version, which the comparison of
 versions drops, do not change how equally many parts compare.
 */
module VersionText {
  import opened Text
  import opened Ordering
  import opened BundleKey
  import opened BundleOrder

  // ----- text of equal width -----

  /** Texts that start with parts of one width compare by these parts first. */
  lemma {:induction false} CompareSplit(a: string, x: string, b: string, y: string)
    requires |a| == |b|
    ensures Compare(a + x, b + y) == if Compare(a, b) != 0 then Compare(a, b) else Compare(x, y)
  {
    if a == "" {
      assert a + x == x && b + y == y;
    } else {
      assert (a + x)[1..] == a[1..] + x && (b + y)[1..] == b[1..] + y;
      CompareSplit(a[1..], x, b[1..], y);
    }
  }

  lemma CompareChars(c: char, d: char)
    ensures Compare([c], [d]) == CharCmp(c, d)
  {
    assert [c][1..] == [] && [d][1..] == [];
    assert Compare([], []) == 0;
  }

  /** Digits of one width compare as the numbers they denote. */
  lemma {:induction false} DigitsCompare(a: string, b: string)
    requires AllDigits(a) && AllDigits(b) && |a| == |b|
    ensures Compare(a, b) == IntCmp(Decimal(a), Decimal(b))
  {
    if a != "" {
      var x, c, y, d := a[..|a| - 1], a[|a| - 1], b[..|b| - 1], b[|b| - 1];
      assert a == x + [c] && b == y + [d];
      DigitsCompare(x, y);
      CompareSplit(x, [c], y, [d]);
      CompareChars(c, d);
      hide Compare;
    }
  }

  lemma {:induction false} NoZeroInFront(b: string)
    requires b != "" && AllDigits(b) && b[0] != '0'
    ensures Decimal(b) > 0
  {
    if |b| > 1 {
      NoZeroInFront(b[..|b| - 1]);
    }
  }

  /** A number that is written longer, without a zero in front, is larger. */
  lemma {:induction false} LongerIsLarger(a: string, b: string)
    requires AllDigits(a) && AllDigits(b) && |a| < |b| && b[0] != '0'
    ensures Decimal(a) < Decimal(b)
  {
    if a == "" {
      NoZeroInFront(b);
    } else {
      LongerIsLarger(a[..|a| - 1], b[..|b| - 1]);
    }
  }

  // ----- one part -----

  /** A number as it is usually written: digits that fit 64 bits, and no zero in front of others. */
  predicate IsPlain(a: string) {
    AllDigits(a) && ParseInt(a).Some? && (|a| > 1 ==> a[0] != '0')
  }

  /** Where a shorter number is not also smaller as text, the orders differ. */
  predicate WidthsAgree(a: string, b: string) {
    |a| == |b| || if |a| < |b| then Compare(a, b) < 0 else Compare(b, a) < 0
  }

  /** Such versions compare as text by their last parts, and as versions by the widths of these first. */
  lemma LastPartCompare(v: string, a: string, b: string)
    requires IsNumeric(v) && IsPlain(a) && IsPlain(b)
    ensures Compare(v + "." + a, v + "." + b) == Compare(a, b)
    ensures CompareVersions(v + "." + a, v + "." + b) ==
            if |a| == |b| then Compare(a, b) else if |a| < |b| then -1 else 1
  {
    ParsedIsNatural(a);
    ParsedIsNatural(b);
    TextSkip(v + ".", a, b);
    LastPartIsNumeric(v, a, b, Decimal(a), Decimal(b));
    PlainCompare(a, b);
    hide *;
  }

  lemma PlainCompare(a: string, b: string)
    requires IsPlain(a) && IsPlain(b)
    ensures IntCmp(Decimal(a), Decimal(b)) == if |a| == |b| then Compare(a, b) else if |a| < |b| then -1 else 1
  {
    ParsedIsNatural(a);
    ParsedIsNatural(b);
    hide Decimal;
    hide ParseInt;
    hide Compare;
    if |a| == |b| {
      DigitsCompare(a, b);
    } else if |a| < |b| {
      LongerIsLarger(a, b);
    } else {
      LongerIsLarger(b, a);
    }
  }

  /**
   For versions that differ in their last part, text order is version order exactly where the widths agree, and
   is the opposite elsewhere.
   */
  lemma LastPartAgrees(v: string, a: string, b: string)
    requires IsNumeric(v) && IsPlain(a) && IsPlain(b)
    ensures Compare(v + "." + a, v + "." + b) == CompareVersions(v + "." + a, v + "." + b) <==> WidthsAgree(a, b)
    ensures !WidthsAgree(a, b) ==>
              Compare(v + "." + a, v + "." + b) == -CompareVersions(v + "." + a, v + "." + b) != 0
  {
    LastPartCompare(v, a, b);
    CompareIsOrder();
    assert Compare(a, b) == -Compare(b, a) && -1 <= Compare(a, b) <= 1;
    hide Compare;
    hide CompareVersions;
  }

  // ----- all parts -----

  /** A bare version all of whose parts are numbers of 64 bits, or empty. */
  predicate IsBare(x: string) {
    IsNumeric(x) && forall i | 0 <= i < |Split(x, '.')| :: Split(x, '.')[i] == "" || ParseInt(Split(x, '.')[i]).Some?
  }

  predicate FitParts(ps: seq<string>) {
    forall i | 0 <= i < |ps| :: AllDigits(ps[i]) && (ps[i] == "" || ParseInt(ps[i]).Some?)
  }

  predicate SameWidths(ps: seq<string>, qs: seq<string>) {
    |ps| == |qs| && forall i | 0 <= i < |ps| :: |ps[i]| == |qs[i]|
  }

  /** Equally many parts, and corresponding parts equally wide. */
  predicate SameShape(x: string, y: string) {
    SameWidths(Split(x, '.'), Split(y, '.'))
  }

  lemma NumbersStep(ps: seq<string>)
    requires FitParts(ps) && ps != []
    ensures Numbers(ps) == (if ps[0] == "" then [] else [Decimal(ps[0])]) + Numbers(ps[1..])
    ensures FitParts(ps[1..])
  {
    if ps[0] != "" {
      ParsedIsNatural(ps[0]);
    }
    hide Decimal;
  }

  lemma {:induction false} JoinedCompare(ps: seq<string>, qs: seq<string>)
    requires FitParts(ps) && FitParts(qs) && SameWidths(ps, qs)
    ensures Compare(Join(ps, "."), Join(qs, ".")) == CompareNumbers(Numbers(ps), Numbers(qs))
    ensures |Numbers(ps)| == |Numbers(qs)|
  {
    if ps != [] {
      var p, q := ps[0], qs[0];
      NumbersStep(ps);
      NumbersStep(qs);
      assert SameWidths(ps[1..], qs[1..]);
      JoinedCompare(ps[1..], qs[1..]);
      DigitsCompare(p, q);
      if |ps| == 1 {
        JoinedLast(p, q);
      } else {
        JoinedMore(p, Join(ps[1..], "."), q, Join(qs[1..], "."));
      }
      hide Compare;
      HeadDecides(p, Numbers(ps[1..]), q, Numbers(qs[1..]));
      hide CompareNumbers;
      hide Numbers;
      hide Decimal;
      hide FitParts;
      hide SameWidths;
    }
  }

  lemma JoinedLast(p: string, q: string)
    ensures Join([p], ".") == p && Join([q], ".") == q && Numbers([]) == [] && CompareNumbers([], []) == 0
    ensures Join([], ".") == ""
  {
  }

  lemma JoinedMore(p: string, x: string, q: string, y: string)
    requires |p| == |q|
    ensures Compare(p + "." + x, q + "." + y) == if Compare(p, q) != 0 then Compare(p, q) else Compare(x, y)
  {
    CompareSplit(p, "." + x, q, "." + y);
    TextSkip(".", x, y);
    hide Compare;
    assert p + "." + x == p + ("." + x) && q + "." + y == q + ("." + y);
  }

  lemma HeadDecides(p: string, ns: seq<int>, q: string, ms: seq<int>)
    requires AllDigits(p) && AllDigits(q) && |p| == |q|
    ensures var n := (if p == "" then [] else [Decimal(p)]) + ns; var m := (if q == "" then [] else [Decimal(q)]) + ms;
            CompareNumbers(n, m) ==
            if IntCmp(Decimal(p), Decimal(q)) != 0 then IntCmp(Decimal(p), Decimal(q)) else CompareNumbers(ns, ms)
  {
    if p == "" {
      assert [] + ns == ns && [] + ms == ms;
    } else {
      assert ([Decimal(p)] + ns)[1..] == ns && ([Decimal(q)] + ms)[1..] == ms;
    }
    hide Decimal;
  }

  /** Bare versions of one shape compare as text exactly as they do as versions. */
  lemma SameShapeAgrees(x: string, y: string)
    requires IsBare(x) && IsBare(y) && SameShape(x, y)
    ensures Compare(x, y) == CompareVersions(x, y)
  {
    var ps, qs := Split(x, '.'), Split(y, '.');
    NumericParts(x);
    NumericParts(y);
    hide Split;
    JoinSplit(x, '.');
    JoinSplit(y, '.');
    JoinedCompare(ps, qs);
    NumbersAreNatural(ps);
    NumbersAreNatural(qs);
    StrippedCompare(Numbers(ps), Numbers(qs));
    NumericVersions(x, y);
    hide Compare;
    hide CompareNumbers;
    hide CompareVersions;
    hide StripZeros;
    hide Numbers;
  }

  // ----- the first part that differs -----

  predicate AllPlain(ps: seq<string>) {
    forall i | 0 <= i < |ps| :: IsPlain(ps[i])
  }

  /** A bare version whose parts are all as they are usually written. */
  predicate IsPlainVersion(x: string) {
    IsNumeric(x) && AllPlain(Split(x, '.'))
  }

  function FirstDiff(ps: seq<string>, qs: seq<string>): (k: nat)
    ensures k <= |ps| && k <= |qs|
    ensures k < |ps| && k < |qs| ==> ps[k] != qs[k]
    ensures forall i | 0 <= i < k :: ps[i] == qs[i]
  {
    if ps == [] || qs == [] || ps[0] != qs[0] then 0 else 1 + FirstDiff(ps[1..], qs[1..])
  }

  /** Where there is a part in which two versions first differ, the widths agree there. */
  predicate FirstPartsAgree(x: string, y: string) {
    FirstWidthsAgree(Split(x, '.'), Split(y, '.'))
  }

  predicate FirstWidthsAgree(ps: seq<string>, qs: seq<string>) {
    var k := FirstDiff(ps, qs);
    k < |ps| && k < |qs| ==> WidthsAgree(ps[k], qs[k])
  }

  /** A number ends where a part ends, so what follows the parts does not matter when they differ. */
  lemma {:induction false} PartsStop(p: string, u: string, q: string, v: string)
    requires AllDigits(p) && AllDigits(q) && p != q
    requires (u == "" || u[0] == '.') && (v == "" || v[0] == '.')
    ensures Compare(p + u, q + v) == Compare(p, q)
  {
    if p == "" {
      assert p + u == u && (q + v)[0] == q[0] && IsDigit(q[0]);
    } else if q == "" {
      assert q + v == v && (p + u)[0] == p[0] && IsDigit(p[0]);
    } else {
      assert (p + u)[1..] == p[1..] + u && (q + v)[1..] == q[1..] + v;
      if p[0] == q[0] {
        assert p == [p[0]] + p[1..] && q == [q[0]] + q[1..];
        PartsStop(p[1..], u, q[1..], v);
      }
    }
  }

  /** A joined text is its first part and the rest behind a dot. */
  function After(ps: seq<string>): (u: string)
    requires ps != []
    ensures u == "" || u[0] == '.'
  {
    if |ps| == 1 then "" else "." + Join(ps[1..], ".")
  }

  lemma JoinedAfter(ps: seq<string>)
    requires ps != []
    ensures Join(ps, ".") == ps[0] + After(ps)
  {
    if |ps| == 1 {
      assert ps[0] + "" == ps[0];
    } else {
      assert ps[0] + "." + Join(ps[1..], ".") == ps[0] + ("." + Join(ps[1..], "."));
    }
  }

  /** Equal first parts may be skipped; a version that ends there is smaller as text. */
  lemma AfterCompare(ps: seq<string>, qs: seq<string>)
    requires ps != [] && qs != []
    ensures Compare(After(ps), After(qs)) ==
            if |ps| > 1 && |qs| > 1 then Compare(Join(ps[1..], "."), Join(qs[1..], "."))
            else IntCmp(Min(|ps|, 2), Min(|qs|, 2))
  {
    if |ps| > 1 && |qs| > 1 {
      TextSkip(".", Join(ps[1..], "."), Join(qs[1..], "."));
    }
    hide Join;
  }

  function Min(m: int, n: int): int {
    if m <= n then m else n
  }

  /** What the parts say about the order of two texts. */
  function PartsOrder(ps: seq<string>, qs: seq<string>): int {
    var k := FirstDiff(ps, qs);
    if k < |ps| && k < |qs| then Compare(ps[k], qs[k]) else IntCmp(|ps|, |qs|)
  }

  lemma PartsOrderStep(ps: seq<string>, qs: seq<string>)
    requires ps != [] && qs != []
    ensures PartsOrder(ps, qs) == if ps[0] != qs[0] then Compare(ps[0], qs[0]) else PartsOrder(ps[1..], qs[1..])
  {
    hide Compare;
  }

  lemma {:induction false} TextOfParts(ps: seq<string>, qs: seq<string>)
    requires ps != [] && qs != [] && AllPlain(ps) && AllPlain(qs)
    ensures Compare(Join(ps, "."), Join(qs, ".")) == PartsOrder(ps, qs)
  {
    JoinedAfter(ps);
    JoinedAfter(qs);
    PartsOrderStep(ps, qs);
    assert IsPlain(ps[0]) && IsPlain(qs[0]);
    if ps[0] != qs[0] {
      PartsStop(ps[0], After(ps), qs[0], After(qs));
    } else {
      TextSkip(ps[0], After(ps), After(qs));
      AfterCompare(ps, qs);
      if |ps| > 1 && |qs| > 1 {
        assert AllPlain(ps[1..]) && AllPlain(qs[1..]);
        TextOfParts(ps[1..], qs[1..]);
      } else {
        OneIsOver(ps[1..], qs[1..]);
      }
    }
    hide *;
  }

  lemma OneIsOver(ps: seq<string>, qs: seq<string>)
    requires ps == [] || qs == []
    ensures PartsOrder(ps, qs) == IntCmp(Min(|ps| + 1, 2), Min(|qs| + 1, 2))
  {
  }

  /** What the parts say about the order of two versions; where one runs out, only that it is not the higher. */
  ghost predicate NumbersOrder(ps: seq<string>, qs: seq<string>, c: int) {
    var k := FirstDiff(ps, qs);
    if k < |ps| && k < |qs| then
      c == if |ps[k]| == |qs[k]| then Compare(ps[k], qs[k]) else if |ps[k]| < |qs[k]| then -1 else 1
    else |ps| <= |qs| ==> c <= 0
  }

  lemma PlainNumbers(ps: seq<string>)
    requires AllPlain(ps) && ps != []
    ensures Numbers(ps) == [Decimal(ps[0])] + Numbers(ps[1..]) && Decimal(ps[0]) >= 0 && AllPlain(ps[1..])
  {
    assert IsPlain(ps[0]);
    ParsedIsNatural(ps[0]);
    hide Decimal;
    hide ParseInt;
  }

  lemma {:induction false} NumbersOfParts(ps: seq<string>, qs: seq<string>)
    requires AllPlain(ps) && AllPlain(qs)
    ensures NumbersOrder(ps, qs, CompareNumbers(StripZeros(Numbers(ps)), StripZeros(Numbers(qs))))
  {
    if ps == [] {
      assert Numbers(ps) == [] && StripZeros([]) == [];
    } else if qs != [] {
      assert IsPlain(ps[0]) && IsPlain(qs[0]);
      PlainNumbers(ps);
      PlainNumbers(qs);
      var m, n, ms, ns := Decimal(ps[0]), Decimal(qs[0]), Numbers(ps[1..]), Numbers(qs[1..]);
      StripZerosFront(m, ms);
      StripZerosFront(n, ns);
      PlainCompare(ps[0], qs[0]);
      NumbersOfParts(ps[1..], qs[1..]);
      FrontDecides(m, StripZeros(ms), n, StripZeros(ns));
      NumbersOrderStep(ps, qs);
      DifferentNumbers(ps[0], qs[0]);
      hide *;
    }
  }

  lemma DifferentNumbers(a: string, b: string)
    requires IsPlain(a) && IsPlain(b)
    ensures IntCmp(Decimal(a), Decimal(b)) == 0 <==> a == b
  {
    PlainCompare(a, b);
    CompareIsOrder();
    hide Compare;
    hide Decimal;
  }

  /** One more number in front of two versions without trailing zeros. */
  lemma FrontDecides(m: int, ms: seq<int>, n: int, ns: seq<int>)
    requires m >= 0 && n >= 0
    ensures var x := if m == 0 && ms == [] then [] else [m] + ms;
            var y := if n == 0 && ns == [] then [] else [n] + ns;
            && (m != n ==> CompareNumbers(x, y) == IntCmp(m, n))
            && (m == n ==> CompareNumbers(x, y) == CompareNumbers(ms, ns))
  {
    assert ([m] + ms)[1..] == ms && ([n] + ns)[1..] == ns;
  }

  lemma NumbersOrderStep(ps: seq<string>, qs: seq<string>)
    requires ps != [] && qs != []
    ensures forall c :: NumbersOrder(ps, qs, c) <==>
              if ps[0] == qs[0] then NumbersOrder(ps[1..], qs[1..], c)
              else c == if |ps[0]| == |qs[0]| then Compare(ps[0], qs[0]) else if |ps[0]| < |qs[0]| then -1 else 1
  {
    hide Compare;
  }

  lemma PartsOfVersion(x: string)
    requires IsPlainVersion(x)
    ensures Join(Split(x, '.'), ".") == x && AllPlain(Split(x, '.')) && IsNumeric(x) && Split(x, '.') != []
    ensures VersionNumbers(x) == StripZeros(Numbers(Split(x, '.')))
  {
    JoinSplit(x, '.');
    hide Split;
  }

  /** As text, plain versions compare by the first parts that differ; as versions, by the widths of these first. */
  lemma FirstPartDecides(x: string, y: string)
    requires IsPlainVersion(x) && IsPlainVersion(y)
    ensures Compare(x, y) == PartsOrder(Split(x, '.'), Split(y, '.'))
    ensures NumbersOrder(Split(x, '.'), Split(y, '.'), CompareVersions(x, y))
  {
    PartsOfVersion(x);
    PartsOfVersion(y);
    hide *;
    TextOfParts(Split(x, '.'), Split(y, '.'));
    NumbersOfParts(Split(x, '.'), Split(y, '.'));
    NumericVersions(x, y);
  }

  /**
   Of two plain versions the one that is larger as text is also the higher one, or ties, exactly where the
   widths of the first parts that differ agree, or one version is a prefix of the other.
   */
  lemma FirstPartsDecide(x: string, y: string)
    requires IsPlainVersion(x) && IsPlainVersion(y) && Compare(x, y) <= 0
    ensures CompareVersions(x, y) <= 0 <==> FirstPartsAgree(x, y)
  {
    assert FirstPartsAgree(x, y) <==> FirstWidthsAgree(Split(x, '.'), Split(y, '.'));
    FirstPartDecides(x, y);
    OrdersDecide(Split(x, '.'), Split(y, '.'), CompareVersions(x, y));
    hide *;
  }

  lemma OrdersDecide(ps: seq<string>, qs: seq<string>, c: int)
    requires PartsOrder(ps, qs) <= 0 && NumbersOrder(ps, qs, c)
    ensures c <= 0 <==> FirstWidthsAgree(ps, qs)
  {
    var k := FirstDiff(ps, qs);
    if k < |ps| && k < |qs| {
      ComparedEachWay(ps[k], qs[k]);
    }
    hide Compare;
    hide FirstDiff;
  }

  lemma ComparedEachWay(a: string, b: string)
    ensures Compare(a, b) == -Compare(b, a) && (Compare(a, b) == 0 <==> a == b)
  {
    CompareIsOrder();
    hide Compare;
  }
}
