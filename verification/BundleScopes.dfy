/**
 How keys of different scopes compare, said of the texts alone: inside one scope by what stands in it, in sibling
 scopes by the names of the scopes, and an outer scope above everything inside it.

 With a separator or without one, with parts that are no numbers or without them, a version means the same.
 */
module BundleScopes {
  import opened Text
  import opened Ordering
  import opened BundleKey
  import opened BundleOrder

  /** A segment of a scope. */
  predicate IsSegment(x: string) {
    x != "" && Free(x, '/')
  }

  lemma ScopeOfKey(scope: string, v: string)
    requires Free(v, '/')
    ensures Meaning(scope + "/" + v) == MeaningIn(NonEmpty(Split(scope, '/')), v)
  {
    hide *;
    ScopedKey(scope, v);
    MeaningIs(scope + "/" + v);
  }

  lemma {:induction false} NonEmptyOfBoth(a: seq<string>, b: seq<string>)
    ensures NonEmpty(a + b) == NonEmpty(a) + NonEmpty(b)
  {
    if a == [] {
      assert a + b == b;
    } else {
      assert (a + b)[1..] == a[1..] + b;
      NonEmptyOfBoth(a[1..], b);
    }
  }

  lemma OneSegment(x: string)
    requires Free(x, '/')
    ensures NonEmpty(Split(x, '/')) == if x == "" then [] else [x]
  {
    SplitFree(x, '/');
    hide Split;
    assert [x][1..] == [];
  }

  /** One more name in a scope; an empty one does not count. */
  lemma InnerScope(scope: string, x: string)
    requires Free(x, '/')
    ensures NonEmpty(Split(scope + "/" + x, '/')) == NonEmpty(Split(scope, '/')) + if x == "" then [] else [x]
  {
    SplitAppend(scope, '/', x);
    OneSegment(x);
    hide Split;
    hide NonEmpty;
    assert scope + "/" + x == scope + ['/'] + x;
    NonEmptyOfBoth(Split(scope, '/'), Split(x, '/'));
  }

  lemma ScopesEqual(scope: seq<string>, v: string, w: string)
    ensures CompareKeys(MeaningIn(scope, v), MeaningIn(scope, w)) == CompareKeys(MeaningIn([], v), MeaningIn([], w))
  {
    ScopesAndNumbersAreOrders();
    hide VersionNumbers;
    hide PartsOf;
    hide CompareScopes;
    hide CompareNumbers;
    hide CompareSuffixes;
  }

  /** Inside one scope, whatever its text, keys compare as they do without it. */
  lemma SameScopeCompares(scope: string, v: string, w: string)
    requires Free(v, '/') && Free(w, '/')
    ensures CompareVersions(scope + "/" + v, scope + "/" + w) == CompareVersions(v, w)
  {
    hide *;
    ScopeOfKey(scope, v);
    ScopeOfKey(scope, w);
    Unscoped(v);
    Unscoped(w);
    VersionsAre(scope + "/" + v, scope + "/" + w);
    VersionsAre(v, w);
    ScopesEqual(NonEmpty(Split(scope, '/')), v, w);
  }

  lemma Unscoped(v: string)
    requires Free(v, '/')
    ensures Meaning(v) == MeaningIn([], v)
  {
    hide *;
    WithoutSlash(v);
    MeaningIs(v);
  }

  /** Where scopes first differ, the names there decide. */
  lemma SiblingScopes(outer: seq<string>, x: string, y: string, v: string, w: string)
    requires x != y
    ensures CompareKeys(MeaningIn(outer + [x], v), MeaningIn(outer + [y], w)) == Compare(x, y)
  {
    CompareIsOrder();
    hide Compare;
    hide VersionNumbers;
    hide PartsOf;
    hide CompareNumbers;
    hide CompareSuffixes;
    LexSkip(outer + [x], outer + [y], |outer|, Compare, 1);
    assert (outer + [x])[|outer|..] == [x] && (outer + [y])[|outer|..] == [y];
  }

  /** Keys in sibling scopes compare by the names of these scopes, whatever the versions. */
  lemma SiblingsCompareByName(x: string, y: string, v: string, w: string)
    requires IsSegment(x) && IsSegment(y) && x != y && Free(v, '/') && Free(w, '/')
    ensures CompareVersions(x + "/" + v, y + "/" + w) == Compare(x, y)
  {
    hide *;
    ScopeOfKey(x, v);
    ScopeOfKey(y, w);
    SegmentAlone(x);
    SegmentAlone(y);
    VersionsAre(x + "/" + v, y + "/" + w);
    SiblingScopes([], x, y, v, w);
    assert [] + [x] == [x] && [] + [y] == [y];
  }

  lemma SegmentAlone(x: string)
    requires IsSegment(x)
    ensures NonEmpty(Split(x, '/')) == [x] && Free(x, '/')
  {
    OneSegment(x);
  }

  lemma SegmentInside(scope: string, x: string)
    requires IsSegment(x)
    ensures NonEmpty(Split(scope + "/" + x, '/')) == NonEmpty(Split(scope, '/')) + [x]
  {
    InnerScope(scope, x);
  }

  /** So they do below any common outer scope. */
  lemma InnerSiblingsCompareByName(scope: string, x: string, y: string, v: string, w: string)
    requires IsSegment(x) && IsSegment(y) && x != y && Free(v, '/') && Free(w, '/')
    ensures CompareVersions(scope + "/" + x + "/" + v, scope + "/" + y + "/" + w) == Compare(x, y)
  {
    hide *;
    var a, b := scope + "/" + x, scope + "/" + y;
    ScopeOfKey(a, v);
    ScopeOfKey(b, w);
    SegmentInside(scope, x);
    SegmentInside(scope, y);
    VersionsAre(a + "/" + v, b + "/" + w);
    SiblingScopes(NonEmpty(Split(scope, '/')), x, y, v, w);
  }

  /** A key in a scope ranks above every key in a scope inside that one. */
  lemma ScopeOutranksInner(scope: string, x: string, v: string, w: string)
    requires IsSegment(x) && Free(v, '/') && Free(w, '/')
    ensures CompareVersions(scope + "/" + v, scope + "/" + x + "/" + w) == 1
  {
    hide *;
    ScopedKey(scope, v);
    ScopedKey(scope + "/" + x, w);
    SegmentInside(scope, x);
    assert NonEmpty(Split(scope, '/')) < NonEmpty(Split(scope, '/')) + [x];
    OuterOutranksInner(scope + "/" + v, scope + "/" + x + "/" + w);
  }

  /** A slash too many makes no scope. */
  lemma ExtraSlashIgnored(scope: string, v: string)
    requires Free(v, '/')
    ensures CompareVersions(scope + "/" + "/" + v, scope + "/" + v) == 0
    ensures CompareVersions("/" + v, v) == 0
  {
    hide *;
    ExtraSlash(scope, v);
    assert "" + "/" + v == "/" + v;
    ScopeOfKey("", v);
    NothingIn();
    Unscoped(v);
    VersionsTie("/" + v, v);
  }

  lemma NothingIn()
    ensures NonEmpty(Split("", '/')) == []
  {
    OneSegment("");
  }

  lemma ExtraSlash(scope: string, v: string)
    requires Free(v, '/')
    ensures CompareVersions(scope + "/" + "/" + v, scope + "/" + v) == 0
  {
    hide *;
    EmptySegment(scope);
    assert scope + "/" + "" == scope + "/";
    ScopeOfKey(scope + "/", v);
    ScopeOfKey(scope, v);
    VersionsTie(scope + "/" + "/" + v, scope + "/" + v);
  }

  lemma EmptySegment(scope: string)
    ensures NonEmpty(Split(scope + "/" + "", '/')) == NonEmpty(Split(scope, '/'))
  {
    InnerScope(scope, "");
    hide NonEmpty;
    hide Split;
  }

  // ----- separators -----

  /** Between a version and a suffix that starts with a letter, a separator makes no difference. */
  lemma SeparatorMayBeLeftOut(v: string, s: string)
    requires IsNumeric(v) && Free(s, '/') && s != "" && ('A' <= s[0] <= 'Z' || 'a' <= s[0] <= 'z')
    ensures CompareVersions(v + s, v + "-" + s) == 0
  {
    assert IsLetterOrDigit(s[0]) && !IsDigitOrDot(s[0]);
    hide *;
    VersionWithSuffix(v, s);
    AfterDash(v, s);
    VersionsTie(v + s, v + "-" + s);
  }

  /** Every byte but a letter, a digit, a dot or a slash is a separator, and all separators are one. */
  lemma SeparatorsAreOne(v: string, c: char, s: string)
    requires IsNumeric(v) && Free(s, '/') && c != '/'
    requires !('A' <= c <= 'Z') && !('a' <= c <= 'z') && !('0' <= c <= '9') && c != '.'
    ensures CompareVersions(v + [c] + s, v + "-" + s) == 0
  {
    var t := [c] + s;
    assert t[0] == c && t[1..] == s && !IsLetterOrDigit(c) && !IsDigitOrDot(c);
    assert Free(t, '/') by {
      assert forall i | 0 < i < |t| :: t[i] == s[i - 1];
    }
    assert v + [c] + s == v + t;
    hide *;
    VersionWithSuffix(v, t);
    AfterDash(v, s);
    VersionsTie(v + [c] + s, v + "-" + s);
  }

  // ----- numbers of a version -----

  /** A part that is empty, or that is too large for 64 bits, does not count. */
  lemma UnusablePartIgnored(v: string, p: string, w: string)
    requires IsNumeric(v) && IsNumeric(w) && AllDigits(p)
    requires p == "" || Decimal(p) > 9223372036854775807
    ensures CompareVersions(v + "." + p + "." + w, v + "." + w) == 0
  {
    hide *;
    var x, y := v + "." + p, v + "." + w;
    PartsAround(v, w);
    PartsAround(v, p);
    DigitsAreOnePart(p);
    PartsAround(x, w);
    assert Numbers(Split(x, '.')) == Numbers(Split(v, '.')) + [];
    assert Numbers(Split(x, '.')) == Numbers(Split(v, '.'));
    DottedNumeric(v, ".", p);
    DottedNumeric(x, ".", w);
    DottedNumeric(v, ".", w);
    StrippedNumbers(x + "." + w);
    StrippedNumbers(y);
    NumericIsFlat(x + "." + w);
    NumericIsFlat(y);
    VersionsTie(x + "." + w, y);
  }

  lemma PartsAround(v: string, w: string)
    ensures Numbers(Split(v + "." + w, '.')) == Numbers(Split(v, '.')) + Numbers(Split(w, '.'))
  {
    hide *;
    SplitAppend(v, '.', w);
    assert v + ['.'] + w == v + "." + w;
    NumbersAppend(Split(v, '.'), Split(w, '.'));
  }

  lemma DigitsAreOnePart(p: string)
    requires AllDigits(p) && (p == "" || Decimal(p) > 9223372036854775807)
    ensures Numbers(Split(p, '.')) == [] && IsNumeric(p)
  {
    DigitsFree(p);
    SplitFree(p, '.');
    assert ParseInt(p) == None by {
      assert p != "" ==> IsDigit(p[0]);
      hide Decimal;
    }
    hide ParseInt;
    assert [p][1..] == [];
    forall i | 0 <= i < |p| ensures IsDigitOrDot(p[i]) {
      assert IsDigit(p[i]);
    }
  }

  lemma DottedNumeric(v: string, dot: string, w: string)
    requires IsNumeric(v) && IsNumeric(w) && dot == "."
    ensures IsNumeric(v + dot + w)
  {
    forall i | 0 <= i < |v + dot + w| ensures IsDigitOrDot((v + dot + w)[i]) {
      assert i > |v| ==> IsDigitOrDot(w[i - |v| - 1]);
    }
  }

  /** One more number, other than zero, makes a version the higher one. */
  lemma LongerOutranks(v: string, a: string)
    requires IsNumeric(v) && AllDigits(a) && 0 < Decimal(a) <= 9223372036854775807
    ensures CompareVersions(v + "." + a, v) == 1
  {
    hide *;
    var older, m := Numbers(Split(v, '.')), Decimal(a);
    ParsesAs(a);
    DottedVersion(v, a, m);
    NumericVersions(v + "." + a, v);
    StrippedNumbers(v);
    NothingToStrip(older, m);
    StrippedIsPrefix(older);
    LongerIsMore(StripZeros(older), older, m);
  }

  lemma ParsesAs(a: string)
    requires AllDigits(a) && 0 < Decimal(a) <= 9223372036854775807
    ensures ParseInt(a) == Some(Decimal(a))
  {
    assert a != "" by { assert Decimal("") == 0; }
    assert IsDigit(a[0]);
    hide Decimal;
  }

  lemma NothingToStrip(ns: seq<int>, m: int)
    requires m != 0
    ensures StripZeros(ns + [m]) == ns + [m]
  {
  }

  lemma StrippedIsPrefix(ns: seq<int>)
    ensures StripZeros(ns) <= ns
  {
    hide StripZeros;
  }

  lemma LongerIsMore(p: seq<int>, ns: seq<int>, m: int)
    requires p <= ns
    ensures CompareNumbers(ns + [m], p) == 1
  {
    var longer := ns + [m];
    LexSkip(longer, p, |p|, IntCmp, -1);
    assert p[|p|..] == [] && longer[|p|..] != [];
  }
}
