/**
 The order on bundle keys: the hand-written comparator is a total order on parsed keys, and it has the
 release rules its comments promise.

 Scopes come first and prefer the shorter one, version numbers second and prefer the longer one, suffixes last
 and prefer the shorter one again; in a suffix a number ranks above a name. The order on suffixes is mutually
 recursive with the one on their parts, because a part may be a key itself, so flipping and transitivity are
 proved for both together. As the parser makes no part that carries anything which the comparison ignores, two
 keys tie only when they are equal.
 */
module BundleOrder {
  import opened Text
  import opened Ordering
  import opened BundleKey

  // ----- the order -----

  function CompareScopes(a: seq<string>, b: seq<string>): int {
    Lex(a, b, Compare, 1)
  }

  function CompareNumbers(a: seq<int>, b: seq<int>): int {
    Lex(a, b, IntCmp, -1)
  }

  /** Suffixes: groups from the left, and the shorter suffix ranks higher. */
  function CompareSuffixes(a: seq<SuffixPart>, b: seq<SuffixPart>): int
    decreases a, 0
  {
    if a == [] && b == [] then 0
    else if a == [] then 1
    else if b == [] then -1
    else if ComparePart(a[0], b[0]) != 0 then ComparePart(a[0], b[0])
    else CompareSuffixes(a[1..], b[1..])
  }

  /** A number ranks above a name; a nested key is compared without its scope. */
  function ComparePart(a: SuffixPart, b: SuffixPart): int
    decreases a, 1
  {
    match (a, b)
    case (Number(x), Number(y)) =>
      if CompareNumbers(x.versionParts, y.versionParts) != 0 then CompareNumbers(x.versionParts, y.versionParts)
      else CompareSuffixes(x.suffixParts, y.suffixParts)
    case (Name(x), Name(y)) => Compare(x, y)
    case (Number(_), Name(_)) => 1
    case (Name(_), Number(_)) => -1
  }

  function CompareKeys(a: Key, b: Key): int {
    if CompareScopes(a.scope, b.scope) != 0 then CompareScopes(a.scope, b.scope)
    else if CompareNumbers(a.versionParts, b.versionParts) != 0 then CompareNumbers(a.versionParts, b.versionParts)
    else CompareSuffixes(a.suffixParts, b.suffixParts)
  }

  function CompareVersions(a: string, b: string): int {
    CompareKeys(Meaning(a), Meaning(b))
  }

  // ----- it is a total order -----

  lemma ScopesAndNumbersAreOrders()
    ensures IsOrder(CompareScopes) && IsOrder(CompareNumbers)
    ensures forall a, b :: CompareScopes(a, b) == 0 <==> a == b
    ensures forall a, b :: CompareNumbers(a, b) == 0 <==> a == b
  {
    CompareIsOrder();
    forall a, b
      ensures CompareScopes(a, b) == -CompareScopes(b, a) && -1 <= CompareScopes(a, b) <= 1
      ensures CompareScopes(a, b) == 0 <==> a == b
    {
      LexFlips(a, b, Compare, 1);
      LexZero(a, b, Compare, 1);
    }
    forall a, b
      ensures CompareNumbers(a, b) == -CompareNumbers(b, a) && -1 <= CompareNumbers(a, b) <= 1
      ensures CompareNumbers(a, b) == 0 <==> a == b
    {
      LexFlips(a, b, IntCmp, -1);
      LexZero(a, b, IntCmp, -1);
    }
    forall a, b, c | AtMost(CompareScopes, a, b) && AtMost(CompareScopes, b, c) ensures AtMost(CompareScopes, a, c) {
      LexTransitive(a, b, c, Compare, 1);
    }
    forall a, b, c | AtMost(CompareNumbers, a, b) && AtMost(CompareNumbers, b, c) ensures AtMost(CompareNumbers, a, c) {
      LexTransitive(a, b, c, IntCmp, -1);
    }
  }

  lemma {:induction false} SuffixesFlip(a: seq<SuffixPart>, b: seq<SuffixPart>)
    ensures CompareSuffixes(a, b) == -CompareSuffixes(b, a) && -1 <= CompareSuffixes(a, b) <= 1
    decreases a, 0
  {
    if a != [] && b != [] {
      PartsFlip(a[0], b[0]);
      SuffixesFlip(a[1..], b[1..]);
    }
  }

  lemma {:induction false} PartsFlip(a: SuffixPart, b: SuffixPart)
    ensures ComparePart(a, b) == -ComparePart(b, a) && -1 <= ComparePart(a, b) <= 1
    decreases a, 1
  {
    match (a, b) {
      case (Number(x), Number(y)) =>
        ScopesAndNumbersAreOrders();
        SuffixesFlip(x.suffixParts, y.suffixParts);
      case (Name(x), Name(y)) =>
        CompareIsOrder();
      case _ =>
    }
  }

  /** Transitivity, with ties kept: if one of the two steps is strict, so is the result. */
  lemma {:induction false} SuffixesTransitive(a: seq<SuffixPart>, b: seq<SuffixPart>, c: seq<SuffixPart>)
    requires CompareSuffixes(a, b) <= 0 && CompareSuffixes(b, c) <= 0
    ensures CompareSuffixes(a, c) <= 0
    ensures CompareSuffixes(a, c) == 0 ==> CompareSuffixes(a, b) == 0 && CompareSuffixes(b, c) == 0
    decreases a, 0
  {
    if a != [] && b != [] && c != [] {
      PartsTransitive(a[0], b[0], c[0]);
      if ComparePart(a[0], c[0]) == 0 {
        SuffixesTransitive(a[1..], b[1..], c[1..]);
      }
    }
  }

  lemma {:induction false} PartsTransitive(a: SuffixPart, b: SuffixPart, c: SuffixPart)
    requires ComparePart(a, b) <= 0 && ComparePart(b, c) <= 0
    ensures ComparePart(a, c) <= 0
    ensures ComparePart(a, c) == 0 ==> ComparePart(a, b) == 0 && ComparePart(b, c) == 0
    decreases a, 1
  {
    if a.Number? && b.Number? && c.Number? {
      ScopesAndNumbersAreOrders();
      var x, y, z := a.key.versionParts, b.key.versionParts, c.key.versionParts;
      StrictTransitive(CompareNumbers, x, y, z);
      if CompareNumbers(x, z) == 0 {
        SuffixesTransitive(a.key.suffixParts, b.key.suffixParts, c.key.suffixParts);
      }
    } else if a.Name? && b.Name? && c.Name? {
      CompareIsOrder();
      StrictTransitive(Compare, a.text, b.text, c.text);
    }
  }

  lemma StrictTransitive<T(!new)>(cmp: (T, T) -> int, x: T, y: T, z: T)
    requires IsOrder(cmp) && cmp(x, y) <= 0 && cmp(y, z) <= 0
    ensures cmp(x, z) <= 0
    ensures cmp(x, z) == 0 ==> cmp(x, y) == 0 && cmp(y, z) == 0
  {
    assert AtMost(cmp, x, y) && AtMost(cmp, y, z);
    assert AtMost(cmp, x, z);
    if cmp(x, z) == 0 {
      assert AtMost(cmp, z, x);
      assert AtMost(cmp, y, x) && AtMost(cmp, z, y);
    }
  }

  lemma KeysFlip(a: Key, b: Key)
    ensures CompareKeys(a, b) == -CompareKeys(b, a) && -1 <= CompareKeys(a, b) <= 1
  {
    ScopesAndNumbersAreOrders();
    SuffixesFlip(a.suffixParts, b.suffixParts);
    assert CompareScopes(a.scope, b.scope) == -CompareScopes(b.scope, a.scope);
    assert CompareNumbers(a.versionParts, b.versionParts) == -CompareNumbers(b.versionParts, a.versionParts);
  }

  lemma KeysTransitive(a: Key, b: Key, c: Key)
    requires CompareKeys(a, b) <= 0 && CompareKeys(b, c) <= 0
    ensures CompareKeys(a, c) <= 0
  {
    ScopesAndNumbersAreOrders();
    StrictTransitive(CompareScopes, a.scope, b.scope, c.scope);
    if CompareScopes(a.scope, c.scope) == 0 {
      StrictTransitive(CompareNumbers, a.versionParts, b.versionParts, c.versionParts);
      if CompareNumbers(a.versionParts, c.versionParts) == 0 {
        SuffixesTransitive(a.suffixParts, b.suffixParts, c.suffixParts);
      }
    }
  }

  /** Nested numbers, as the parser makes them, carry nothing that the comparison ignores. */
  ghost predicate FlatParts(parts: seq<SuffixPart>) {
    forall i | 0 <= i < |parts| :: parts[i].Number? ==> parts[i].key.scope == [] && parts[i].key.suffixParts == []
  }

  lemma {:induction false} SuffixesZero(a: seq<SuffixPart>, b: seq<SuffixPart>)
    requires FlatParts(a) && FlatParts(b)
    ensures CompareSuffixes(a, b) == 0 <==> a == b
  {
    if a != [] && b != [] {
      SuffixesZero(a[1..], b[1..]);
      CompareIsOrder();
      ScopesAndNumbersAreOrders();
      assert ComparePart(a[0], b[0]) == 0 <==> a[0] == b[0];
      assert a == [a[0]] + a[1..] && b == [b[0]] + b[1..];
    }
  }

  lemma KeysZero(a: Key, b: Key)
    requires FlatParts(a.suffixParts) && FlatParts(b.suffixParts)
    ensures CompareKeys(a, b) == 0 <==> a == b
  {
    ScopesAndNumbersAreOrders();
    SuffixesZero(a.suffixParts, b.suffixParts);
  }

  lemma MeaningIsFlat(raw: string)
    ensures FlatParts(Meaning(raw).suffixParts)
  {
    hide VersionNumbers;
    hide ScopeOf;
    hide Groups;
  }

  lemma VersionsFlip(a: string, b: string)
    ensures CompareVersions(a, b) == -CompareVersions(b, a) && -1 <= CompareVersions(a, b) <= 1
  {
    hide Meaning;
    KeysFlip(Meaning(a), Meaning(b));
  }

  lemma VersionsTransitive(a: string, b: string, c: string)
    requires CompareVersions(a, b) <= 0 && CompareVersions(b, c) <= 0
    ensures CompareVersions(a, c) <= 0
  {
    hide Meaning;
    KeysTransitive(Meaning(a), Meaning(b), Meaning(c));
  }

  lemma VersionsTie(a: string, b: string)
    ensures CompareVersions(a, b) == 0 <==> Meaning(a) == Meaning(b)
  {
    hide Meaning;
    MeaningIsFlat(a);
    MeaningIsFlat(b);
    KeysZero(Meaning(a), Meaning(b));
  }

  /**
   `compareBundleVersions` is a total preorder on all strings, and two strings tie exactly when they parse
   to the same key.
   */
  lemma CompareVersionsIsOrder()
    ensures IsOrder(CompareVersions)
    ensures forall a, b :: CompareVersions(a, b) == 0 <==> Meaning(a) == Meaning(b)
  {
    forall a, b
      ensures CompareVersions(a, b) == -CompareVersions(b, a) && -1 <= CompareVersions(a, b) <= 1
      ensures CompareVersions(a, b) == 0 <==> Meaning(a) == Meaning(b)
    {
      VersionsFlip(a, b);
      VersionsTie(a, b);
    }
    forall a, b, c | AtMost(CompareVersions, a, b) && AtMost(CompareVersions, b, c)
      ensures AtMost(CompareVersions, a, c)
    {
      VersionsTransitive(a, b, c);
    }
  }

  // ----- the promised rules -----

  predicate IsVersion(v: string) {
    v != "" && IsNumeric(v)
  }

  lemma WithoutSlash(raw: string)
    requires Free(raw, '/')
    ensures ScopeOf(raw) == [] && FinalSegment(raw) == raw
  {
    assert LastIndexOf(raw, '/') < 0;
  }

  /** A version with a suffix parses to the version's numbers and the suffix groups. */
  lemma VersionWithSuffix(v: string, s: string)
    requires IsNumeric(v) && Free(s, '/') && (s != "" ==> !IsDigitOrDot(s[0]))
    ensures ScopeOf(v + s) == []
    ensures FinalSegment(v + s) == v + s && VersionOf(v + s) == v
    ensures SuffixOf(v + s) == if s != "" && !IsLetterOrDigit(s[0]) then s[1..] else s
    ensures Meaning(v + s) == Key([], VersionNumbers(v), PartsOf(Groups(SuffixOf(v + s))))
  {
    forall i | 0 <= i < |v + s| ensures (v + s)[i] != '/' {
      if i < |v| { assert IsDigitOrDot(v[i]); } else { assert (v + s)[i] == s[i - |v|]; }
    }
    WithoutSlash(v + s);
    SpanIs(v, s, IsDigitOrDot);
    assert (v + s)[..|v|] == v && (v + s)[|v|..] == s;
  }

  /**
   A release outranks each of its pre-releases. The one exception, which the code's comment does not mention:
   a suffix that is nothing but a separator ("2025.12-") is no suffix at all, and ties with the release.
   */
  lemma ReleaseOutranksPreRelease(v: string, s: string)
    requires IsNumeric(v) && s != "" && Free(s, '/') && !IsDigitOrDot(s[0])
    ensures CompareVersions(v, v + s) == if |s| == 1 && !IsLetterOrDigit(s[0]) then 0 else 1
  {
    hide *;
    VersionWithSuffix(v, s);
    NumericIsFlat(v);
    LoneSeparator(s, SuffixOf(v + s));
    VersionsAre(v, v + s);
    SuffixDecides(VersionNumbers(v), PartsOf(Groups(SuffixOf(v + s))));
  }

  lemma LoneSeparator(s: string, suffix: string)
    requires s != "" && suffix == if !IsLetterOrDigit(s[0]) then s[1..] else s
    ensures PartsOf(Groups(suffix)) == [] <==> |s| == 1 && !IsLetterOrDigit(s[0])
  {
    hide PartOf;
  }

  lemma SuffixDecides(ns: seq<int>, parts: seq<SuffixPart>)
    ensures CompareKeys(Key([], ns, []), Key([], ns, parts)) == if parts == [] then 0 else 1
  {
    ScopesAndNumbersAreOrders();
    hide CompareScopes;
    hide CompareNumbers;
  }

  // ----- pre-releases -----

  /** Pre-releases of one version compare by what follows the separator. */
  lemma SuffixesDecide(v: string, s: string, t: string)
    requires IsNumeric(v) && Free(s, '/') && Free(t, '/')
    ensures CompareVersions(v + "-" + s, v + "-" + t) == CompareSuffixes(PartsOf(Groups(s)), PartsOf(Groups(t)))
  {
    AfterDash(v, s);
    AfterDash(v, t);
    ScopesAndNumbersAreOrders();
    hide Meaning;
    hide Groups;
    hide PartsOf;
    hide VersionNumbers;
    hide CompareSuffixes;
    hide CompareNumbers;
    hide CompareScopes;
  }

  lemma AfterDash(v: string, s: string)
    requires IsNumeric(v) && Free(s, '/')
    ensures Meaning(v + "-" + s) == Key([], VersionNumbers(v), PartsOf(Groups(s)))
  {
    Dashed("-", s);
    hide *;
    VersionWithSuffix(v, "-" + s);
    RegroupThree(v, "-", s);
  }

  lemma Dashed(dash: string, s: string)
    requires dash == "-" && Free(s, '/')
    ensures dash + s != "" && (dash + s)[1..] == s && Free(dash + s, '/')
    ensures !IsDigitOrDot((dash + s)[0]) && !IsLetterOrDigit((dash + s)[0])
  {
    assert (dash + s)[0] == dash[0];
  }

  /** What stands before the number of a pre-release, as RC or beta. */
  predicate IsTag(a: string) {
    a != "" && forall i | 0 <= i < |a| :: !IsDigitOrDot(a[i]) && a[i] != '/'
  }

  lemma TaggedGroups(a: string, m: string)
    requires IsTag(a) && IsNumeric(m)
    ensures PartsOf(Groups(a + m)) == if m == "" then [Name(a)] else [Name(a), Number(Key([], VersionNumbers(m), []))]
    ensures Free(a + m, '/')
  {
    TagGroups(a, m);
    hide Groups;
    hide VersionNumbers;
  }

  lemma OneGroup(g: string)
    requires g != "" && Uniform(g)
    ensures IsGrouping([g], g) && Groups(g) == [g]
  {
    EmptyGrouping();
    AddGroup([], "", g);
    assert [] + [g] == [g] && "" + g == g;
    GroupsAreGrouping(g);
    hide IsGrouping;
    hide Groups;
    GroupingUnique([g], Groups(g), g);
  }

  lemma TagGroups(a: string, m: string)
    requires IsTag(a) && IsNumeric(m)
    ensures Groups(a + m) == if m == "" then [a] else [a, m]
    ensures Free(a + m, '/')
  {
    OneGroup(a);
    if m == "" {
      assert a + m == a;
    } else {
      AddGroup([a], a, m);
      assert [a] + [m] == [a, m];
      GroupsAreGrouping(a + m);
      hide IsGrouping;
      hide Groups;
      GroupingUnique([a, m], Groups(a + m), a + m);
    }
  }

  lemma NumberGroups(m: string)
    requires IsNumeric(m) && m != ""
    ensures PartsOf(Groups(m)) == [Number(Key([], VersionNumbers(m), []))]
  {
    OneGroup(m);
    hide VersionNumbers;
    hide Groups;
  }

  /**
   Pre-releases of one version rank by their tags first, in dictionary order. With the same tag, the one without
   a number ranks highest, and numbers compare as version numbers: rc2 is below rc10.
   */
  lemma PreReleasesRank(v: string, a: string, m: string, b: string, n: string)
    requires IsNumeric(v) && IsTag(a) && IsTag(b) && IsNumeric(m) && IsNumeric(n)
    ensures CompareVersions(v + "-" + (a + m), v + "-" + (b + n)) ==
            if a != b then Compare(a, b)
            else if m == "" || n == "" then (if m == n then 0 else if m == "" then 1 else -1)
            else CompareNumbers(VersionNumbers(m), VersionNumbers(n))
  {
    TaggedGroups(a, m);
    TaggedGroups(b, n);
    SuffixesDecide(v, a + m, b + n);
    CompareIsOrder();
    SuffixPairs(a, m, b, n);
    hide *;
  }

  lemma SuffixPairs(a: string, m: string, b: string, n: string)
    ensures var s := if m == "" then [Name(a)] else [Name(a), Number(Key([], VersionNumbers(m), []))];
            var t := if n == "" then [Name(b)] else [Name(b), Number(Key([], VersionNumbers(n), []))];
            CompareSuffixes(s, t) ==
            if a != b then Compare(a, b)
            else if m == "" || n == "" then (if m == n then 0 else if m == "" then 1 else -1)
            else CompareNumbers(VersionNumbers(m), VersionNumbers(n))
  {
    CompareIsOrder();
    ScopesAndNumbersAreOrders();
    hide Compare;
    hide CompareNumbers;
    hide CompareScopes;
    var k, l := Key([], VersionNumbers(m), []), Key([], VersionNumbers(n), []);
    hide VersionNumbers;
    var x: seq<SuffixPart> := if m == "" then [] else [Number(k)];
    var y: seq<SuffixPart> := if n == "" then [] else [Number(l)];
    assert CompareSuffixes([], []) == 0;
    assert m != "" && n != "" ==> CompareSuffixes(x, y) == ComparePart(x[0], y[0]) by {
      assert m != "" && n != "" ==> x[1..] == [] && y[1..] == [];
    }
    Tagged(a, x, b, y);
    assert [Name(a)] + x == if m == "" then [Name(a)] else [Name(a), Number(k)];
    assert [Name(b)] + y == if n == "" then [Name(b)] else [Name(b), Number(l)];
  }

  lemma Tagged(a: string, x: seq<SuffixPart>, b: string, y: seq<SuffixPart>)
    ensures CompareSuffixes([Name(a)] + x, [Name(b)] + y) == if a != b then Compare(a, b) else CompareSuffixes(x, y)
  {
    CompareIsOrder();
    hide Compare;
    assert ([Name(a)] + x)[1..] == x && ([Name(b)] + y)[1..] == y;
  }

  /** A pre-release that is only a number ranks above every tagged one. */
  lemma NumberOutranksTag(v: string, m: string, a: string, n: string)
    requires IsNumeric(v) && IsNumeric(m) && m != "" && IsTag(a) && IsNumeric(n)
    ensures CompareVersions(v + "-" + m, v + "-" + (a + n)) == 1
  {
    NumberGroups(m);
    TaggedGroups(a, n);
    assert Free(m, '/') by {
      forall i | 0 <= i < |m| ensures m[i] != '/' { assert IsDigitOrDot(m[i]); }
    }
    SuffixesDecide(v, m, a + n);
    hide VersionNumbers;
    hide Groups;
    hide PartsOf;
    hide CompareVersions;
  }

  lemma ParseDigit(d: string)
    requires |d| == 1 && IsDigit(d[0])
    ensures ParseInt(d) == Some(DigitValue(d[0]))
  {
    assert AllDigits(d) && d[..0] == "";
    assert Decimal(d) == DigitValue(d[0]);
  }

  /** A dotted last part adds its number to those before. */
  lemma NumbersOfDotted(v: string, last: string, n: int)
    requires Free(last, '.') && ParseInt(last) == Some(n)
    ensures Numbers(Split(v + "." + last, '.')) == Numbers(Split(v, '.')) + [n]
  {
    SplitAppend(v, '.', last);
    assert v + ['.'] + last == v + "." + last;
    SplitFree(last, '.');
    NumbersAppend(Split(v, '.'), [last]);
    assert Numbers([last]) == [n] + Numbers([last][1..]);
  }

  lemma {:induction false} StripZerosDrop(ns: seq<int>)
    ensures StripZeros(ns + [0]) == StripZeros(ns)
  {
    assert (ns + [0])[..|ns|] == ns;
  }

  /** Trailing zeros do not count: "2025.12.0" is "2025.12". */
  lemma TrailingZeroIgnored(v: string)
    requires IsNumeric(v)
    ensures CompareVersions(v + ".0", v) == 0
  {
    hide Split;
    hide Numbers;
    hide StripZeros;
    assert v + ".0" == v + "." + "0";
    ParseDigit("0");
    NumbersOfDotted(v, "0", 0);
    StripZerosDrop(Numbers(Split(v, '.')));
    NumericIsFlat(v);
    NumericIsFlat(v + ".0");
    VersionsTie(v + ".0", v);
  }

  // ----- scopes -----

  /** A proper prefix ranks above what it is a prefix of, where short sequences are preferred. */
  lemma {:induction false} PrefixRanks(a: seq<string>, b: seq<string>)
    requires a < b
    ensures CompareScopes(a, b) == 1
  {
    if a != [] {
      CompareIsOrder();
      hide Compare;
      assert a[0] == b[0] && a[1..] < b[1..];
      PrefixRanks(a[1..], b[1..]);
    }
  }

  /** An outer scope ranks above every scope inside it, whatever the versions; no scope is the outermost. */
  lemma OuterOutranksInner(a: string, b: string)
    requires ScopeOf(a) < ScopeOf(b)
    ensures CompareVersions(a, b) == 1
  {
    PrefixRanks(ScopeOf(a), ScopeOf(b));
    hide CompareScopes;
    hide Meaning;
    assert Meaning(a).scope == ScopeOf(a) && Meaning(b).scope == ScopeOf(b) by {
      hide ScopeOf;
    }
  }

  lemma ScopedKey(scope: string, w: string)
    requires Free(w, '/')
    ensures ScopeOf(scope + "/" + w) == NonEmpty(Split(scope, '/')) && FinalSegment(scope + "/" + w) == w
  {
    var raw := scope + "/" + w;
    assert raw[|scope|] == '/' && raw[..|scope|] == scope && raw[|scope| + 1..] == w;
    forall i | |scope| < i < |raw| ensures raw[i] != '/' {
      assert raw[i] == w[i - |scope| - 1];
    }
    assert LastIndexOf(raw, '/') == |scope|;
  }

  /** Text that is nothing but slashes is no scope. */
  lemma {:induction false} SlashesAreNoScope(scope: string)
    ensures NonEmpty(Split(scope, '/')) == [] <==> forall i | 0 <= i < |scope| :: scope[i] == '/'
  {
    if scope != "" {
      SlashesAreNoScope(scope[1..]);
      SplitStep(scope, '/');
      var rest := Split(scope[1..], '/');
      if scope[0] == '/' {
        assert ([""] + rest)[1..] == rest;
        assert forall i | 0 < i < |scope| :: scope[i] == scope[1..][i - 1];
        assert forall i | 0 <= i < |scope[1..]| :: scope[1..][i] == scope[i + 1];
      } else {
        assert ([[scope[0]] + rest[0]] + rest[1..])[0] != "";
      }
    }
  }

  /** A key in a scope ranks below every key without one; a scope that is nothing but slashes does not count. */
  lemma UnscopedOutranksScoped(v: string, scope: string, w: string)
    requires Free(v, '/') && Free(w, '/')
    ensures CompareVersions(v, scope + "/" + w) ==
            if forall i | 0 <= i < |scope| :: scope[i] == '/' then CompareVersions(v, w) else 1
  {
    hide *;
    ScopedKey(scope, w);
    SlashesAreNoScope(scope);
    WithoutSlash(v);
    WithoutSlash(w);
    if NonEmpty(Split(scope, '/')) == [] {
      MeaningIs(scope + "/" + w);
      MeaningIs(w);
      VersionsAre(v, scope + "/" + w);
      VersionsAre(v, w);
    } else {
      OuterOutranksInner(v, scope + "/" + w);
    }
  }

  lemma MeaningIs(raw: string)
    ensures Meaning(raw) == MeaningIn(ScopeOf(raw), FinalSegment(raw))
  {
  }

  lemma VersionsAre(a: string, b: string)
    ensures CompareVersions(a, b) == CompareKeys(Meaning(a), Meaning(b))
  {
  }

  // ----- last parts -----

  lemma LastDecides(older: seq<int>, m: int, n: int)
    ensures CompareNumbers(older + [m], older + [n]) == if m < n then -1 else if m > n then 1 else 0
  {
    LexSkip(older + [m], older + [n], |older|, IntCmp, -1);
    assert (older + [m])[|older|..] == [m] && (older + [n])[|older|..] == [n];
  }

  predicate NoneNegative(ns: seq<int>) {
    forall i | 0 <= i < |ns| :: ns[i] >= 0
  }

  lemma {:induction false} StripZerosFront(n: int, rest: seq<int>)
    ensures StripZeros([n] + rest) == if n == 0 && StripZeros(rest) == [] then [] else [n] + StripZeros(rest)
  {
    var ns := [n] + rest;
    if rest == [] {
      assert ns[..0] == [];
    } else {
      assert ns[..|ns| - 1] == [n] + rest[..|rest| - 1];
      StripZerosFront(n, rest[..|rest| - 1]);
    }
  }

  /** Dropping trailing zeros does not change how equally many numbers compare. */
  lemma {:induction false} StrippedCompare(ns: seq<int>, ms: seq<int>)
    requires |ns| == |ms| && NoneNegative(ns) && NoneNegative(ms)
    ensures CompareNumbers(StripZeros(ns), StripZeros(ms)) == CompareNumbers(ns, ms)
  {
    if ns != [] {
      var x, y := ns[1..], ms[1..];
      assert ns == [ns[0]] + x && ms == [ms[0]] + y;
      StripZerosFront(ns[0], x);
      StripZerosFront(ms[0], y);
      StrippedCompare(x, y);
      var p, q := StripZeros(x), StripZeros(y);
      assert ([ns[0]] + p)[1..] == p && ([ms[0]] + q)[1..] == q;
      hide StripZeros;
    }
  }

  lemma {:induction false} NumericParts(v: string)
    requires IsNumeric(v)
    ensures forall i | 0 <= i < |Split(v, '.')| :: AllDigits(Split(v, '.')[i])
  {
    if v == "" {
      assert Split(v, '.') == [""];
    } else {
      NumericParts(v[1..]);
      SplitStep(v, '.');
      hide Split;
      assert v[0] != '.' ==> IsDigit(v[0]);
    }
  }

  lemma {:induction false} NumbersAreNatural(parts: seq<string>)
    requires forall i | 0 <= i < |parts| :: AllDigits(parts[i])
    ensures NoneNegative(Numbers(parts))
  {
    if parts != [] {
      NumbersAreNatural(parts[1..]);
      assert parts[0] != "" ==> IsDigit(parts[0][0]);
      hide Decimal;
    }
  }

  /** Versions that differ in their last part alone compare by the numbers there. */
  lemma LastPartIsNumeric(v: string, a: string, b: string, m: int, n: int)
    requires IsNumeric(v) && AllDigits(a) && AllDigits(b)
    requires ParseInt(a) == Some(m) && ParseInt(b) == Some(n)
    ensures CompareVersions(v + "." + a, v + "." + b) == if m < n then -1 else if m > n then 1 else 0
  {
    hide *;
    var older := Numbers(Split(v, '.'));
    DottedVersion(v, a, m);
    DottedVersion(v, b, n);
    NumericVersions(v + "." + a, v + "." + b);
    StrippedCompare(older + [m], older + [n]);
    LastDecides(older, m, n);
  }

  lemma DottedVersion(v: string, a: string, m: int)
    requires IsNumeric(v) && AllDigits(a) && ParseInt(a) == Some(m)
    ensures IsNumeric(v + "." + a) && VersionNumbers(v + "." + a) == StripZeros(Numbers(Split(v, '.')) + [m])
    ensures NoneNegative(Numbers(Split(v, '.')) + [m])
  {
    hide *;
    NumericParts(v);
    NumbersAreNatural(Split(v, '.'));
    ParsedIsNatural(a);
    NoneNegativeAppend(Numbers(Split(v, '.')), m);
    DigitsFree(a);
    NumbersOfDotted(v, a, m);
    DottedIsNumeric(v, ".", a);
    StrippedNumbers(v + "." + a);
  }

  lemma StrippedNumbers(v: string)
    ensures VersionNumbers(v) == StripZeros(Numbers(Split(v, '.')))
  {
  }

  lemma NoneNegativeAppend(ns: seq<int>, m: int)
    requires NoneNegative(ns) && m >= 0
    ensures NoneNegative(ns + [m])
  {
  }

  lemma DigitsFree(a: string)
    requires AllDigits(a)
    ensures Free(a, '.')
  {
    forall i | 0 <= i < |a| ensures a[i] != '.' {
      assert IsDigit(a[i]);
    }
  }

  lemma DottedIsNumeric(v: string, dot: string, a: string)
    requires IsNumeric(v) && dot == "." && AllDigits(a)
    ensures IsNumeric(v + dot + a)
  {
    forall i | 0 <= i < |v + dot + a| ensures IsDigitOrDot((v + dot + a)[i]) {
      assert i > |v| ==> IsDigit(a[i - |v| - 1]);
    }
  }

  lemma ParsedIsNatural(a: string)
    requires AllDigits(a) && ParseInt(a).Some?
    ensures a != "" && ParseInt(a) == Some(Decimal(a)) && ParseInt(a).value >= 0
  {
    assert a != "" ==> IsDigit(a[0]);
    hide Decimal;
  }

  /** As text, "9" sorts above "10". */
  lemma TextOrderDisagrees(v: string)
    requires IsNumeric(v)
    ensures CompareVersions(v + "." + "10", v + "." + "9") == 1
    ensures Compare(v + "." + "10", v + "." + "9") == -1
  {
    ParseDigit("9");
    ParseTen();
    LastPartIsNumeric(v, "10", "9", 10, 9);
    TextSkip(v + ".", "10", "9");
  }

  lemma TextSkip(prefix: string, a: string, b: string)
    ensures Compare(prefix + a, prefix + b) == Compare(a, b)
  {
    LexSkip(prefix + a, prefix + b, |prefix|, CharCmp, -1);
    assert (prefix + a)[|prefix|..] == a && (prefix + b)[|prefix|..] == b;
  }

  lemma ParseTen()
    ensures ParseInt("10") == Some(10)
  {
    assert "10"[..1] == "1" && "1"[..0] == "";
    assert AllDigits("10");
    assert Decimal("1") == 1;
    assert Decimal("10") == 10;
  }

  /** Bare versions compare by their numbers. */
  lemma NumericVersions(a: string, b: string)
    requires IsNumeric(a) && IsNumeric(b)
    ensures CompareVersions(a, b) == CompareNumbers(VersionNumbers(a), VersionNumbers(b))
  {
    hide VersionNumbers;
    hide Meaning;
    NumericIsFlat(a);
    NumericIsFlat(b);
  }

  // ----- the comparator of the source -----

  method CompareStringSlices(a: seq<string>, b: seq<string>, preferEmpty: bool) returns (c: int)
    ensures c == Lex(a, b, Compare, if preferEmpty then 1 else -1)
  {
    CompareIsOrder();
    var n := if |a| < |b| then |a| else |b|;
    for i := 0 to n
      invariant forall k | 0 <= k < i :: Compare(a[k], b[k]) == 0
    {
      var d := Compare(a[i], b[i]);
      if d != 0 {
        LexSkip(a, b, i, Compare, if preferEmpty then 1 else -1);
        return d;
      }
    }
    LexSkip(a, b, n, Compare, if preferEmpty then 1 else -1);
    if |a| == |b| {
      return 0;
    }
    if preferEmpty {
      return if |a| < |b| then 1 else -1;
    }
    return if |a| > |b| then 1 else -1;
  }

  method CompareIntSlices(a: seq<int>, b: seq<int>, preferEmpty: bool) returns (c: int)
    ensures c == Lex(a, b, IntCmp, if preferEmpty then 1 else -1)
  {
    var n := if |a| < |b| then |a| else |b|;
    for i := 0 to n
      invariant forall k | 0 <= k < i :: a[k] == b[k]
    {
      if a[i] > b[i] {
        LexSkip(a, b, i, IntCmp, if preferEmpty then 1 else -1);
        return 1;
      } else if a[i] < b[i] {
        LexSkip(a, b, i, IntCmp, if preferEmpty then 1 else -1);
        return -1;
      }
    }
    LexSkip(a, b, n, IntCmp, if preferEmpty then 1 else -1);
    if |a| == |b| {
      return 0;
    }
    if preferEmpty {
      return if |a| < |b| then 1 else -1;
    }
    return if |a| > |b| then 1 else -1;
  }

  lemma {:induction false} SuffixesSkip(a: seq<SuffixPart>, b: seq<SuffixPart>, n: nat)
    requires n <= |a| && n <= |b|
    requires forall i | 0 <= i < n :: ComparePart(a[i], b[i]) == 0
    ensures CompareSuffixes(a, b) == CompareSuffixes(a[n..], b[n..])
  {
    if n == 0 {
      assert a[0..] == a && b[0..] == b;
    } else {
      SuffixesSkip(a[1..], b[1..], n - 1);
      assert a[1..][n - 1..] == a[n..] && b[1..][n - 1..] == b[n..];
    }
  }

  method CompareSuffixParts(a: seq<SuffixPart>, b: seq<SuffixPart>) returns (c: int)
    ensures c == CompareSuffixes(a, b)
    decreases a, 0
  {
    if |a| == 0 && |b| == 0 {
      return 0;
    }
    if |a| == 0 {
      return 1;
    }
    if |b| == 0 {
      return -1;
    }
    var n := if |a| < |b| then |a| else |b|;
    for i := 0 to n
      invariant forall k | 0 <= k < i :: ComparePart(a[k], b[k]) == 0
    {
      var d := CompareSuffixPart(a[i], b[i]);
      if d != 0 {
        SuffixesSkip(a, b, i);
        return d;
      }
    }
    SuffixesSkip(a, b, n);
    if |a| < |b| {
      return 1;
    } else if |a| > |b| {
      return -1;
    }
    return 0;
  }

  method CompareSuffixPart(a: SuffixPart, b: SuffixPart) returns (c: int)
    ensures c == ComparePart(a, b)
    decreases a, 1
  {
    match (a, b) {
      case (Number(x), Number(y)) =>
        c := CompareIntSlices(x.versionParts, y.versionParts, false);
        if c == 0 {
          c := CompareSuffixParts(x.suffixParts, y.suffixParts);
        }
      case (Name(x), Name(y)) =>
        c := Compare(x, y);
      case _ =>
        c := if a.Number? then 1 else -1;
    }
  }

  method CompareBundleVersions(a: string, b: string) returns (c: int)
    ensures c == CompareVersions(a, b)
  {
    var ak := ParseBundleKey(a);
    var bk := ParseBundleKey(b);
    c := CompareStringSlices(ak.scope, bk.scope, true);
    if c != 0 {
      return;
    }
    c := CompareIntSlices(ak.versionParts, bk.versionParts, false);
    if c != 0 {
      return;
    }
    c := CompareSuffixParts(ak.suffixParts, bk.suffixParts);
  }
}
