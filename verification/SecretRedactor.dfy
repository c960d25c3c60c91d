/**
 The secret redactor of the diagnostics dump: every harvested value is replaced by a placeholder, one value
 after the other, longest first.

 A redaction is described by what the input and the output have in common: the gaps. Between two gaps the
 input has a secret and the output has the placeholder.
 */
module SecretRedactor {
  import opened Text
  import opened Ordering

  const PLACEHOLDER: string := "***REDACTED***"
  const MIN_SECRET_LENGTH: int := 6

  predicate NoneEmpty(values: seq<string>) {
    forall i | 0 <= i < |values| :: values[i] != ""
  }

  /** `strings.ReplaceAll` once per value, in order. */
  function Redacted(s: string, values: seq<string>): string
    requires NoneEmpty(values)
    decreases |values|
  {
    if values == [] then s
    else ReplaceAll(Redacted(s, values[..|values| - 1]), values[|values| - 1], PLACEHOLDER)
  }

  // ----- gaps and secrets -----

  datatype Redaction = End(gap: string) | Hide(gap: string, secret: string, rest: Redaction) {
    function Input(): string {
      match this
      case End(g) => g
      case Hide(g, secret, rest) => g + secret + rest.Input()
    }

    function Output(): string {
      match this
      case End(g) => g
      case Hide(g, _, rest) => g + PLACEHOLDER + rest.Output()
    }

    function Secrets(): set<string> {
      match this
      case End(_) => {}
      case Hide(_, secret, rest) => {secret} + rest.Secrets()
    }

    /** No gap holds `v`. */
    predicate GapsFree(v: string) {
      Index(gap, v) == -1 && (Hide? ==> rest.GapsFree(v))
    }

    /** Some secret of at least `n` bytes overlaps the input bytes [a, b). */
    predicate Hits(a: int, b: int, n: int) {
      match this
      case End(_) => false
      case Hide(g, secret, rest) =>
        var from, to := |g|, |g| + |secret|;
        (|secret| >= n && from < b && a < to) || rest.Hits(a - to, b - to, n)
    }

    /** The secrets found so far are at least `n` bytes long. */
    predicate AllAtLeast(n: int) {
      Hide? ==> |secret| >= n && rest.AllAtLeast(n)
    }

    /** This redaction, then one more secret, then another. */
    function Then(secret: string, more: Redaction): Redaction {
      match this
      case End(g) => Hide(g, secret, more)
      case Hide(g, s, rest) => Hide(g, s, rest.Then(secret, more))
    }

    /** Hides `v` in every gap. */
    function Mask(v: string): Redaction
      requires v != ""
    {
      match this
      case End(g) => CutGap(g, v)
      case Hide(g, s, rest) => CutGap(g, v).Then(s, rest.Mask(v))
    }
  }

  function CutGap(g: string, v: string): Redaction
    requires v != ""
    decreases |g|
  {
    var i := Index(g, v);
    if i < 0 then End(g) else Hide(g[..i], v, CutGap(g[i + |v|..], v))
  }

  /** What the redactor does, in terms of gaps and secrets. */
  function Explain(s: string, values: seq<string>): Redaction
    requires NoneEmpty(values)
    decreases |values|
  {
    if values == [] then End(s)
    else Explain(s, values[..|values| - 1]).Mask(values[|values| - 1])
  }

  // ----- values and the placeholder -----

  /** `v`, laid over the placeholder at offset `k`, agrees with it wherever the two overlap. */
  predicate Overlaps(v: string, k: int) {
    && -|v| < k < |PLACEHOLDER|
    && forall j | 0 <= j < |v| && 0 <= k + j < |PLACEHOLDER| :: v[j] == PLACEHOLDER[k + j]
  }

  /** A value could be formed with the help of a placeholder. */
  ghost predicate Clashes(v: string) {
    exists k :: Overlaps(v, k)
  }

  ghost predicate NoneClash(values: seq<string>) {
    forall i | 0 <= i < |values| :: !Clashes(values[i])
  }

  /** Around a placeholder, a value that does not clash occurs before it or after it. */
  lemma OccursBeside(g: string, t: string, v: string, i: int)
    requires OccursAt(g + PLACEHOLDER + t, v, i) && !Clashes(v) && v != ""
    ensures (i + |v| <= |g| && OccursAt(g, v, i))
         || (i >= |g| + |PLACEHOLDER| && OccursAt(t, v, i - |g| - |PLACEHOLDER|))
  {
    var text, k := g + PLACEHOLDER + t, i - |g|;
    if i + |v| <= |g| {
      assert g[i..i + |v|] == text[i..i + |v|];
    } else if k >= |PLACEHOLDER| {
      assert t[k - |PLACEHOLDER|..k - |PLACEHOLDER| + |v|] == text[i..i + |v|];
    } else {
      forall j | 0 <= j < |v| && 0 <= k + j < |PLACEHOLDER| ensures v[j] == PLACEHOLDER[k + j] {
        assert text[i..i + |v|][j] == text[i + j];
      }
      assert Overlaps(v, k);
    }
  }

  lemma OccursInside(before: string, s: string, after: string, v: string, i: int)
    requires OccursAt(s, v, i)
    ensures OccursAt(before + s + after, v, |before| + i)
  {
    assert (before + s + after)[|before| + i..|before| + i + |v|] == s[i..i + |v|];
  }

  /** Replacing a value that does not clash works on both sides of a placeholder separately. */
  lemma {:induction false} ReplaceBeside(g: string, t: string, v: string)
    requires v != "" && !Clashes(v)
    ensures ReplaceAll(g + PLACEHOLDER + t, v, PLACEHOLDER) ==
            ReplaceAll(g, v, PLACEHOLDER) + PLACEHOLDER + ReplaceAll(t, v, PLACEHOLDER)
    decreases |g|
  {
    hide *;
    var i, k := Index(g, v), Index(t, v);
    IndexBeside(g, t, v);
    if i >= 0 {
      ReplaceBeside(g[i + |v|..], t, v);
      BesideLeft(g, PLACEHOLDER, t, v);
    } else if k >= 0 {
      FoundBetween(t, v);
      BesideRight(g, PLACEHOLDER, t[..k], t[k + |v|..], v);
    } else {
      ReplaceAllStep(g + PLACEHOLDER + t, v, PLACEHOLDER);
      ReplaceAllStep(g, v, PLACEHOLDER);
      ReplaceAllStep(t, v, PLACEHOLDER);
    }
  }

  /** The first occurrence is before the middle. */
  lemma BesideLeft(g: string, mid: string, t: string, v: string)
    requires v != "" && 0 <= Index(g, v) <= |g| - |v| && Index(g + mid + t, v) == Index(g, v)
    requires var more := g[Index(g, v) + |v|..];
             ReplaceAll(more + mid + t, v, mid) == ReplaceAll(more, v, mid) + mid + ReplaceAll(t, v, mid)
    ensures ReplaceAll(g + mid + t, v, mid) == ReplaceAll(g, v, mid) + mid + ReplaceAll(t, v, mid)
  {
    hide *;
    var text, i := g + mid + t, Index(g, v);
    var more := g[i + |v|..];
    ReplaceAllStep(text, v, mid);
    ReplaceAllStep(g, v, mid);
    assert text[..i] == g[..i] && text[i + |v|..] == more + mid + t;
    Regroup(g[..i] + mid, ReplaceAll(more, v, mid), mid, ReplaceAll(t, v, mid));
  }

  /** The first occurrence is after the middle, between `left` and `rest`. */
  lemma BesideRight(g: string, mid: string, left: string, rest: string, v: string)
    requires v != "" && Index(g, v) < 0 && Index(left + v + rest, v) == |left|
    requires Index(g + mid + (left + v + rest), v) == |g + mid + left|
    ensures ReplaceAll(g + mid + (left + v + rest), v, mid) ==
            ReplaceAll(g, v, mid) + mid + ReplaceAll(left + v + rest, v, mid)
  {
    hide *;
    ReplaceAllStep(g, v, mid);
    Regroup(g + mid, left, v, rest);
    ReplaceFirst(left, rest, v, mid);
    ReplaceFirst(g + mid + left, rest, v, mid);
    Regroup(g + mid, left, mid, ReplaceAll(rest, v, mid));
  }

  lemma FoundBetween(t: string, v: string)
    requires Index(t, v) >= 0
    ensures Index(t, v) + |v| <= |t| && t == t[..Index(t, v)] + v + t[Index(t, v) + |v|..]
  {
    assert OccursAt(t, v, Index(t, v));
  }

  lemma ReplaceFirst(before: string, after: string, v: string, mid: string)
    requires v != "" && Index(before + v + after, v) == |before|
    ensures ReplaceAll(before + v + after, v, mid) == before + mid + ReplaceAll(after, v, mid)
  {
    hide *;
    var s := before + v + after;
    ReplaceAllStep(s, v, mid);
    assert s[..|before|] == before && s[|before| + |v|..] == after;
  }

  lemma OccursOutside(g: string, mid: string, t: string, v: string, i: int)
    ensures OccursAt(g, v, i) || OccursAt(t, v, i - |g| - |mid|) ==> OccursAt(g + mid + t, v, i)
  {
    var text := g + mid + t;
    if OccursAt(g, v, i) {
      assert text[i..i + |v|] == g[i..i + |v|];
    } else if OccursAt(t, v, i - |g| - |mid|) {
      assert text[i..i + |v|] == t[i - |g| - |mid|..i - |g| - |mid| + |v|];
    }
  }

  lemma OccursIff(g: string, t: string, v: string, i: int)
    requires v != "" && !Clashes(v)
    ensures OccursAt(g + PLACEHOLDER + t, v, i) <==> OccursAt(g, v, i) || OccursAt(t, v, i - |g| - |PLACEHOLDER|)
  {
    OccursOutside(g, PLACEHOLDER, t, v, i);
    hide *;
    if OccursAt(g + PLACEHOLDER + t, v, i) {
      OccursBeside(g, t, v, i);
    }
  }

  lemma IndexBeside(g: string, t: string, v: string)
    requires v != "" && !Clashes(v)
    ensures var i, k, r := Index(g, v), Index(t, v), Index(g + PLACEHOLDER + t, v);
            r == if i >= 0 then i else if k >= 0 then |g| + |PLACEHOLDER| + k else -1
    ensures Index(g, v) >= 0 ==> Index(g, v) + |v| <= |g|
    ensures Index(t, v) >= 0 ==> Index(t, v) + |v| <= |t|
  {
    hide *;
    IndexInside(g, v);
    IndexInside(t, v);
    OccursIff(g, t, v, Index(g + PLACEHOLDER + t, v));
    OccursIff(g, t, v, Index(g, v));
    OccursIff(g, t, v, |g| + |PLACEHOLDER| + Index(t, v));
  }

  lemma IndexInside(s: string, v: string)
    ensures Index(s, v) >= 0 ==> Index(s, v) + |v| <= |s|
  {
  }

  // ----- one value -----

  lemma {:induction false} ThenTexts(r: Redaction, secret: string, more: Redaction)
    ensures r.Then(secret, more).Input() == r.Input() + secret + more.Input()
    ensures r.Then(secret, more).Output() == r.Output() + PLACEHOLDER + more.Output()
  {
    if r.Hide? {
      ThenTexts(r.rest, secret, more);
      Regroup(r.gap + r.secret, r.rest.Input(), secret, more.Input());
      Regroup(r.gap + PLACEHOLDER, r.rest.Output(), PLACEHOLDER, more.Output());
    }
  }

  lemma {:induction false} ThenIs(r: Redaction, secret: string, more: Redaction)
    ensures var all := r.Then(secret, more);
            && all.Input() == r.Input() + secret + more.Input()
            && all.Output() == r.Output() + PLACEHOLDER + more.Output()
            && all.Secrets() == r.Secrets() + {secret} + more.Secrets()
            && (forall v :: all.GapsFree(v) <==> r.GapsFree(v) && more.GapsFree(v))
            && (forall n :: all.AllAtLeast(n) <==> r.AllAtLeast(n) && |secret| >= n && more.AllAtLeast(n))
  {
    hide Index;
    hide Redaction.Input;
    hide Redaction.Output;
    ThenTexts(r, secret, more);
    if r.Hide? {
      ThenIs(r.rest, secret, more);
    }
  }

  lemma {:induction false} ThenHits(r: Redaction, secret: string, more: Redaction, a: int, b: int, n: int)
    ensures var from := |r.Input()|; var to := from + |secret|;
            r.Then(secret, more).Hits(a, b, n) <==>
            r.Hits(a, b, n) || (|secret| >= n && from < b && a < to) || more.Hits(a - to, b - to, n)
  {
    if r.Hide? {
      var to := |r.gap| + |r.secret|;
      ThenHits(r.rest, secret, more, a - to, b - to, n);
    }
  }

  lemma {:induction false} CutGapIs(g: string, v: string)
    requires v != ""
    ensures var cut := CutGap(g, v);
            && cut.Input() == g && cut.Output() == ReplaceAll(g, v, PLACEHOLDER)
            && cut.Secrets() <= {v} && cut.GapsFree(v) && cut.AllAtLeast(|v|)
    decreases |g|
  {
    hide ReplaceAll;
    hide Index;
    ReplaceAllStep(g, v, PLACEHOLDER);
    var i := Index(g, v);
    if i >= 0 {
      CutGapIs(g[i + |v|..], v);
      assert g == g[..i] + v + g[i + |v|..];
      NotBefore(g, v);
    }
  }

  /** Before its first occurrence a value does not occur. */
  lemma NotBefore(g: string, v: string)
    requires v != "" && Index(g, v) >= 0
    ensures Index(g[..Index(g, v)], v) == -1
  {
    var i := Index(g, v);
    assert forall j | OccursAt(g, v, j) :: i <= j;
    var before := g[..i];
    hide Index;
    forall j ensures !OccursAt(before, v, j) {
      if 0 <= j && j + |v| <= i {
        assert before[j..j + |v|] == g[j..j + |v|];
        assert !OccursAt(g, v, j);
      }
    }
  }

  /** A slice of a text holds nothing that the text does not. */
  lemma SliceFree(s: string, i: nat, j: nat, w: string)
    requires i <= j <= |s| && Index(s, w) == -1
    ensures Index(s[i..j], w) == -1
  {
    forall k | OccursAt(s[i..j], w, k) ensures OccursAt(s, w, i + k) {
      SliceOccurs(s, i, j, w, k);
    }
  }

  lemma SliceOccurs(s: string, i: nat, j: nat, w: string, k: int)
    requires i <= j <= |s| && OccursAt(s[i..j], w, k)
    ensures OccursAt(s, w, i + k)
  {
    var ofText, ofSlice := s[i + k..i + k + |w|], s[i..j][k..k + |w|];
    assert forall x | 0 <= x < |w| :: ofText[x] == ofSlice[x];
  }

  lemma {:induction false} CutGapKeepsFree(g: string, v: string, w: string)
    requires v != "" && Index(g, w) == -1
    ensures CutGap(g, v).GapsFree(w)
    decreases |g|
  {
    hide Index;
    var i := Index(g, v);
    if i >= 0 {
      SliceFree(g, 0, i, w);
      SliceFree(g, i + |v|, |g|, w);
      assert g[0..i] == g[..i] && g[i + |v|..|g|] == g[i + |v|..];
      CutGapKeepsFree(g[i + |v|..], v, w);
    }
  }

  /** Masking hides the value in all gaps, and keeps the input, the secrets found and the freedom of the gaps. */
  lemma {:induction false} MaskIs(r: Redaction, v: string)
    requires v != ""
    ensures r.Mask(v).Input() == r.Input() && r.Mask(v).GapsFree(v)
    ensures r.Mask(v).Secrets() <= r.Secrets() + {v}
    ensures r.AllAtLeast(|v|) ==> r.Mask(v).AllAtLeast(|v|)
  {
    CutGapIs(r.gap, v);
    if r.Hide? {
      MaskIs(r.rest, v);
      ThenIs(CutGap(r.gap, v), r.secret, r.rest.Mask(v));
    }
  }

  lemma {:induction false} MaskOutput(r: Redaction, v: string)
    requires v != "" && !Clashes(v)
    ensures r.Mask(v).Output() == ReplaceAll(r.Output(), v, PLACEHOLDER)
  {
    hide Clashes;
    CutGapIs(r.gap, v);
    if r.Hide? {
      MaskOutput(r.rest, v);
      ThenIs(CutGap(r.gap, v), r.secret, r.rest.Mask(v));
      ReplaceBeside(r.gap, r.rest.Output(), v);
    }
  }

  lemma {:induction false} MaskKeepsFree(r: Redaction, v: string, w: string)
    requires v != "" && r.GapsFree(w)
    ensures r.Mask(v).GapsFree(w)
  {
    CutGapKeepsFree(r.gap, v, w);
    if r.Hide? {
      MaskKeepsFree(r.rest, v, w);
      ThenIs(CutGap(r.gap, v), r.secret, r.rest.Mask(v));
    }
  }

  // ----- all values -----

  /** Input and output share the gaps, and between gaps a harvested value became one placeholder. */
  lemma {:induction false} RedactionIsConservative(s: string, values: seq<string>)
    requires NoneEmpty(values) && NoneClash(values)
    ensures Explain(s, values).Input() == s
    ensures Explain(s, values).Output() == Redacted(s, values)
    ensures forall secret | secret in Explain(s, values).Secrets() :: secret in values
    ensures forall v | v in values :: Explain(s, values).GapsFree(v)
    decreases |values|
  {
    forall v | v in values ensures Explain(s, values).GapsFree(v) {
      GapsAreFree(s, values, v);
    }
    hide Clashes;
    hide Redaction.GapsFree;
    if values != [] {
      var before, v := values[..|values| - 1], values[|values| - 1];
      assert values == before + [v];
      RedactionIsConservative(s, before);
      MaskIs(Explain(s, before), v);
      MaskOutput(Explain(s, before), v);
    }
  }

  lemma {:induction false} GapsAreFree(s: string, values: seq<string>, w: string)
    requires NoneEmpty(values) && w in values
    ensures Explain(s, values).GapsFree(w)
    decreases |values|
  {
    var before, v := values[..|values| - 1], values[|values| - 1];
    assert values == before + [v];
    if w == v {
      MaskIs(Explain(s, before), v);
    } else {
      GapsAreFree(s, before, w);
      MaskKeepsFree(Explain(s, before), v, w);
    }
  }

  // ----- nothing is left -----

  /** Replacing a value, clashing or not, never forms a value that does not clash. */
  lemma {:induction false} ReplaceKeepsFree(s: string, v: string, w: string)
    requires v != "" && w != "" && !Clashes(w) && Index(s, w) == -1
    ensures Index(ReplaceAll(s, v, PLACEHOLDER), w) == -1
    decreases |s|
  {
    hide *;
    ReplaceAllStep(s, v, PLACEHOLDER);
    IndexInside(s, v);
    var i := Index(s, v);
    if i >= 0 {
      var rest := s[i + |v|..];
      SliceFree(s, 0, i, w);
      SliceFree(s, i + |v|, |s|, w);
      assert s[0..i] == s[..i] && s[i + |v|..|s|] == rest;
      ReplaceKeepsFree(rest, v, w);
      IndexBeside(s[..i], ReplaceAll(rest, v, PLACEHOLDER), w);
    }
  }

  /** A value that does not clash is gone after its own replacement. */
  lemma {:induction false} ReplaceRemoves(s: string, v: string)
    requires v != "" && !Clashes(v)
    ensures Index(ReplaceAll(s, v, PLACEHOLDER), v) == -1
    decreases |s|
  {
    hide *;
    ReplaceAllStep(s, v, PLACEHOLDER);
    IndexInside(s, v);
    var i := Index(s, v);
    if i >= 0 {
      NotBefore(s, v);
      ReplaceRemoves(s[i + |v|..], v);
      IndexBeside(s[..i], ReplaceAll(s[i + |v|..], v, PLACEHOLDER), v);
    }
  }

  /**
   A harvested value that does not clash is left in no output, whatever the order of the values and whichever
   of the others clash.
   */
  lemma {:induction false} RedactionIsComplete(s: string, values: seq<string>, v: string)
    requires NoneEmpty(values) && v in values && !Clashes(v)
    ensures !Contains(Redacted(s, values), v)
    decreases |values|
  {
    var before, last := values[..|values| - 1], values[|values| - 1];
    assert values == before + [last];
    hide Clashes;
    hide Contains;
    if v == last {
      ReplaceRemoves(Redacted(s, before), v);
    } else {
      RedactionIsComplete(s, before, v);
      ReplaceKeepsFree(Redacted(s, before), last, v);
    }
  }

  /** Nor is any text that contains such a value, a longer harvested value for one. */
  lemma NothingAroundIsLeft(s: string, values: seq<string>, v: string, w: string)
    requires NoneEmpty(values) && w in values && !Clashes(w) && Contains(v, w)
    ensures !Contains(Redacted(s, values), v)
  {
    RedactionIsComplete(s, values, w);
    hide *;
    var out := Redacted(s, values);
    if Contains(out, v) {
      ContainsTransitive(out, v, w);
    }
  }

  lemma ContainsTransitive(s: string, v: string, w: string)
    requires Contains(s, v) && Contains(v, w)
    ensures Contains(s, w)
  {
    var i :| 0 <= i <= |s| && OccursAt(s, v, i);
    var k :| 0 <= k <= |v| && OccursAt(v, w, k);
    SliceOccurs(s, i, i + |v|, w, k);
    assert OccursAt(s, w, i + k);
  }

  // ----- when a value clashes -----

  /** A value that clashes survives its own redaction in some input. */
  lemma ClashSurvives(v: string) returns (s: string)
    requires v != "" && Clashes(v)
    ensures Contains(ReplaceAll(s, v, PLACEHOLDER), v)
  {
    var k :| Overlaps(v, k);
    var m := if k + |v| > |PLACEHOLDER| then |PLACEHOLDER| - k else |v|;
    if k < 0 && v[0] != '*' {
      // the value runs into the placeholder from the left
      s := RunsInto(v, k);
    } else if k < 0 {
      // it also starts with the placeholder's last byte
      assert Overlaps(v, |PLACEHOLDER| - 1);
      s := RunsOut(v, |PLACEHOLDER| - 1);
    } else {
      s := RunsOut(v, k);
    }
  }

  /** The value followed by what sticks out of the placeholder on the right. */
  lemma RunsOut(v: string, k: int) returns (s: string)
    requires v != "" && Overlaps(v, k) && k >= 0
    ensures Contains(ReplaceAll(s, v, PLACEHOLDER), v)
  {
    var tail := v[if k + |v| > |PLACEHOLDER| then |PLACEHOLDER| - k else |v|..];
    s := v + tail;
    StandsFirst(v, tail);
    StandsOver(v, k, tail);
    hide *;
    AtStart(v, tail);
  }

  lemma AtStart(v: string, tail: string)
    requires v != "" && Index(v + tail, v) == 0 && |tail| < |v|
    ensures ReplaceAll(v + tail, v, PLACEHOLDER) == PLACEHOLDER + tail
  {
    hide *;
    var none: string := [];
    WithNothing(none, v, tail);
    WithNothing(none, PLACEHOLDER, tail);
    AtHead(none, v, tail);
  }

  lemma WithNothing(none: string, x: string, tail: string)
    requires none == ""
    ensures none + x + tail == x + tail
  {
    assert none + x == x;
  }

  lemma StandsFirst(v: string, tail: string)
    ensures Index(v + tail, v) == 0
  {
    assert OccursAt(v + tail, v, 0);
  }

  lemma StandsOver(v: string, k: int, tail: string)
    requires v != "" && Overlaps(v, k) && k >= 0
    requires tail == v[if k + |v| > |PLACEHOLDER| then |PLACEHOLDER| - k else |v|..]
    ensures Contains(PLACEHOLDER + tail, v) && |tail| < |v|
  {
    var out := PLACEHOLDER + tail;
    assert out[k..k + |v|] == v;
    assert OccursAt(out, v, k);
  }

  lemma ShortIsKept(s: string, v: string)
    requires |s| < |v|
    ensures ReplaceAll(s, v, PLACEHOLDER) == s
  {
    ReplaceAllStep(s, v, PLACEHOLDER);
  }

  /** What sticks out on the left, the value, and what sticks out on the right. */
  lemma RunsInto(v: string, k: int) returns (s: string)
    requires v != "" && Overlaps(v, k) && k < 0 && v[0] != '*'
    ensures Contains(ReplaceAll(s, v, PLACEHOLDER), v)
  {
    var n := -k;
    assert n < |v| && v[n] == PLACEHOLDER[0] == '*';
    var m := if n + |PLACEHOLDER| < |v| then n + |PLACEHOLDER| else |v|;
    var head, tail := v[..n], v[m..];
    s := head + v + tail;
    FirstInside(head, v, tail);
    FitsTogether(v, k, head, tail);
    hide *;
    AtHead(head, v, tail);
  }

  lemma AtHead(head: string, v: string, tail: string)
    requires v != "" && Index(head + v + tail, v) == |head| && |tail| < |v|
    ensures ReplaceAll(head + v + tail, v, PLACEHOLDER) == head + PLACEHOLDER + tail
  {
    hide *;
    ReplaceFirst(head, tail, v, PLACEHOLDER);
    ShortIsKept(tail, v);
  }

  lemma FirstInside(head: string, v: string, tail: string)
    requires head < v && v[|head|] == '*'
    ensures Index(head + v + tail, v) == |head| || v[0] == '*'
  {
    OccursInItself(v);
    OccursInside(head, v, tail, v, 0);
    assert head == v[..|head|];
    hide *;
    var p := Index(head + v + tail, v);
    if p < |head| {
      NoEarlier(v, |head|, tail, p);
    }
  }

  lemma OccursInItself(v: string)
    ensures OccursAt(v, v, 0)
  {
  }

  lemma FitsTogether(v: string, k: int, head: string, tail: string)
    requires v != "" && Overlaps(v, k) && k < 0 && head == v[..-k]
    requires tail == v[if -k + |PLACEHOLDER| < |v| then -k + |PLACEHOLDER| else |v|..]
    ensures Contains(head + PLACEHOLDER + tail, v)
  {
    var out := head + PLACEHOLDER + tail;
    assert forall j | 0 <= j < |v| :: out[j] == v[j];
    assert out[0..|v|] == v;
    assert OccursAt(out, v, 0);
  }

  /** An earlier occurrence would make the value start with the placeholder's first byte. */
  lemma NoEarlier(v: string, n: nat, tail: string, p: nat)
    requires p < n < |v| && v[n] == '*'
    requires OccursAt(v[..n] + v + tail, v, p)
    ensures v[0] == '*'
  {
    var s := v[..n] + v + tail;
    var at := s[p..p + |v|];
    assert at[0] == s[p] == v[p];
    assert at[n - p] == s[n] == v[0];
    assert at[n] == s[n + p] == v[p];
  }

  lemma SingleRedacted(s: string, v: string)
    requires v != ""
    ensures Redacted(s, [v]) == ReplaceAll(s, v, PLACEHOLDER)
  {
    assert [v][..0] == [];
    assert Redacted(s, []) == s;
  }

  /** A value is removed from every input, in every list that it is harvested in, exactly when it does not clash. */
  lemma CompleteIffNoClash(v: string)
    requires v != ""
    ensures (forall s, values | NoneEmpty(values) && v in values :: !Contains(Redacted(s, values), v)) <==> !Clashes(v)
    ensures (forall s :: !Contains(Redacted(s, [v]), v)) <==> !Clashes(v)
  {
    hide Clashes;
    hide Contains;
    if Clashes(v) {
      var s := ClashSurvives(v);
      SingleRedacted(s, v);
      assert NoneEmpty([v]) && v in [v] && Contains(Redacted(s, [v]), v);
    } else {
      forall s, values | NoneEmpty(values) && v in values ensures !Contains(Redacted(s, values), v) {
        RedactionIsComplete(s, values, v);
      }
      forall s ensures !Contains(Redacted(s, [v]), v) {
        RedactionIsComplete(s, [v], v);
      }
    }
  }

  lemma PlaceholderIs()
    ensures |PLACEHOLDER| == 14 && PLACEHOLDER[3..11] == "REDACTED"
    ensures forall i | 0 <= i < 3 || 11 <= i < 14 :: PLACEHOLDER[i] == '*'
  {
    var word := PLACEHOLDER[3..11];
    assert word[0] == 'R' && word[1] == 'E' && word[2] == 'D' && word[3] == 'A';
    assert word[4] == 'C' && word[5] == 'T' && word[6] == 'E' && word[7] == 'D';
  }

  /** A value without '*' clashes only as a part of the word inside the placeholder. */
  lemma OrdinaryValuesDoNotClash(v: string)
    requires v != "" && Free(v, '*') && !Contains("REDACTED", v)
    ensures !Clashes(v)
  {
    hide Contains;
    if Clashes(v) {
      var k :| Overlaps(v, k);
      PlaceholderIs();
      OverlapIsInWord(v, k, PLACEHOLDER);
    }
  }

  lemma OverlapIsInWord(v: string, k: int, p: string)
    requires v != "" && Free(v, '*') && |p| == 14 && -|v| < k < |p|
    requires forall i | 0 <= i < 3 || 11 <= i < 14 :: p[i] == '*'
    requires forall j | 0 <= j < |v| && 0 <= k + j < |p| :: v[j] == p[k + j]
    ensures Contains(p[3..11], v)
  {
    var j := if k < 0 then -k else if k < 3 || k >= 11 then 0 else if k + |v| > 11 then 11 - k else 0;
    assert v[j] == p[k + j];
    assert 3 <= k && k + |v| <= 11;
    assert p[3..11][k - 3..k - 3 + |v|] == v;
    assert OccursAt(p[3..11], v, k - 3);
  }

  // ----- longest first -----

  function ByLength(a: string, b: string): int {
    IntCmp(|b|, |a|)
  }

  lemma ByLengthIsOrder()
    ensures IsOrder(ByLength)
  {
  }

  /** How the hits of a masked redaction are made up. */
  lemma MaskHitsAre(r: Redaction, v: string, a: int, b: int, n: int)
    requires v != ""
    ensures var to := |r.gap| + if r.Hide? then |r.secret| else 0;
            r.Mask(v).Hits(a, b, n) <==>
            || CutGap(r.gap, v).Hits(a, b, n)
            || (r.Hide? && ((|r.secret| >= n && |r.gap| < b && a < to) || r.rest.Mask(v).Hits(a - to, b - to, n)))
  {
    hide CutGap;
    hide Index;
    CutGapIs(r.gap, v);
    if r.Hide? {
      ThenHits(CutGap(r.gap, v), r.secret, r.rest.Mask(v), a, b, n);
    }
  }

  lemma {:induction false} MaskKeepsHits(r: Redaction, v: string, a: int, b: int, n: int)
    requires v != "" && r.Hits(a, b, n)
    ensures r.Mask(v).Hits(a, b, n)
  {
    hide CutGap;
    hide Redaction.Mask;
    MaskHitsAre(r, v, a, b, n);
    var to := |r.gap| + |r.secret|;
    if r.rest.Hits(a - to, b - to, n) {
      MaskKeepsHits(r.rest, v, a - to, b - to, n);
    }
  }

  /** Within a gap, every occurrence of the value is hidden or overlaps one that is. */
  lemma {:induction false} CutGapHits(g: string, v: string, a: int)
    requires v != "" && OccursAt(g, v, a)
    ensures CutGap(g, v).Hits(a, a + |v|, |v|)
    decreases |g|
  {
    hide *;
    FoundBefore(g, v, a);
    var next := Index(g, v) + |v|;
    if a >= next {
      OccursAfter(g, v, a, next);
      CutGapHits(g[next..], v, a - next);
    }
    CutGapHitsStep(g, v, a);
  }

  lemma CutGapHitsStep(g: string, v: string, a: int)
    requires v != "" && 0 <= Index(g, v) <= |g| - |v| && Index(g, v) <= a
    requires var next := Index(g, v) + |v|; a >= next ==> CutGap(g[next..], v).Hits(a - next, a - next + |v|, |v|)
    ensures CutGap(g, v).Hits(a, a + |v|, |v|)
  {
    hide Index;
  }

  lemma FoundBefore(g: string, v: string, a: int)
    requires OccursAt(g, v, a)
    ensures 0 <= Index(g, v) <= a && a + |v| <= |g|
  {
  }

  lemma OccursAfter(g: string, v: string, a: int, n: nat)
    requires OccursAt(g, v, a) && n <= a
    ensures OccursAt(g[n..], v, a - n)
  {
    assert g[n..][a - n..a - n + |v|] == g[a..a + |v|];
  }

  lemma {:induction false} MaskHits(r: Redaction, v: string, a: int)
    requires v != "" && OccursAt(r.Input(), v, a) && r.AllAtLeast(|v|)
    ensures r.Mask(v).Hits(a, a + |v|, |v|)
  {
    hide CutGap;
    hide Redaction.Mask;
    hide Redaction.Hits;
    var b := a + |v|;
    MaskHitsAre(r, v, a, b, |v|);
    if r.End? {
      CutGapHits(r.gap, v, a);
    } else {
      var from, to := |r.gap|, |r.gap| + |r.secret|;
      var input := r.gap + r.secret + r.rest.Input();
      if b <= from {
        assert r.gap[a..b] == input[a..b];
        CutGapHits(r.gap, v, a);
      } else if a >= to {
        assert r.rest.Input()[a - to..b - to] == input[a..b];
        MaskHits(r.rest, v, a - to);
      }
    }
  }

  lemma {:induction false} OccurrencesAreHit(s: string, values: seq<string>, v: string, a: int)
    requires NoneEmpty(values) && Sorted(values, ByLength)
    requires v in values && OccursAt(s, v, a)
    ensures Explain(s, values).Hits(a, a + |v|, |v|)
    decreases |values|
  {
    hide Redaction.Hits;
    hide OccursAt;
    var before, last := values[..|values| - 1], values[|values| - 1];
    assert values == before + [last];
    SortedByLength(values);
    LongEnough(s, before, |last|);
    ExplainInput(s, before);
    if v in before {
      OccurrencesAreHit(s, before, v, a);
      MaskKeepsHits(Explain(s, before), last, a, a + |v|, |v|);
    } else {
      MaskHits(Explain(s, before), v, a);
    }
  }

  /**
   Longest first is what keeps a long value from being broken by a shorter one: wherever a harvested value
   stands in the input, a hidden value at least as long overlaps it. With no value that clashes, what is hidden
   so is what the output shows as placeholders; with any values, the bytes of that occurrence stand together
   nowhere in the output.
   */
  lemma LongestFirst(s: string, values: seq<string>, v: string, a: int)
    requires NoneEmpty(values) && Sorted(values, ByLength)
    requires v in values && OccursAt(s, v, a)
    ensures Explain(s, values).Input() == s && Explain(s, values).Hits(a, a + |v|, |v|)
    ensures NoneClash(values) ==> Explain(s, values).Output() == Redacted(s, values)
    ensures Chars(RedactTraced(Traced(s), values)) == Redacted(s, values)
    ensures !Stands(RedactTraced(Traced(s), values), Traced(s)[a..a + |v|])
  {
    OccurrencesAreBroken(s, values, v, a);
    hide *;
    OccurrencesAreHit(s, values, v, a);
    ExplainInput(s, values);
    if NoneClash(values) {
      RedactionIsConservative(s, values);
    }
  }

  lemma SortedByLength(values: seq<string>)
    requires values != [] && Sorted(values, ByLength)
    ensures Sorted(values[..|values| - 1], ByLength)
    ensures forall i | 0 <= i < |values| - 1 :: |values[i]| >= |values[|values| - 1]|
  {
    forall i | 0 <= i < |values| - 1 ensures |values[i]| >= |values[|values| - 1]| {
      assert ByLength(values[i], values[|values| - 1]) <= 0;
    }
  }

  lemma {:induction false} ExplainInput(s: string, values: seq<string>)
    requires NoneEmpty(values)
    ensures Explain(s, values).Input() == s
    decreases |values|
  {
    if values != [] {
      ExplainInput(s, values[..|values| - 1]);
      MaskIs(Explain(s, values[..|values| - 1]), values[|values| - 1]);
    }
  }

  lemma {:induction false} LongEnough(s: string, values: seq<string>, n: int)
    requires NoneEmpty(values) && (forall i | 0 <= i < |values| :: |values[i]| >= n)
    ensures Explain(s, values).AllAtLeast(n)
    decreases |values|
  {
    if values != [] {
      LongEnough(s, values[..|values| - 1], n);
      MaskAtLeast(Explain(s, values[..|values| - 1]), values[|values| - 1], n);
    }
  }

  lemma {:induction false} MaskAtLeast(r: Redaction, v: string, n: int)
    requires v != "" && |v| >= n && r.AllAtLeast(n)
    ensures r.Mask(v).AllAtLeast(n)
  {
    CutGapAtLeast(r.gap, v, n);
    if r.Hide? {
      MaskAtLeast(r.rest, v, n);
      ThenIs(CutGap(r.gap, v), r.secret, r.rest.Mask(v));
    }
  }

  lemma {:induction false} CutGapAtLeast(g: string, v: string, n: int)
    requires v != "" && |v| >= n
    ensures CutGap(g, v).AllAtLeast(n)
    decreases |g|
  {
    if Index(g, v) >= 0 {
      CutGapAtLeast(g[Index(g, v) + |v|..], v, n);
    }
  }

  // ----- where the bytes of the output come from -----

  /** A byte of the text, and its position in the input; the bytes of a placeholder come from nowhere. */
  datatype Byte = Byte(c: char, origin: Option<nat>)

  function Chars(t: seq<Byte>): string {
    seq(|t|, i requires 0 <= i < |t| => t[i].c)
  }

  function Traced(s: string): seq<Byte> {
    seq(|s|, i requires 0 <= i < |s| => Byte(s[i], Some(i)))
  }

  function FromNowhere(text: string): seq<Byte> {
    seq(|text|, i requires 0 <= i < |text| => Byte(text[i], None))
  }

  /** `ReplaceAll` on bytes that know where they come from. */
  function ReplaceTraced(t: seq<Byte>, v: string): seq<Byte>
    requires v != ""
    decreases |t|
  {
    var i := Index(Chars(t), v);
    if i < 0 then t else Beside(t[..i], ReplaceTraced(t[i + |v|..], v))
  }

  /** Two texts with a placeholder in between. */
  function Beside(a: seq<Byte>, c: seq<Byte>): seq<Byte> {
    a + FromNowhere(PLACEHOLDER) + c
  }

  function RedactTraced(t: seq<Byte>, values: seq<string>): seq<Byte>
    requires NoneEmpty(values)
    decreases |values|
  {
    if values == [] then t else ReplaceTraced(RedactTraced(t, values[..|values| - 1]), values[|values| - 1])
  }

  lemma CharsAre(t: seq<Byte>, i: nat, j: nat)
    requires i <= j <= |t|
    ensures Chars(t[i..j]) == Chars(t)[i..j]
  {
  }

  lemma CharsOfThree(a: seq<Byte>, b: seq<Byte>, c: seq<Byte>)
    ensures Chars(a + b + c) == Chars(a) + Chars(b) + Chars(c)
  {
  }

  lemma {:induction false} ReplaceTracedIs(t: seq<Byte>, v: string)
    requires v != ""
    ensures Chars(ReplaceTraced(t, v)) == ReplaceAll(Chars(t), v, PLACEHOLDER)
    decreases |t|
  {
    hide Index;
    hide ReplaceAll;
    hide Chars;
    var i := Index(Chars(t), v);
    ReplaceAllStep(Chars(t), v, PLACEHOLDER);
    if i >= 0 {
      FoundAt(t, v);
      var rest := t[i + |v|..];
      ReplaceTracedIs(rest, v);
      CharsOfThree(t[..i], FromNowhere(PLACEHOLDER), ReplaceTraced(rest, v));
      CharsOfNowhere(PLACEHOLDER);
      hide FromNowhere;
    }
  }

  /** Where the value is found, and what stands on both sides of it. */
  lemma FoundAt(t: seq<Byte>, v: string)
    requires v != "" && Index(Chars(t), v) >= 0
    ensures var i := Index(Chars(t), v);
            && i + |v| <= |t| && |Chars(t)| == |t|
            && Chars(t[..i]) == Chars(t)[..i]
            && Chars(t[i + |v|..]) == Chars(t)[i + |v|..]
  {
    var i := Index(Chars(t), v);
    IndexInside(Chars(t), v);
    hide Index;
    CharsAround(t, i);
    CharsAround(t, i + |v|);
  }

  lemma CharsAround(t: seq<Byte>, i: nat)
    ensures |Chars(t)| == |t|
    ensures i <= |t| ==> Chars(t[..i]) == Chars(t)[..i] && Chars(t[i..]) == Chars(t)[i..]
  {
  }

  lemma CharsOfNowhere(text: string)
    ensures Chars(FromNowhere(text)) == text
  {
  }

  /** The traced redaction shows what the redactor returns. */
  lemma {:induction false} RedactTracedIs(t: seq<Byte>, values: seq<string>)
    requires NoneEmpty(values)
    ensures Chars(RedactTraced(t, values)) == Redacted(Chars(t), values)
    decreases |values|
  {
    hide Chars;
    hide ReplaceTraced;
    if values != [] {
      RedactTracedIs(t, values[..|values| - 1]);
      ReplaceTracedIs(RedactTraced(t, values[..|values| - 1]), values[|values| - 1]);
    }
  }

  predicate StandsAt(t: seq<Byte>, x: seq<Byte>, p: nat) {
    p + |x| <= |t| && t[p..p + |x|] == x
  }

  ghost predicate Stands(t: seq<Byte>, x: seq<Byte>) {
    exists p: nat :: StandsAt(t, x, p)
  }

  predicate FromInput(x: seq<Byte>) {
    forall i | 0 <= i < |x| :: x[i].origin.Some?
  }

  predicate AllFromNowhere(b: seq<Byte>) {
    forall i | 0 <= i < |b| :: b[i].origin.None?
  }

  lemma StandsFrom(t: seq<Byte>, x: seq<Byte>, p: nat, k: nat)
    requires StandsAt(t, x, p) && FromInput(x)
    ensures p + |x| <= |t| && (k < |x| ==> t[p + k].origin.Some?)
  {
    assert k < |x| ==> t[p..p + |x|][k] == t[p + k];
  }

  lemma MiddleFromNowhere(a: seq<Byte>, b: seq<Byte>, c: seq<Byte>, j: nat)
    requires AllFromNowhere(b) && |a| <= j < |a| + |b|
    ensures (a + b + c)[j].origin.None?
  {
    assert (a + b + c)[j] == b[j - |a|];
  }

  /** Bytes of the input stand on one side of a placeholder. */
  lemma StandsBeside(a: seq<Byte>, b: seq<Byte>, c: seq<Byte>, x: seq<Byte>, p: nat)
    requires StandsAt(a + b + c, x, p) && FromInput(x) && x != [] && b != [] && AllFromNowhere(b)
    ensures p + |x| <= |a| || p >= |a| + |b|
  {
    hide *;
    StandsFrom(a + b + c, x, p, if p < |a| then |a| - p else 0);
    MiddleFromNowhere(a, b, c, if |a| < p < |a| + |b| then p else |a|);
  }

  /** They stand there as they stood before the placeholder was put in. */
  lemma StandsOnSide(a: seq<Byte>, b: seq<Byte>, c: seq<Byte>, x: seq<Byte>, p: nat)
    requires StandsAt(a + b + c, x, p) && (p + |x| <= |a| || p >= |a| + |b|)
    ensures if p + |x| <= |a| then StandsAt(a, x, p) else StandsAt(c, x, p - |a| - |b|)
  {
    var t := a + b + c;
    if p + |x| <= |a| {
      assert t[p..p + |x|] == a[p..p + |x|];
    } else {
      assert t[p..p + |x|] == c[p - |a| - |b|..p - |a| - |b| + |x|];
    }
  }

  /** Bytes of the input that still stand together stood together before, and are no occurrence of the value. */
  lemma {:induction false} StoodBefore(t: seq<Byte>, v: string, x: seq<Byte>, p: nat) returns (q: nat)
    requires v != "" && StandsAt(ReplaceTraced(t, v), x, p) && FromInput(x) && x != []
    ensures StandsAt(t, x, q) && Chars(x) != v
    decreases |t|
  {
    hide *;
    var i := Index(Chars(t), v);
    ReplaceTracedUnfolds(t, v);
    if i < 0 {
      q := p;
      NotFound(t, v, x, p);
    } else {
      GapHasNone(t, v);
      var gap, rest := t[..i], t[i + |v|..];
      BesideGap(gap, ReplaceTraced(rest, v), x, p);
      if StandsAt(gap, x, p) {
        q := p;
        NotFound(gap, v, x, p);
        StandsWithin(t, 0, i, x, p);
      } else {
        var r := StoodBefore(rest, v, x, p - i - |PLACEHOLDER|);
        q := i + |v| + r;
        StandsWithin(t, i + |v|, |t|, x, r);
      }
    }
  }

  lemma ReplaceTracedUnfolds(t: seq<Byte>, v: string)
    requires v != ""
    ensures var i := Index(Chars(t), v);
            if i < 0 then ReplaceTraced(t, v) == t
            else i + |v| <= |t| && ReplaceTraced(t, v) == Beside(t[..i], ReplaceTraced(t[i + |v|..], v))
  {
    IndexInside(Chars(t), v);
    hide Beside;
    hide Index;
  }

  lemma GapHasNone(t: seq<Byte>, v: string)
    requires v != "" && Index(Chars(t), v) >= 0
    ensures var i := Index(Chars(t), v);
            && i + |v| <= |t| && Index(Chars(t[..i]), v) < 0
            && t[0..i] == t[..i] && t[i + |v|..|t|] == t[i + |v|..]
  {
    FoundAt(t, v);
    NotBefore(Chars(t), v);
    hide *;
  }

  lemma BesideGap(a: seq<Byte>, c: seq<Byte>, x: seq<Byte>, p: nat)
    requires StandsAt(Beside(a, c), x, p) && FromInput(x) && x != []
    ensures StandsAt(a, x, p) || (p >= |a| + |PLACEHOLDER| && StandsAt(c, x, p - |a| - |PLACEHOLDER|))
  {
    PlaceholderIs();
    NowhereIs(PLACEHOLDER);
    assert Beside(a, c) == a + FromNowhere(PLACEHOLDER) + c;
    hide *;
    StandsBeside(a, FromNowhere(PLACEHOLDER), c, x, p);
    StandsOnSide(a, FromNowhere(PLACEHOLDER), c, x, p);
  }

  lemma NowhereIs(text: string)
    ensures |FromNowhere(text)| == |text| && AllFromNowhere(FromNowhere(text))
  {
  }

  lemma NotFound(t: seq<Byte>, v: string, x: seq<Byte>, p: nat)
    requires Index(Chars(t), v) < 0 && StandsAt(t, x, p)
    ensures Chars(x) != v
  {
    CharsAre(t, p, p + |x|);
    assert |Chars(x)| == |x|;
    assert !OccursAt(Chars(t), v, p);
  }

  lemma StandsWithin(t: seq<Byte>, i: nat, j: nat, x: seq<Byte>, p: nat)
    requires i <= j <= |t| && StandsAt(t[i..j], x, p)
    ensures StandsAt(t, x, i + p)
  {
    forall k | 0 <= k < |x| ensures t[i + p..i + p + |x|][k] == x[k] {
      assert t[i..j][p..p + |x|][k] == t[i..j][p + k];
    }
  }

  /**
   No occurrence of a harvested value in the input reaches the output as it is, whichever values clash and
   whatever their order: its bytes never stand together again. What a clashing value leaves is not an occurrence
   that was missed but one that a placeholder helped to form.
   */
  lemma {:induction false} NoOccurrenceIsMissed(t: seq<Byte>, values: seq<string>, x: seq<Byte>)
    requires NoneEmpty(values) && FromInput(x) && Chars(x) in values
    ensures !Stands(RedactTraced(t, values), x)
    decreases |values|
  {
    var before, v := values[..|values| - 1], values[|values| - 1];
    assert values == before + [v];
    assert |Chars(x)| == |x|;
    hide Chars;
    hide ReplaceTraced;
    hide StandsAt;
    forall p: nat | StandsAt(RedactTraced(t, values), x, p) ensures false {
      var q := StoodBefore(RedactTraced(t, before), v, x, p);
      NoOccurrenceIsMissed(t, before, x);
    }
  }

  /** The same, said of an occurrence in the input. */
  lemma OccurrencesAreBroken(s: string, values: seq<string>, v: string, a: int)
    requires NoneEmpty(values) && v in values && OccursAt(s, v, a)
    ensures Chars(RedactTraced(Traced(s), values)) == Redacted(s, values)
    ensures !Stands(RedactTraced(Traced(s), values), Traced(s)[a..a + |v|])
  {
    RedactTracedIs(Traced(s), values);
    TracedIs(s, v, a);
    hide *;
    NoOccurrenceIsMissed(Traced(s), values, Traced(s)[a..a + |v|]);
  }

  lemma TracedIs(s: string, v: string, a: nat)
    requires OccursAt(s, v, a)
    ensures a + |v| <= |Traced(s)| && FromInput(Traced(s)[a..a + |v|]) && Chars(Traced(s)[a..a + |v|]) == v
    ensures Chars(Traced(s)) == s
  {
    assert Chars(Traced(s)) == s;
    CharsAre(Traced(s), a, a + |v|);
  }

  // ----- the redactor -----

  const COMMON_WORDS: set<string> := {"true", "false", "default", "disabled", "enabled", "localhost"}

  predicate IsLikelySecret(v: string) {
    && |v| >= MIN_SECRET_LENGTH
    && (forall i | 0 <= i < |v| :: v[i] != ' ' && v[i] != '\t' && v[i] != '\r' && v[i] != '\n')
    && ToLower(v) !in COMMON_WORDS
  }

  /** The same text but for the case of its letters; `word` is in small letters. */
  predicate IsInAnyCase(v: string, word: string) {
    && |v| == |word|
    && forall i | 0 <= i < |v| ::
         v[i] == word[i] || (0x41 <= v[i] as int <= 0x5a && v[i] as int + 0x20 == word[i] as int)
  }

  predicate AllSmall(word: string) {
    forall i | 0 <= i < |word| :: 0x61 <= word[i] as int <= 0x7a
  }

  lemma LowerIff(v: string, word: string)
    requires AllSmall(word)
    ensures ToLower(v) == word <==> IsInAnyCase(v, word)
  {
    if IsInAnyCase(v, word) {
      forall i | 0 <= i < |v| ensures ToLower(v)[i] == word[i] {
        CaseBytes(v, i);
      }
    }
    if ToLower(v) == word {
      forall i | 0 <= i < |v|
        ensures v[i] == word[i] || (0x41 <= v[i] as int <= 0x5a && v[i] as int + 0x20 == word[i] as int)
      {
        CaseBytes(v, i);
      }
    }
  }

  /**
   What is harvested: every value of at least six bytes without a blank, tab, carriage return or line feed (bytes
   0x20, 0x09, 0x0d and 0x0a), unless it is one of four words in any case.
   */
  lemma LikelyIff(v: string)
    ensures IsLikelySecret(v) <==>
            && |v| >= 6
            && (forall i | 0 <= i < |v| :: v[i] as int !in {0x20, 0x09, 0x0d, 0x0a})
            && !IsInAnyCase(v, "default") && !IsInAnyCase(v, "disabled")
            && !IsInAnyCase(v, "enabled") && !IsInAnyCase(v, "localhost")
  {
    LowerIff(v, "default");
    LowerIff(v, "disabled");
    LowerIff(v, "enabled");
    LowerIff(v, "localhost");
    LowerIff(v, "true");
    LowerIff(v, "false");
    hide ToLower;
    hide IsInAnyCase;
    if |v| >= 6 {
      ShortWords(v);
    }
  }

  lemma ShortWords(v: string)
    requires |v| >= 6
    ensures !IsInAnyCase(v, "true") && !IsInAnyCase(v, "false")
  {
  }

  class Redactor {
    var values: seq<string>

    /** Harvested values are distinct and look like secrets. */
    ghost predicate Valid()
      reads this
      ensures Valid() ==> NoneEmpty(values)
    {
      && (forall i | 0 <= i < |values| :: IsLikelySecret(values[i]))
      && (forall i, j | 0 <= i < j < |values| :: values[i] != values[j])
    }

    constructor ()
      ensures Valid() && values == []
    {
      values := [];
    }

    method AddValue(raw: string)
      requires Valid()
      modifies this
      ensures Valid()
      ensures var v := TrimSpace(raw);
              values == old(values) + if IsLikelySecret(v) && v !in old(values) then [v] else []
    {
      var v := TrimSpace(raw);
      if !IsLikelySecret(v) {
        return;
      }
      if v in values {
        return;
      }
      values := values + [v];
    }

    /** `sort.Slice` by descending length; values of one length may end up in any order. */
    method Finalize()
      requires Valid()
      modifies this
      ensures Valid() && IsSortOf(values, old(values), ByLength)
    {
      ByLengthIsOrder();
      SortBySorts(values, ByLength);
      ghost var before := values;
      values := SortBy(values, ByLength);
      PermutedValues(before, values);
      forall i | 0 <= i < |values| ensures IsLikelySecret(values[i]) {
        assert values[i] in before;
      }
    }

    method Redact(data: string) returns (out: string)
      requires Valid()
      ensures out == Redacted(data, values)
      ensures forall v | v in values && !Clashes(v) :: !Contains(out, v)
      ensures forall v, w | w in values && !Clashes(w) && Contains(v, w) :: !Contains(out, v)
    {
      hide Clashes;
      hide Contains;
      forall v | v in values && !Clashes(v) ensures !Contains(Redacted(data, values), v) {
        RedactionIsComplete(data, values, v);
      }
      forall v, w | w in values && !Clashes(w) && Contains(v, w) ensures !Contains(Redacted(data, values), v) {
        NothingAroundIsLeft(data, values, v, w);
      }
      if |values| == 0 || |data| == 0 {
        EmptyStaysEmpty(values);
        return data;
      }
      out := data;
      for i := 0 to |values|
        invariant out == Redacted(data, values[..i])
      {
        assert values[..i + 1][..i] == values[..i];
        out := ReplaceAll(out, values[i], PLACEHOLDER);
      }
      assert values[..|values|] == values;
    }
  }

  lemma {:induction false} EmptyStaysEmpty(values: seq<string>)
    requires NoneEmpty(values)
    ensures Redacted("", values) == ""
    decreases |values|
  {
    if values != [] {
      EmptyStaysEmpty(values[..|values| - 1]);
      ShortIsKept("", values[|values| - 1]);
    }
  }

  lemma PermutedValues(a: seq<string>, b: seq<string>)
    requires multiset(a) == multiset(b)
    requires forall i, j | 0 <= i < j < |a| :: a[i] != a[j]
    ensures forall v | v in b :: v in a
    ensures forall i, j | 0 <= i < j < |b| :: b[i] != b[j]
  {
    forall v | v in b ensures v in a {
      assert v in multiset(b);
    }
    forall i, j | 0 <= i < j < |b| ensures b[i] != b[j] {
      if b[i] == b[j] {
        assert b == b[..i] + [b[i]] + b[i + 1..j] + [b[j]] + b[j + 1..];
        assert multiset(b)[b[i]] >= 2;
        DistinctCount(a, b[i]);
      }
    }
  }

  lemma {:induction false} DistinctCount(a: seq<string>, v: string)
    requires forall i, j | 0 <= i < j < |a| :: a[i] != a[j]
    ensures multiset(a)[v] <= 1
  {
    if a != [] {
      DistinctCount(a[1..], v);
      assert a == [a[0]] + a[1..];
      assert a[0] == v ==> v !in a[1..];
    }
  }

  /** The word inside the placeholder can be harvested, and is then never redacted. */
  lemma HarvestableClash()
    ensures IsLikelySecret("REDACTED") && Clashes("REDACTED")
    ensures exists s :: Contains(Redacted(s, ["REDACTED"]), "REDACTED")
  {
    WordIsLikely("REDACTED");
    WordOverlaps("REDACTED");
    hide *;
    CompleteIffNoClash("REDACTED");
  }

  lemma WordIsLikely(word: string)
    requires word == "REDACTED"
    ensures IsLikelySecret(word)
  {
    var lower := ToLower(word);
    assert lower[0] == 'r';
  }

  lemma WordOverlaps(word: string)
    requires word == "REDACTED"
    ensures word != "" && Clashes(word)
  {
    assert Overlaps(word, 3);
  }
}
