/**
 The text that an application definition is hashed from to detect changes. It has to ignore orders that do
 not matter and to show every change that does.

 The text is a sequence of tagged lines. Two definitions have the same text exactly when they describe the
 same deployment, as long as no field holds a line feed.
 */
module HashInput {
  import opened Text
  import opened Ordering
  import opened OrderedMap

  datatype AppDef = AppDef(
    name: string,
    image: string,
    imageDigest: string,
    cmd: seq<string>,
    shmSize: string,
    volumesContentHash: string,
    environments: seq<Entry>,
    ports: seq<string>,
    volumes: seq<string>,
    dependsOn: seq<string>,
    initActions: seq<seq<string>>,
    initImages: seq<string>,
    memory: Option<string>
  )

  datatype Tag =
    | Name | Image | Digest | Cmd | ShmSize | Vch | Env | Port | Vol | Dep | InitAction | InitContainer | Mem

  datatype Line = Line(tag: Tag, payload: string)

  function Prefix(tag: Tag): string {
    match tag
    case Name => "name="
    case Image => "image="
    case Digest => "imageDigest="
    case Cmd => "cmd="
    case ShmSize => "shmSize="
    case Vch => "vch="
    case Env => "env:"
    case Port => "port="
    case Vol => "vol="
    case Dep => "dep="
    case InitAction => "initAction="
    case InitContainer => "initContainer="
    case Mem => "mem="
  }

  function Tagged(tag: Tag, payloads: seq<string>): seq<Line> {
    seq(|payloads|, i requires 0 <= i < |payloads| => Line(tag, payloads[i]))
  }

  function ValueOf(entries: seq<Entry>, key: string): string {
    match Lookup(entries, key) case Some(v) => v case None => ""
  }

  function EnvPayloads(entries: seq<Entry>): seq<string> {
    var keys := SortBy(Keys(entries), Compare);
    seq(|keys|, i requires 0 <= i < |keys| => keys[i] + "=" + ValueOf(entries, keys[i]))
  }

  function Joined(commands: seq<seq<string>>): seq<string> {
    seq(|commands|, i requires 0 <= i < |commands| => Join(commands[i], " "))
  }

  function OptionalPayload(o: Option<string>): seq<string> {
    match o case Some(v) => [v] case None => []
  }

  function DigestOf(d: AppDef): Option<string> {
    if d.imageDigest != "" then Some(d.imageDigest) else None
  }

  /** What one kind of line says about a definition. */
  function Payloads(d: AppDef, tag: Tag): seq<string> {
    match tag
    case Name => [d.name]
    case Image => [d.image]
    case Digest => OptionalPayload(DigestOf(d))
    case Cmd => [Join(d.cmd, " ")]
    case ShmSize => [d.shmSize]
    case Vch => [d.volumesContentHash]
    case Env => EnvPayloads(d.environments)
    case Port => SortBy(d.ports, Compare)
    case Vol => d.volumes
    case Dep => SortBy(d.dependsOn, Compare)
    case InitAction => Joined(d.initActions)
    case InitContainer => d.initImages
    case Mem => OptionalPayload(d.memory)
  }

  const TAGS: seq<Tag> :=
    [Name, Image, Digest, Cmd, ShmSize, Vch, Env, Port, Vol, Dep, InitAction, InitContainer, Mem]

  function LinesOf(d: AppDef, tags: seq<Tag>): seq<Line> {
    if tags == [] then [] else LinesOf(d, tags[..|tags| - 1]) + Tagged(tags[|tags| - 1], Payloads(d, tags[|tags| - 1]))
  }

  function TextOf(lines: seq<Line>): string {
    if lines == [] then ""
    else TextOf(lines[..|lines| - 1]) + Prefix(lines[|lines| - 1].tag) + lines[|lines| - 1].payload + "\n"
  }

  /** `GetHashInput` */
  function HashText(d: AppDef): string {
    TextOf(LinesOf(d, TAGS))
  }

  // ----- the same deployment -----

  /** The same keys, as often, and the same value for each. */
  ghost predicate SameEnv(a: seq<Entry>, b: seq<Entry>) {
    multiset(Keys(a)) == multiset(Keys(b)) && forall k | k in Keys(a) :: ValueOf(a, k) == ValueOf(b, k)
  }

  /** Equal up to the order of environment, ports and dependencies, and up to how commands are cut into words. */
  ghost predicate SameDeployment(a: AppDef, b: AppDef) {
    && a.name == b.name && a.image == b.image && a.imageDigest == b.imageDigest
    && Join(a.cmd, " ") == Join(b.cmd, " ")
    && a.shmSize == b.shmSize && a.volumesContentHash == b.volumesContentHash
    && SameEnv(a.environments, b.environments)
    && multiset(a.ports) == multiset(b.ports)
    && a.volumes == b.volumes
    && multiset(a.dependsOn) == multiset(b.dependsOn)
    && Joined(a.initActions) == Joined(b.initActions)
    && a.initImages == b.initImages
    && a.memory == b.memory
  }

  /** No line feed in what is hashed, and no '=' in an environment key. */
  predicate IsClean(d: AppDef) {
    && (forall tag, i | tag in TAGS && 0 <= i < |Payloads(d, tag)| :: Free(Payloads(d, tag)[i], '\n'))
    && (forall i | 0 <= i < |d.environments| :: Free(d.environments[i].key, '='))
  }

  // ----- the text shows the lines -----

  /** The tag of a line, read off its first characters. */
  function TagOf(s: string): Tag {
    if s == "" then Name
    else if s[0] == 'n' then Name
    else if s[0] == 'c' then Cmd
    else if s[0] == 's' then ShmSize
    else if s[0] == 'e' then Env
    else if s[0] == 'p' then Port
    else if s[0] == 'd' then Dep
    else if s[0] == 'm' then Mem
    else if s[0] == 'v' then if |s| > 1 && s[1] == 'c' then Vch else Vol
    else if |s| > 5 && s[1] == 'm' then if s[5] == '=' then Image else Digest
    else if |s| > 4 && s[4] == 'A' then InitAction else InitContainer
  }

  lemma TagRead(line: Line)
    ensures TagOf(Prefix(line.tag) + line.payload) == line.tag
  {
  }

  lemma PrefixFree(tag: Tag)
    ensures Free(Prefix(tag), '\n')
  {
  }

  /** A line without a line feed can be read back from its text. */
  lemma LineRead(a: Line, b: Line)
    requires Prefix(a.tag) + a.payload == Prefix(b.tag) + b.payload
    ensures a == b
  {
    TagRead(a);
    TagRead(b);
    hide Prefix;
    assert (Prefix(a.tag) + a.payload)[|Prefix(a.tag)|..] == a.payload;
    assert (Prefix(b.tag) + b.payload)[|Prefix(b.tag)|..] == b.payload;
  }

  predicate LinesClean(lines: seq<Line>) {
    forall i | 0 <= i < |lines| :: Free(lines[i].payload, '\n')
  }

  /** The last line of a text is what stands between its last two line feeds. */
  lemma LastLine(a: string, x: string, b: string, y: string)
    requires Free(x, '\n') && Free(y, '\n')
    requires a == "" || a[|a| - 1] == '\n'
    requires b == "" || b[|b| - 1] == '\n'
    requires a + x + "\n" == b + y + "\n"
    ensures a == b && x == y
  {
    var s := a + x + "\n";
    if |a| < |b| {
      BreakInside(a, x, b, y);
    } else if |b| < |a| {
      BreakInside(b, y, a, x);
    } else {
      assert s[..|a|] == a && s[|a|..|s| - 1] == x;
      assert (b + y + "\n")[..|b|] == b && (b + y + "\n")[|b|..|s| - 1] == y;
    }
  }

  lemma BreakInside(a: string, x: string, b: string, y: string)
    requires a + x + "\n" == b + y + "\n" && |a| < |b| && b[|b| - 1] == '\n'
    ensures !Free(x, '\n')
  {
    var s := a + x + "\n";
    assert |s| == |b + y + "\n"|;
    assert s[|b| - 1] == (b + y + "\n")[|b| - 1] == '\n';
    assert x[|b| - 1 - |a|] == s[|b| - 1];
  }

  lemma TextEnds(lines: seq<Line>)
    ensures lines == [] ==> TextOf(lines) == ""
    ensures lines != [] ==> TextOf(lines) != "" && TextOf(lines)[|TextOf(lines)| - 1] == '\n'
  {
  }

  lemma CleanStep(lines: seq<Line>)
    requires LinesClean(lines) && lines != []
    ensures LinesClean(lines[..|lines| - 1]) && Free(lines[|lines| - 1].payload, '\n')
  {
  }

  lemma {:induction false} TextInjective(a: seq<Line>, b: seq<Line>)
    requires LinesClean(a) && LinesClean(b) && TextOf(a) == TextOf(b)
    ensures a == b
  {
    hide *;
    TextEnds(a);
    TextEnds(b);
    if a != [] && b != [] {
      var before, last := a[..|a| - 1], a[|a| - 1];
      var before', last' := b[..|b| - 1], b[|b| - 1];
      CleanStep(a);
      CleanStep(b);
      TextEnds(before);
      TextEnds(before');
      LinePart(last);
      LinePart(last');
      TextStep(a);
      TextStep(b);
      LastLine(TextOf(before), Prefix(last.tag) + last.payload, TextOf(before'), Prefix(last'.tag) + last'.payload);
      LineRead(last, last');
      TextInjective(before, before');
      assert a == before + [last] && b == before' + [last'];
    }
  }

  lemma LinePart(line: Line)
    requires Free(line.payload, '\n')
    ensures Free(Prefix(line.tag) + line.payload, '\n')
  {
    PrefixFree(line.tag);
  }

  lemma TextStep(lines: seq<Line>)
    requires lines != []
    ensures TextOf(lines) == TextOf(lines[..|lines| - 1])
                             + (Prefix(lines[|lines| - 1].tag) + lines[|lines| - 1].payload) + "\n"
  {
    hide Prefix;
    var t := TextOf(lines[..|lines| - 1]);
    var p, x := Prefix(lines[|lines| - 1].tag), lines[|lines| - 1].payload;
    assert t + p + x + "\n" == t + (p + x) + "\n";
  }

  // ----- the lines show the payloads -----

  function Select(lines: seq<Line>, tag: Tag): seq<string> {
    if lines == [] then []
    else Select(lines[..|lines| - 1], tag) + if lines[|lines| - 1].tag == tag then [lines[|lines| - 1].payload] else []
  }

  lemma {:induction false} SelectAppend(a: seq<Line>, b: seq<Line>, tag: Tag)
    ensures Select(a + b, tag) == Select(a, tag) + Select(b, tag)
  {
    if b == [] {
      assert a + b == a;
    } else {
      assert (a + b)[..|a + b| - 1] == a + b[..|b| - 1];
      SelectAppend(a, b[..|b| - 1], tag);
    }
  }

  lemma {:induction false} SelectTagged(t: Tag, payloads: seq<string>, tag: Tag)
    ensures Select(Tagged(t, payloads), tag) == if t == tag then payloads else []
  {
    if payloads != [] {
      var before := payloads[..|payloads| - 1];
      assert Tagged(t, payloads)[..|payloads| - 1] == Tagged(t, before);
      SelectTagged(t, before, tag);
      assert payloads == before + [payloads[|payloads| - 1]];
    }
  }

  ghost predicate NoRepeats(tags: seq<Tag>) {
    forall i, j | 0 <= i < j < |tags| :: tags[i] != tags[j]
  }

  lemma {:induction false} SelectLines(d: AppDef, tags: seq<Tag>, tag: Tag)
    requires NoRepeats(tags)
    ensures Select(LinesOf(d, tags), tag) == if tag in tags then Payloads(d, tag) else []
  {
    hide *;
    if tags == [] {
      NoLines(d, tag);
    } else {
      var before, last := tags[..|tags| - 1], tags[|tags| - 1];
      LinesStep(d, tags);
      LastIsNew(tags, tag);
      SelectLines(d, before, tag);
      SelectTagged(last, Payloads(d, last), tag);
      SelectAppend(LinesOf(d, before), Tagged(last, Payloads(d, last)), tag);
      assert [] + Payloads(d, tag) == Payloads(d, tag) && Payloads(d, tag) + [] == Payloads(d, tag);
    }
  }

  lemma NoLines(d: AppDef, tag: Tag)
    ensures Select(LinesOf(d, []), tag) == []
  {
  }

  lemma LinesStep(d: AppDef, tags: seq<Tag>)
    requires tags != []
    ensures var before, last := tags[..|tags| - 1], tags[|tags| - 1];
            LinesOf(d, tags) == LinesOf(d, before) + Tagged(last, Payloads(d, last))
  {
    hide Payloads;
    hide Tagged;
  }

  lemma LastIsNew(tags: seq<Tag>, tag: Tag)
    requires NoRepeats(tags) && tags != []
    ensures var before, last := tags[..|tags| - 1], tags[|tags| - 1];
            NoRepeats(before) && last !in before && (tag in tags <==> tag in before || tag == last)
  {
    assert tags == tags[..|tags| - 1] + [tags[|tags| - 1]];
  }

  lemma {:induction false} LinesAreClean(d: AppDef, tags: seq<Tag>)
    requires forall tag, i | tag in tags && 0 <= i < |Payloads(d, tag)| :: Free(Payloads(d, tag)[i], '\n')
    ensures LinesClean(LinesOf(d, tags))
  {
    hide Payloads;
    hide Free;
    if tags != [] {
      var before, last := tags[..|tags| - 1], tags[|tags| - 1];
      assert last in tags && forall t | t in before :: t in tags;
      LinesAreClean(d, before);
    }
  }

  lemma {:induction false} LinesDepend(a: AppDef, b: AppDef, tags: seq<Tag>)
    requires forall tag | tag in tags :: Payloads(a, tag) == Payloads(b, tag)
    ensures LinesOf(a, tags) == LinesOf(b, tags)
  {
    hide Payloads;
    if tags != [] {
      assert tags[|tags| - 1] in tags && forall t | t in tags[..|tags| - 1] :: t in tags;
      LinesDepend(a, b, tags[..|tags| - 1]);
    }
  }

  function Rank(tag: Tag): nat {
    match tag
    case Name => 0
    case Image => 1
    case Digest => 2
    case Cmd => 3
    case ShmSize => 4
    case Vch => 5
    case Env => 6
    case Port => 7
    case Vol => 8
    case Dep => 9
    case InitAction => 10
    case InitContainer => 11
    case Mem => 12
  }

  lemma TagsAreAll(tag: Tag)
    ensures tag in TAGS && NoRepeats(TAGS)
  {
    assert TAGS[Rank(tag)] == tag;
    assert forall i | 0 <= i < |TAGS| :: Rank(TAGS[i]) == i;
  }

  /** Clean definitions have the same text exactly when each kind of line says the same of both. */
  lemma TextShowsPayloads(a: AppDef, b: AppDef)
    requires IsClean(a) && IsClean(b)
    ensures HashText(a) == HashText(b) <==> forall tag :: Payloads(a, tag) == Payloads(b, tag)
  {
    if HashText(a) == HashText(b) {
      LinesAreClean(a, TAGS);
      LinesAreClean(b, TAGS);
      TextInjective(LinesOf(a, TAGS), LinesOf(b, TAGS));
      forall tag ensures Payloads(a, tag) == Payloads(b, tag) {
        TagsAreAll(tag);
        SelectLines(a, TAGS, tag);
        SelectLines(b, TAGS, tag);
      }
    }
    if forall tag :: Payloads(a, tag) == Payloads(b, tag) {
      LinesDepend(a, b, TAGS);
    }
  }

  // ----- the payloads show the deployment -----

  /** A key without '=' can be cut off its payload. */
  lemma PairRead(k: string, v: string, l: string, w: string)
    requires k + "=" + v == l + "=" + w && Free(k, '=') && Free(l, '=')
    ensures k == l && v == w
  {
    assert k + "=" + v == k + ("=" + v) && l + "=" + w == l + ("=" + w);
    SameStop(k, "=" + v, l, "=" + w, c => c == '=');
    assert ("=" + v)[1..] == v && ("=" + w)[1..] == w;
  }

  lemma SortedMembers(s: seq<string>)
    ensures multiset(SortBy(s, Compare)) == multiset(s)
    ensures forall x :: x in SortBy(s, Compare) <==> x in s
  {
    CompareIsOrder();
    SortBySorts(s, Compare);
    forall x ensures x in SortBy(s, Compare) <==> x in s {
      assert x in SortBy(s, Compare) <==> x in multiset(SortBy(s, Compare));
      assert x in s <==> x in multiset(s);
    }
  }

  ghost predicate KeysClean(entries: seq<Entry>) {
    forall k | k in Keys(entries) :: Free(k, '=')
  }

  lemma EnvShown(a: seq<Entry>, b: seq<Entry>)
    requires KeysClean(a) && KeysClean(b) && EnvPayloads(a) == EnvPayloads(b)
    ensures SameEnv(a, b)
  {
    hide SortBy;
    hide ValueOf;
    hide Compare;
    hide Keys;
    var ks, ls := SortBy(Keys(a), Compare), SortBy(Keys(b), Compare);
    SortedMembers(Keys(a));
    SortedMembers(Keys(b));
    assert |ks| == |EnvPayloads(a)| == |EnvPayloads(b)| == |ls|;
    forall i | 0 <= i < |ks| ensures ks[i] == ls[i] && ValueOf(a, ks[i]) == ValueOf(b, ls[i]) {
      assert ks[i] in ks && ls[i] in ls;
      assert EnvPayloads(a)[i] == EnvPayloads(b)[i];
      PairRead(ks[i], ValueOf(a, ks[i]), ls[i], ValueOf(b, ls[i]));
    }
    assert ks == ls;
    forall k | k in Keys(a) ensures ValueOf(a, k) == ValueOf(b, k) {
      assert k in ks;
    }
  }

  lemma EnvDepends(a: seq<Entry>, b: seq<Entry>)
    requires SameEnv(a, b)
    ensures EnvPayloads(a) == EnvPayloads(b)
  {
    hide SortBy;
    hide ValueOf;
    hide Compare;
    hide Keys;
    SortStringsUnique(Keys(a), Keys(b));
    SortedMembers(Keys(a));
    var ks := SortBy(Keys(a), Compare);
    assert forall i | 0 <= i < |ks| :: ks[i] in Keys(a);
  }

  lemma SortedShown(a: seq<string>, b: seq<string>)
    ensures SortBy(a, Compare) == SortBy(b, Compare) <==> multiset(a) == multiset(b)
  {
    hide SortBy;
    hide Compare;
    SortedMembers(a);
    SortedMembers(b);
    if multiset(a) == multiset(b) {
      SortStringsUnique(a, b);
    }
  }

  lemma PayloadsDepend(a: AppDef, b: AppDef)
    requires SameDeployment(a, b)
    ensures forall tag :: Payloads(a, tag) == Payloads(b, tag)
  {
    hide SameEnv;
    hide SortBy;
    hide Compare;
    hide EnvPayloads;
    EnvDepends(a.environments, b.environments);
    SortedShown(a.ports, b.ports);
    SortedShown(a.dependsOn, b.dependsOn);
  }

  lemma OptionalShown(a: Option<string>, b: Option<string>)
    requires OptionalPayload(a) == OptionalPayload(b)
    ensures a == b
  {
    if a.Some? && b.Some? {
      assert OptionalPayload(a)[0] == OptionalPayload(b)[0];
    }
  }

  lemma One(x: string, y: string)
    requires [x] == [y]
    ensures x == y
  {
    assert [x][0] == [y][0];
  }

  lemma ScalarsShown(a: AppDef, b: AppDef)
    requires forall tag | tag in {Name, Image, Cmd, ShmSize, Vch} :: Payloads(a, tag) == Payloads(b, tag)
    ensures a.name == b.name && a.image == b.image && Join(a.cmd, " ") == Join(b.cmd, " ")
    ensures a.shmSize == b.shmSize && a.volumesContentHash == b.volumesContentHash
  {
    assert Payloads(a, Name) == Payloads(b, Name) && Payloads(a, Image) == Payloads(b, Image);
    assert Payloads(a, Cmd) == Payloads(b, Cmd);
    assert Payloads(a, ShmSize) == Payloads(b, ShmSize) && Payloads(a, Vch) == Payloads(b, Vch);
    hide Payloads;
    hide Join;
    One(a.name, b.name);
    One(a.image, b.image);
    One(Join(a.cmd, " "), Join(b.cmd, " "));
    One(a.shmSize, b.shmSize);
    One(a.volumesContentHash, b.volumesContentHash);
  }

  lemma OptionalsShown(a: AppDef, b: AppDef)
    requires Payloads(a, Digest) == Payloads(b, Digest) && Payloads(a, Mem) == Payloads(b, Mem)
    ensures a.imageDigest == b.imageDigest && a.memory == b.memory
  {
    OptionalShown(DigestOf(a), DigestOf(b));
    OptionalShown(a.memory, b.memory);
  }

  lemma SortedPayloads(a: AppDef, b: AppDef)
    requires Payloads(a, Port) == Payloads(b, Port) && Payloads(a, Dep) == Payloads(b, Dep)
    ensures multiset(a.ports) == multiset(b.ports) && multiset(a.dependsOn) == multiset(b.dependsOn)
  {
    hide SortBy;
    hide Compare;
    SortedShown(a.ports, b.ports);
    SortedShown(a.dependsOn, b.dependsOn);
  }

  lemma PayloadsShow(a: AppDef, b: AppDef)
    requires IsClean(a) && IsClean(b)
    requires forall tag :: Payloads(a, tag) == Payloads(b, tag)
    ensures SameDeployment(a, b)
  {
    assert KeysClean(a.environments) && KeysClean(b.environments);
    hide IsClean;
    ListsShown(a, b);
    hide Payloads;
    hide KeysClean;
    hide EnvPayloads;
    hide SameEnv;
    hide Join;
    hide Joined;
    ScalarsShown(a, b);
    OptionalsShown(a, b);
    SortedPayloads(a, b);
    EnvShown(a.environments, b.environments);
  }

  lemma ListsShown(a: AppDef, b: AppDef)
    requires forall tag :: Payloads(a, tag) == Payloads(b, tag)
    ensures EnvPayloads(a.environments) == EnvPayloads(b.environments)
    ensures a.volumes == b.volumes && Joined(a.initActions) == Joined(b.initActions) && a.initImages == b.initImages
  {
    hide EnvPayloads;
    hide Joined;
    assert Payloads(a, Env) == Payloads(b, Env) && Payloads(a, Vol) == Payloads(b, Vol);
    assert Payloads(a, InitAction) == Payloads(b, InitAction);
    assert Payloads(a, InitContainer) == Payloads(b, InitContainer);
  }

  /**
   Change detection is exact: clean definitions have the same hash input exactly when they describe the same
   deployment.
   */
  lemma HashIffSameDeployment(a: AppDef, b: AppDef)
    requires IsClean(a) && IsClean(b)
    ensures HashText(a) == HashText(b) <==> SameDeployment(a, b)
  {
    hide IsClean;
    hide HashText;
    hide Payloads;
    hide SameDeployment;
    TextShowsPayloads(a, b);
    if SameDeployment(a, b) {
      PayloadsDepend(a, b);
    }
    if forall tag :: Payloads(a, tag) == Payloads(b, tag) {
      PayloadsShow(a, b);
    }
  }

  /** Reordering does not count as a change, whatever the fields hold. */
  lemma SameDeploymentSameHash(a: AppDef, b: AppDef)
    requires SameDeployment(a, b)
    ensures HashText(a) == HashText(b)
  {
    hide Payloads;
    hide SameDeployment;
    PayloadsDepend(a, b);
    LinesDepend(a, b, TAGS);
  }

  // ----- the environment as a map -----

  function ToMap(entries: seq<Entry>): map<string, string> {
    map k | k in Keys(entries) :: ValueOf(entries, k)
  }

  /** With distinct keys, the same environment is the same map. */
  lemma SameEnvIsSameMap(a: seq<Entry>, b: seq<Entry>)
    requires DistinctKeys(a) && DistinctKeys(b)
    ensures SameEnv(a, b) <==> ToMap(a) == ToMap(b)
  {
    hide ValueOf;
    hide Keys;
    if SameEnv(a, b) {
      forall k ensures k in Keys(a) <==> k in Keys(b) {
        assert k in Keys(a) <==> k in multiset(Keys(a));
        assert k in Keys(b) <==> k in multiset(Keys(b));
      }
    }
    if ToMap(a) == ToMap(b) {
      forall k ensures (k in Keys(a) <==> k in Keys(b)) && (k in Keys(a) ==> ValueOf(a, k) == ValueOf(b, k)) {
        assert k in ToMap(a) <==> k in ToMap(b);
        assert k in ToMap(a) ==> ToMap(a)[k] == ToMap(b)[k];
      }
      DistinctKeysAre(a);
      DistinctKeysAre(b);
      SameMultiset(Keys(a), Keys(b));
    }
  }

  lemma DistinctKeysAre(entries: seq<Entry>)
    requires DistinctKeys(entries)
    ensures forall i, j | 0 <= i < j < |Keys(entries)| :: Keys(entries)[i] != Keys(entries)[j]
  {
  }

  lemma SameMultiset(a: seq<string>, b: seq<string>)
    requires forall i, j | 0 <= i < j < |a| :: a[i] != a[j]
    requires forall i, j | 0 <= i < j < |b| :: b[i] != b[j]
    requires forall k :: k in a <==> k in b
    ensures multiset(a) == multiset(b)
  {
    forall k ensures multiset(a)[k] == multiset(b)[k] {
      OnceOrNever(a, k);
      OnceOrNever(b, k);
    }
  }

  lemma {:induction false} OnceOrNever(a: seq<string>, k: string)
    requires forall i, j | 0 <= i < j < |a| :: a[i] != a[j]
    ensures multiset(a)[k] == if k in a then 1 else 0
  {
    if a != [] {
      OnceOrNever(a[1..], k);
      assert a == [a[0]] + a[1..];
    }
  }

  /** Reordering an environment with distinct keys leaves it the same. */
  lemma ReorderedEnv(a: seq<Entry>, b: seq<Entry>)
    requires DistinctKeys(a) && DistinctKeys(b) && (forall e :: e in a <==> e in b)
    ensures SameEnv(a, b)
  {
    forall k ensures (k in Keys(a) <==> k in Keys(b)) && (k in Keys(a) ==> ValueOf(a, k) == ValueOf(b, k)) {
      if k in Keys(a) {
        SameValue(a, b, k);
      }
      if k in Keys(b) {
        SameValue(b, a, k);
      }
    }
    hide ValueOf;
    hide Keys;
    DistinctKeysAre(a);
    DistinctKeysAre(b);
    SameMultiset(Keys(a), Keys(b));
  }

  lemma SameValue(a: seq<Entry>, b: seq<Entry>, k: string)
    requires DistinctKeys(a) && DistinctKeys(b) && (forall e :: e in a <==> e in b) && k in Keys(a)
    ensures k in Keys(b) && ValueOf(a, k) == ValueOf(b, k)
  {
    var i :| 0 <= i < |Keys(a)| && Keys(a)[i] == k;
    assert a[i] in b;
    var j :| 0 <= j < |b| && b[j] == a[i];
    assert Keys(b)[j] == k;
    LookupAt(a, i);
    LookupAt(b, j);
  }

  // ----- where it is not exact -----

  /** How a command is cut into words does not show. */
  lemma WordsDoNotShow(d: AppDef, v: string, w: string)
    ensures HashText(d.(cmd := [v + " " + w])) == HashText(d.(cmd := [v, w]))
  {
    var a, b := d.(cmd := [v + " " + w]), d.(cmd := [v, w]);
    assert [v, w][1..] == [w];
    assert Join(a.cmd, " ") == Join(b.cmd, " ");
    hide Join;
    assert SameDeployment(a, b);
    hide *;
    SameDeploymentSameHash(a, b);
  }

  /** Where only one kind of line differs, and not as text, the whole text is the same. */
  lemma OneKind(a: AppDef, b: AppDef, changed: Tag)
    requires forall tag | tag != changed :: Payloads(a, tag) == Payloads(b, tag)
    requires TextOf(Tagged(changed, Payloads(a, changed))) == TextOf(Tagged(changed, Payloads(b, changed)))
    ensures HashText(a) == HashText(b)
  {
    hide TextOf;
    hide Tagged;
    hide LinesOf;
    hide Payloads;
    SectionsDepend(a, b, TAGS);
  }

  /** A line feed in a value can pass for another line, and then a change goes unnoticed. */
  lemma LineFeedHidesChange(d: AppDef, v: string, w: string)
    ensures var a := d.(volumes := [v + "\nvol=" + w]); var b := d.(volumes := [v, w]);
            HashText(a) == HashText(b) && !SameDeployment(a, b)
  {
    var a, b := d.(volumes := [v + "\nvol=" + w]), d.(volumes := [v, w]);
    BrokenVolume(v, w, a.volumes[0]);
    assert |a.volumes| != |b.volumes|;
    hide TextOf;
    hide Tagged;
    hide HashText;
    hide EnvPayloads;
    hide SortBy;
    hide Join;
    OneKind(a, b, Vol);
  }

  lemma BrokenVolume(v: string, w: string, broken: string)
    requires broken == v + "\nvol=" + w
    ensures TextOf(Tagged(Vol, [broken])) == TextOf(Tagged(Vol, [v, w]))
  {
    var l, m, n := Line(Vol, broken), Line(Vol, v), Line(Vol, w);
    assert Tagged(Vol, [broken]) == [l] && Tagged(Vol, [v, w]) == [m, n];
    hide Tagged;
    TextOfOne(l);
    TextOfOne(m);
    TextStep([m, n]);
    assert [m, n][..1] == [m];
    var prefix := Prefix(Vol);
    assert prefix == "vol=";
    hide *;
    assert prefix + (v + "\nvol=" + w) + "\n" == (prefix + v + "\n") + (prefix + w) + "\n";
  }

  lemma TextOfOne(line: Line)
    ensures TextOf([line]) == Prefix(line.tag) + line.payload + "\n"
  {
    assert [line][..0] == [];
    assert TextOf([]) == "";
    TextStep([line]);
    hide TextOf;
    assert "" + (Prefix(line.tag) + line.payload) == Prefix(line.tag) + line.payload;
  }

  /** So can an '=' in a key, which then passes for the end of a shorter key. */
  lemma EqualsSignHidesChange(d: AppDef, k: string, l: string, v: string)
    ensures var a := d.(environments := [Entry(k + "=" + l, v)]); var b := d.(environments := [Entry(k, l + "=" + v)]);
            HashText(a) == HashText(b) && !SameDeployment(a, b)
  {
    var x, y := Entry(k + "=" + l, v), Entry(k, l + "=" + v);
    var a, b := d.(environments := [x]), d.(environments := [y]);
    EnvOfOne(x);
    EnvOfOne(y);
    assert x.key + "=" + x.value == y.key + "=" + y.value;
    assert |x.key| != |y.key|;
    OtherKey(x, y);
    hide EnvPayloads;
    hide SameEnv;
    hide HashText;
    hide TextOf;
    hide Tagged;
    hide SortBy;
    hide Join;
    OneKind(a, b, Env);
  }

  lemma EnvOfOne(e: Entry)
    ensures EnvPayloads([e]) == [e.key + "=" + e.value]
  {
    assert Keys([e]) == [e.key];
    assert SortBy([e.key], Compare) == [e.key] by {
      assert [e.key][1..] == [];
    }
    LookupAt([e], 0);
    hide SortBy;
    hide Lookup;
  }

  lemma OtherKey(x: Entry, y: Entry)
    requires x.key != y.key
    ensures !SameEnv([x], [y])
  {
    assert Keys([x]) == [x.key] && Keys([y]) == [y.key];
    assert multiset([x.key])[x.key] == 1 && multiset([y.key])[x.key] == 0;
  }

  lemma {:induction false} TextAppend(a: seq<Line>, b: seq<Line>)
    ensures TextOf(a + b) == TextOf(a) + TextOf(b)
  {
    if b == [] {
      assert a + b == a;
      assert TextOf(a) + TextOf(b) == TextOf(a);
    } else {
      hide *;
      var all, init, last := a + b, b[..|b| - 1], b[|b| - 1];
      assert all[..|all| - 1] == a + init && all[|all| - 1] == last;
      TextAppend(a, init);
      TextStep(all);
      TextStep(b);
      Regroup(TextOf(a), TextOf(init), Prefix(last.tag) + last.payload, "\n");
    }
  }

  lemma {:induction false} SectionsDepend(a: AppDef, b: AppDef, tags: seq<Tag>)
    requires forall tag | tag in tags :: TextOf(Tagged(tag, Payloads(a, tag))) == TextOf(Tagged(tag, Payloads(b, tag)))
    ensures TextOf(LinesOf(a, tags)) == TextOf(LinesOf(b, tags))
  {
    hide Payloads;
    hide Tagged;
    hide TextOf;
    if tags != [] {
      var before, last := tags[..|tags| - 1], tags[|tags| - 1];
      assert last in tags && forall t | t in before :: t in tags;
      SectionsDepend(a, b, before);
      TextAppend(LinesOf(a, before), Tagged(last, Payloads(a, last)));
      TextAppend(LinesOf(b, before), Tagged(last, Payloads(b, last)));
    } else {
      assert LinesOf(a, tags) == LinesOf(b, tags);
    }
  }

  // ----- the loops of the source -----

  /** Writes one line to the builder. */
  method Write(b: string, tag: Tag, payload: string, ghost written: seq<Line>) returns (r: string)
    requires b == TextOf(written)
    ensures r == TextOf(written + [Line(tag, payload)])
  {
    hide Prefix;
    r := b + Prefix(tag) + payload + "\n";
    assert (written + [Line(tag, payload)])[..|written|] == written;
  }

  method WriteAll(b: string, tag: Tag, payloads: seq<string>, ghost written: seq<Line>) returns (r: string)
    requires b == TextOf(written)
    ensures r == TextOf(written + Tagged(tag, payloads))
  {
    hide TextOf;
    r := b;
    assert written + Tagged(tag, payloads[..0]) == written;
    for i := 0 to |payloads|
      invariant r == TextOf(written + Tagged(tag, payloads[..i]))
    {
      assert written + Tagged(tag, payloads[..i + 1]) ==
             written + Tagged(tag, payloads[..i]) + [Line(tag, payloads[i])];
      r := Write(r, tag, payloads[i], written + Tagged(tag, payloads[..i]));
    }
    assert payloads[..|payloads|] == payloads;
  }

  method WriteCommands(b: string, commands: seq<seq<string>>, ghost written: seq<Line>) returns (r: string)
    requires b == TextOf(written)
    ensures r == TextOf(written + Tagged(InitAction, Joined(commands)))
  {
    hide TextOf;
    hide Join;
    r := b;
    assert written + Tagged(InitAction, Joined(commands[..0])) == written;
    for i := 0 to |commands|
      invariant r == TextOf(written + Tagged(InitAction, Joined(commands[..i])))
    {
      ghost var before := written + Tagged(InitAction, Joined(commands[..i]));
      assert written + Tagged(InitAction, Joined(commands[..i + 1])) ==
             before + [Line(InitAction, Join(commands[i], " "))];
      r := Write(r, InitAction, Join(commands[i], " "), before);
    }
    assert commands[..|commands|] == commands;
  }

  /** Environment lines in the order of the sorted keys, each with the value that `Get` finds. */
  method WriteEnv(b: string, environments: seq<Entry>, ghost written: seq<Line>) returns (r: string)
    requires b == TextOf(written)
    ensures r == TextOf(written + Tagged(Env, EnvPayloads(environments)))
  {
    hide TextOf;
    hide SortBy;
    hide ValueOf;
    hide Compare;
    r := b;
    var envKeys := SortBy(Keys(environments), Compare);
    ghost var all := EnvPayloads(environments);
    assert written + Tagged(Env, all[..0]) == written;
    for i := 0 to |envKeys|
      invariant r == TextOf(written + Tagged(Env, all[..i]))
    {
      var payload := envKeys[i] + "=" + ValueOf(environments, envKeys[i]);
      assert written + Tagged(Env, all[..i + 1]) == written + Tagged(Env, all[..i]) + [Line(Env, payload)];
      r := Write(r, Env, payload, written + Tagged(Env, all[..i]));
    }
    assert all[..|envKeys|] == all;
  }

  /** The lines before those of a tag. */
  function Upto(d: AppDef, k: nat): seq<Line>
    requires k <= |TAGS|
  {
    LinesOf(d, TAGS[..k])
  }

  lemma Section(d: AppDef, tag: Tag)
    ensures Upto(d, Rank(tag) + 1) == Upto(d, Rank(tag)) + Tagged(tag, Payloads(d, tag))
  {
    hide Payloads;
    var k := Rank(tag);
    assert TAGS[k] == tag;
    assert TAGS[..k + 1][..k] == TAGS[..k];
  }

  lemma OneLine(d: AppDef, tag: Tag, payload: string)
    requires Payloads(d, tag) == [payload]
    ensures Upto(d, Rank(tag) + 1) == Upto(d, Rank(tag)) + [Line(tag, payload)]
  {
    Section(d, tag);
    hide *;
    assert Tagged(tag, [payload]) == [Line(tag, payload)] by { SingleLine(tag, payload); }
  }

  lemma SingleLine(tag: Tag, payload: string)
    ensures Tagged(tag, [payload]) == [Line(tag, payload)]
    ensures Tagged(tag, []) == []
  {
  }

  lemma NoLine(d: AppDef, tag: Tag)
    requires Payloads(d, tag) == []
    ensures Upto(d, Rank(tag) + 1) == Upto(d, Rank(tag))
  {
    Section(d, tag);
    SingleLine(tag, "");
    var before := Upto(d, Rank(tag));
    hide *;
    assert before + [] == before;
  }

  /** The scalar fields that come first. */
  method WriteHead(d: AppDef) returns (b: string)
    ensures b == TextOf(Upto(d, 6))
  {
    hide TextOf;
    hide Upto;
    hide Join;
    hide EnvPayloads;
    hide Joined;
    hide SortBy;
    Ends(d);
    OneLine(d, Name, d.name);
    b := Write("", Name, d.name, Upto(d, 0));
    OneLine(d, Image, d.image);
    b := Write(b, Image, d.image, Upto(d, 1));
    if d.imageDigest != "" {
      OneLine(d, Digest, d.imageDigest);
      b := Write(b, Digest, d.imageDigest, Upto(d, 2));
    } else {
      NoLine(d, Digest);
    }
    OneLine(d, Cmd, Join(d.cmd, " "));
    b := Write(b, Cmd, Join(d.cmd, " "), Upto(d, 3));
    OneLine(d, ShmSize, d.shmSize);
    b := Write(b, ShmSize, d.shmSize, Upto(d, 4));
    OneLine(d, Vch, d.volumesContentHash);
    b := Write(b, Vch, d.volumesContentHash, Upto(d, 5));
  }

  lemma Ends(d: AppDef)
    ensures TextOf(Upto(d, 0)) == ""
    ensures Upto(d, 13) == LinesOf(d, TAGS)
  {
    hide Payloads;
    assert TAGS[..0] == [];
    assert TAGS[..13] == TAGS;
  }

  /** `GetHashInput` writes the tagged lines in order. */
  method GetHashInput(d: AppDef) returns (b: string)
    ensures b == HashText(d)
  {
    b := WriteHead(d);
    hide TextOf;
    hide Upto;
    hide LinesOf;
    hide EnvPayloads;
    hide Joined;
    hide SortBy;
    Ends(d);
    Section(d, Env);
    b := WriteEnv(b, d.environments, Upto(d, 6));
    var ports := SortBy(d.ports, Compare);
    Section(d, Port);
    b := WriteAll(b, Port, ports, Upto(d, 7));
    Section(d, Vol);
    b := WriteAll(b, Vol, d.volumes, Upto(d, 8));
    var depKeys := SortBy(d.dependsOn, Compare);
    Section(d, Dep);
    b := WriteAll(b, Dep, depKeys, Upto(d, 9));
    Section(d, InitAction);
    b := WriteCommands(b, d.initActions, Upto(d, 10));
    Section(d, InitContainer);
    b := WriteAll(b, InitContainer, d.initImages, Upto(d, 11));
    if d.memory.Some? {
      OneLine(d, Mem, d.memory.value);
      b := Write(b, Mem, d.memory.value, Upto(d, 12));
    } else {
      NoLine(d, Mem);
    }
  }
}
