/**
 The hash input spelled out, section by section: the words, their order, and the order of the lines in each section.
 The lists that are sorted are described by being sorted, not by how.
 */
module HashSections {
  import opened Text
  import opened Ordering
  import opened OrderedMap
  import opened HashInput

  /** One line for each payload. */
  function Block(word: string, payloads: seq<string>): string {
    if payloads == [] then "" else Block(word, payloads[..|payloads| - 1]) + word + payloads[|payloads| - 1] + "\n"
  }

  lemma {:induction false} BlockIs(tag: Tag, payloads: seq<string>)
    ensures TextOf(Tagged(tag, payloads)) == Block(Prefix(tag), payloads)
  {
    var lines := Tagged(tag, payloads);
    if payloads != [] {
      var before := payloads[..|payloads| - 1];
      assert lines[..|lines| - 1] == Tagged(tag, before);
      BlockIs(tag, before);
      hide Prefix;
    }
  }

  function EnvLines(keys: seq<string>, entries: seq<Entry>): seq<string> {
    seq(|keys|, i requires 0 <= i < |keys| => keys[i] + "=" + ValueOf(entries, keys[i]))
  }

  function Spaced(commands: seq<seq<string>>): seq<string> {
    seq(|commands|, i requires 0 <= i < |commands| => Join(commands[i], " "))
  }

  /** The sections, for any sorted arrangement of the environment's keys, the ports and the dependencies. */
  function Sections(d: AppDef, keys: seq<string>, ports: seq<string>, deps: seq<string>): (r: seq<string>)
    ensures |r| == 13
  {
    [ "name=" + d.name + "\n",
      "image=" + d.image + "\n",
      if d.imageDigest == "" then "" else "imageDigest=" + d.imageDigest + "\n",
      "cmd=" + Join(d.cmd, " ") + "\n",
      "shmSize=" + d.shmSize + "\n",
      "vch=" + d.volumesContentHash + "\n",
      Block("env:", EnvLines(keys, d.environments)),
      Block("port=", ports),
      Block("vol=", d.volumes),
      Block("dep=", deps),
      Block("initAction=", Spaced(d.initActions)),
      Block("initContainer=", d.initImages),
      match d.memory case None => "" case Some(limit) => "mem=" + limit + "\n" ]
  }

  lemma OneInBlock(word: string, payload: string)
    ensures Block(word, [payload]) == word + payload + "\n" && Block(word, []) == ""
  {
    assert [payload][..0] == [];
    assert Block(word, []) == "";
    assert "" + word + payload == word + payload;
  }

  ghost predicate Arranged(d: AppDef, keys: seq<string>, ports: seq<string>, deps: seq<string>) {
    && IsSortOf(keys, Keys(d.environments), Compare)
    && IsSortOf(ports, d.ports, Compare)
    && IsSortOf(deps, d.dependsOn, Compare)
  }

  lemma SortedIsSort(sorted: seq<string>, s: seq<string>)
    requires IsSortOf(sorted, s, Compare)
    ensures SortBy(s, Compare) == sorted
  {
    CompareIsOrder();
    SortBySorts(s, Compare);
    hide Compare;
    hide SortBy;
    SortedUnique(SortBy(s, Compare), sorted, Compare);
  }

  lemma OneLineSection(d: AppDef, keys: seq<string>, ports: seq<string>, deps: seq<string>, tag: Tag)
    requires tag == Name || tag == Image || tag == Cmd || tag == ShmSize || tag == Vch
    ensures Sections(d, keys, ports, deps)[Rank(tag)] == Block(Prefix(tag), Payloads(d, tag))
  {
    OneInBlock(Prefix(tag), Payloads(d, tag)[0]);
    hide Block;
    hide Join;
    hide EnvLines;
    hide Spaced;
  }

  lemma OptionalSection(d: AppDef, keys: seq<string>, ports: seq<string>, deps: seq<string>, tag: Tag)
    requires tag == Digest || tag == Mem
    ensures Sections(d, keys, ports, deps)[Rank(tag)] == Block(Prefix(tag), Payloads(d, tag))
  {
    OneInBlock(Prefix(tag), if Payloads(d, tag) == [] then "" else Payloads(d, tag)[0]);
    hide Block;
    hide Join;
    hide EnvLines;
    hide Spaced;
  }

  lemma ListsAre(d: AppDef, keys: seq<string>, ports: seq<string>, deps: seq<string>)
    requires Arranged(d, keys, ports, deps)
    ensures Payloads(d, Env) == EnvLines(keys, d.environments)
    ensures Payloads(d, Port) == ports && Payloads(d, Dep) == deps
    ensures Payloads(d, InitAction) == Spaced(d.initActions)
  {
    SortedIsSort(keys, Keys(d.environments));
    SortedIsSort(ports, d.ports);
    SortedIsSort(deps, d.dependsOn);
    hide SortBy;
    hide Join;
    hide ValueOf;
    hide Keys;
    hide Compare;
    hide IsSortOf;
  }

  lemma SortedSection(d: AppDef, keys: seq<string>, ports: seq<string>, deps: seq<string>, tag: Tag)
    requires Arranged(d, keys, ports, deps) && (tag == Env || tag == Port || tag == Dep)
    ensures Sections(d, keys, ports, deps)[Rank(tag)] == Block(Prefix(tag), Payloads(d, tag))
  {
    ListsAre(d, keys, ports, deps);
    hide Arranged;
    hide Block;
    hide Join;
    hide EnvLines;
    hide Spaced;
    hide EnvPayloads;
    hide Joined;
    hide SortBy;
  }

  lemma GivenSection(d: AppDef, keys: seq<string>, ports: seq<string>, deps: seq<string>, tag: Tag)
    requires Arranged(d, keys, ports, deps) && (tag == Vol || tag == InitAction || tag == InitContainer)
    ensures Sections(d, keys, ports, deps)[Rank(tag)] == Block(Prefix(tag), Payloads(d, tag))
  {
    ListsAre(d, keys, ports, deps);
    hide Arranged;
    hide Block;
    hide Join;
    hide EnvLines;
    hide Spaced;
    hide EnvPayloads;
    hide Joined;
    hide SortBy;
  }

  lemma SectionIs(d: AppDef, keys: seq<string>, ports: seq<string>, deps: seq<string>, tag: Tag)
    requires Arranged(d, keys, ports, deps)
    ensures Rank(tag) < 13 && Sections(d, keys, ports, deps)[Rank(tag)] == Block(Prefix(tag), Payloads(d, tag))
  {
    assert Rank(tag) < 13;
    hide *;
    if tag == Name || tag == Image || tag == Cmd || tag == ShmSize || tag == Vch {
      OneLineSection(d, keys, ports, deps, tag);
    } else if tag == Digest || tag == Mem {
      OptionalSection(d, keys, ports, deps, tag);
    } else if tag == Env || tag == Port || tag == Dep {
      SortedSection(d, keys, ports, deps, tag);
    } else {
      GivenSection(d, keys, ports, deps, tag);
    }
  }

  lemma {:induction false} SectionsUpto(d: AppDef, keys: seq<string>, ports: seq<string>, deps: seq<string>, k: nat)
    requires k <= 13 && Arranged(d, keys, ports, deps)
    ensures |TAGS| == 13 && TextOf(LinesOf(d, TAGS[..k])) == Concat(Sections(d, keys, ports, deps)[..k])
  {
    hide *;
    var sections := Sections(d, keys, ports, deps);
    if k == 0 {
      NoSections(d, sections);
    } else {
      SectionsUpto(d, keys, ports, deps, k - 1);
      assert TAGS[..k] != [] && TAGS[..k][..k - 1] == TAGS[..k - 1] && TAGS[..k][k - 1] == TAGS[k - 1];
      LinesStep(d, TAGS[..k]);
      TextAppend(LinesOf(d, TAGS[..k - 1]), Tagged(TAGS[k - 1], Payloads(d, TAGS[k - 1])));
      BlockIs(TAGS[k - 1], Payloads(d, TAGS[k - 1]));
      SectionIs(d, keys, ports, deps, TAGS[k - 1]);
      RankAt(k - 1);
      OneMoreSection(sections, k - 1);
    }
  }

  lemma RankAt(k: nat)
    requires k < |TAGS|
    ensures Rank(TAGS[k]) == k
  {
  }

  lemma NoSections(d: AppDef, sections: seq<string>)
    ensures |TAGS| == 13 && TextOf(LinesOf(d, TAGS[..0])) == Concat(sections[..0])
  {
    assert TAGS[..0] == [];
  }

  lemma OneMoreSection(sections: seq<string>, k: nat)
    requires k < |sections|
    ensures Concat(sections[..k + 1]) == Concat(sections[..k]) + sections[k]
  {
    assert sections[..k + 1] == sections[..k] + [sections[k]];
    ConcatAppend(sections[..k], [sections[k]]);
    assert [sections[k]][1..] == [];
    assert Concat([sections[k]]) == sections[k];
  }

  /** The hash input is these sections in this order. */
  lemma HashTextIsSections(d: AppDef, keys: seq<string>, ports: seq<string>, deps: seq<string>)
    requires Arranged(d, keys, ports, deps)
    ensures HashText(d) == Concat(Sections(d, keys, ports, deps))
  {
    var sections := Sections(d, keys, ports, deps);
    hide Sections;
    SectionsUpto(d, keys, ports, deps, 13);
    assert TAGS[..13] == TAGS && sections[..13] == sections;
    hide TextOf;
    hide LinesOf;
    hide Concat;
  }
}
