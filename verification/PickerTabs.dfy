/**
 The tabs of the upgrade picker: versions grouped by repository, configured repositories first.

 Inside a tab the versions are sorted by the text of their keys, newest text first, and the first one is
 marked Latest. That is not the order of bundle versions, see `LatestByText`.
 */
module PickerTabs {
  import opened Text
  import opened Ordering
  import BundleKey
  import BundleOrder
  import BundleSelection
  import VersionText

  datatype VersionEntry = VersionEntry(repo: string, key: string, ref: string, current: bool)
  datatype Repo = Repo(id: string, name: string)
  datatype Version = Version(ref: string, caption: string, current: bool, latest: bool)
  datatype Tab = Tab(id: string, name: string, versions: seq<Version>)

  // ----- which tabs, in which order -----

  function Of(versions: seq<VersionEntry>, id: string): seq<VersionEntry> {
    if versions == [] then []
    else Of(versions[..|versions| - 1], id)
         + if versions[|versions| - 1].repo == id then [versions[|versions| - 1]] else []
  }

  /** The repositories of the versions, each once, in the order of their first version. */
  function FirstSeen(versions: seq<VersionEntry>): seq<string> {
    if versions == [] then []
    else
      var before, id := FirstSeen(versions[..|versions| - 1]), versions[|versions| - 1].repo;
      if id in before then before else before + [id]
  }

  /** The configured repositories that have versions, in configuration order. */
  function Known(repos: seq<Repo>, versions: seq<VersionEntry>): seq<string> {
    if repos == [] then []
    else
      var id := repos[|repos| - 1].id;
      Known(repos[..|repos| - 1], versions) + if Of(versions, id) != [] then [id] else []
  }

  function Without(ids: seq<string>, known: seq<string>): seq<string> {
    if ids == [] then []
    else
      var id := ids[|ids| - 1];
      Without(ids[..|ids| - 1], known) + if id in known then [] else [id]
  }

  function TabIds(versions: seq<VersionEntry>, repos: seq<Repo>): seq<string> {
    Known(repos, versions) + Without(FirstSeen(versions), Known(repos, versions))
  }

  /** The configured name of a repository (the last one, if it is listed twice), or its id. */
  function NameOf(repos: seq<Repo>, id: string): string {
    if repos == [] then id
    else
      var repo := repos[|repos| - 1];
      if repo.id == id then if repo.name != "" then repo.name else id else NameOf(repos[..|repos| - 1], id)
  }

  function NewestText(a: VersionEntry, b: VersionEntry): int {
    Compare(b.key, a.key)
  }

  function Shown(entries: seq<VersionEntry>): seq<Version> {
    seq(|entries|, i requires 0 <= i < |entries| => Version(entries[i].ref, entries[i].key, entries[i].current, i == 0))
  }

  function TabFor(versions: seq<VersionEntry>, repos: seq<Repo>, id: string): Tab {
    Tab(id, NameOf(repos, id), Shown(SortBy(Of(versions, id), NewestText)))
  }

  function TabsFor(versions: seq<VersionEntry>, repos: seq<Repo>, ids: seq<string>): seq<Tab> {
    seq(|ids|, i requires 0 <= i < |ids| => TabFor(versions, repos, ids[i]))
  }

  /** `buildPickerTabs` */
  function Tabs(versions: seq<VersionEntry>, repos: seq<Repo>): seq<Tab> {
    TabsFor(versions, repos, TabIds(versions, repos))
  }

  // ----- grouping -----

  lemma {:induction false} OfCount(versions: seq<VersionEntry>, id: string, e: VersionEntry)
    ensures multiset(Of(versions, id))[e] == if e.repo == id then multiset(versions)[e] else 0
  {
    if versions != [] {
      OfCount(versions[..|versions| - 1], id, e);
      assert versions == versions[..|versions| - 1] + [versions[|versions| - 1]];
    }
  }

  lemma {:induction false} OfRepo(versions: seq<VersionEntry>, id: string)
    ensures forall i | 0 <= i < |Of(versions, id)| :: Of(versions, id)[i].repo == id
  {
    if versions != [] {
      OfRepo(versions[..|versions| - 1], id);
    }
  }

  ghost predicate Distinct(ids: seq<string>) {
    forall i, j | 0 <= i < j < |ids| :: ids[i] != ids[j]
  }

  /** The first-seen list has each repository of the versions once, and no other. */
  lemma {:induction false} FirstSeenIs(versions: seq<VersionEntry>, id: string)
    ensures Distinct(FirstSeen(versions))
    ensures id in FirstSeen(versions) <==> Of(versions, id) != []
  {
    if versions != [] {
      FirstSeenIs(versions[..|versions| - 1], id);
    }
  }

  /** The position of the first version of a repository; the number of versions if it has none. */
  function FirstAt(versions: seq<VersionEntry>, id: string): (n: nat)
    ensures n <= |versions|
    ensures n < |versions| ==> versions[n].repo == id
    ensures forall i | 0 <= i < n :: versions[i].repo != id
  {
    if versions == [] then 0
    else
      var n := FirstAt(versions[..|versions| - 1], id);
      if n < |versions| - 1 || versions[|versions| - 1].repo == id then n else n + 1
  }

  /** The first-seen list is in the order of the first versions. */
  lemma {:induction false} FirstSeenOrder(versions: seq<VersionEntry>)
    ensures forall id | id in FirstSeen(versions) :: FirstAt(versions, id) < |versions|
    ensures forall i, j | 0 <= i < j < |FirstSeen(versions)| ::
              FirstAt(versions, FirstSeen(versions)[i]) < FirstAt(versions, FirstSeen(versions)[j])
  {
    if versions != [] {
      var before, last := versions[..|versions| - 1], versions[|versions| - 1].repo;
      FirstSeenOrder(before);
      FirstSeenIs(before, last);
      LaterFirst(before, last);
    }
  }

  lemma {:induction false} LaterFirst(versions: seq<VersionEntry>, id: string)
    ensures Of(versions, id) == [] <==> FirstAt(versions, id) == |versions|
  {
    if versions != [] {
      LaterFirst(versions[..|versions| - 1], id);
    }
  }

  lemma {:induction false} WithoutIs(ids: seq<string>, known: seq<string>, id: string)
    ensures id in Without(ids, known) <==> id in ids && id !in known
    ensures Distinct(ids) ==> Distinct(Without(ids, known))
  {
    if ids != [] {
      var before, last := ids[..|ids| - 1], ids[|ids| - 1];
      assert ids == before + [last];
      WithoutIs(before, known, id);
      WithoutIs(before, known, last);
      assert Distinct(ids) ==> last !in before;
    }
  }

  lemma {:induction false} KnownIs(repos: seq<Repo>, versions: seq<VersionEntry>, id: string)
    ensures id in Known(repos, versions) ==> Of(versions, id) != []
  {
    if repos != [] {
      KnownIs(repos[..|repos| - 1], versions, id);
    }
  }

  /** How often an id is in a list. */
  function Times(ids: seq<string>, id: string): nat {
    if ids == [] then 0 else Times(ids[..|ids| - 1], id) + if ids[|ids| - 1] == id then 1 else 0
  }

  lemma {:induction false} TimesIs(ids: seq<string>, id: string)
    ensures Times(ids, id) == 0 <==> id !in ids
    ensures Distinct(ids) ==> Times(ids, id) <= 1
  {
    if ids != [] {
      var before, last := ids[..|ids| - 1], ids[|ids| - 1];
      assert ids == before + [last];
      TimesIs(before, id);
      assert Distinct(ids) ==> last !in before;
    }
  }

  lemma {:induction false} TimesAppend(a: seq<string>, b: seq<string>, id: string)
    ensures Times(a + b, id) == Times(a, id) + Times(b, id)
  {
    if b == [] {
      assert a + b == a;
    } else {
      assert (a + b)[..|a + b| - 1] == a + b[..|b| - 1];
      TimesAppend(a, b[..|b| - 1], id);
    }
  }

  /** Every repository with versions has a tab; a second tab comes only from a second configuration entry. */
  lemma TabIdsAre(versions: seq<VersionEntry>, repos: seq<Repo>, id: string)
    ensures var n := Times(Known(repos, versions), id);
            Times(TabIds(versions, repos), id) == if n > 0 then n else if Of(versions, id) != [] then 1 else 0
  {
    var known, seen := Known(repos, versions), FirstSeen(versions);
    TimesAppend(known, Without(seen, known), id);
    TimesIs(known, id);
    FirstSeenIs(versions, id);
    WithoutIs(seen, known, id);
    TimesIs(Without(seen, known), id);
  }

  lemma {:induction false} KnownOfBoth(a: seq<Repo>, b: seq<Repo>, versions: seq<VersionEntry>)
    ensures Known(a + b, versions) == Known(a, versions) + Known(b, versions)
  {
    hide Of;
    if b == [] {
      assert a + b == a;
    } else {
      assert (a + b)[..|a + b| - 1] == a + b[..|b| - 1];
      KnownOfBoth(a, b[..|b| - 1], versions);
    }
  }

  lemma KnownOfOne(repo: Repo, versions: seq<VersionEntry>)
    ensures Known([repo], versions) == if Of(versions, repo.id) != [] then [repo.id] else []
  {
    hide Of;
    assert [repo][..0] == [];
    assert Known([], versions) == [];
  }

  lemma {:induction false} ConfiguredIsKnown(repos: seq<Repo>, versions: seq<VersionEntry>, i: nat)
    requires i < |repos| && Of(versions, repos[i].id) != []
    ensures repos[i].id in Known(repos, versions)
  {
    hide Of;
    if i < |repos| - 1 {
      assert repos[i] == repos[..|repos| - 1][i];
      ConfiguredIsKnown(repos[..|repos| - 1], versions, i);
    }
  }

  /**
   The configured repositories come first, and of two configuration entries with versions the tab of the earlier one
   stands first; the other repositories follow, and none of them is configured.
   */
  lemma ConfiguredFirst(versions: seq<VersionEntry>, repos: seq<Repo>, i: nat, j: nat)
    requires i < j < |repos| && Of(versions, repos[i].id) != [] && Of(versions, repos[j].id) != []
    ensures var ids, n, m := TabIds(versions, repos), |Known(repos[..i], versions)|, |Known(repos[..j], versions)|;
            && n < m < |Known(repos, versions)| <= |ids| && ids[n] == repos[i].id && ids[m] == repos[j].id
            && forall k, l | |Known(repos, versions)| <= k < |ids| && 0 <= l < |repos| :: ids[k] != repos[l].id
  {
    var known, seen := Known(repos, versions), FirstSeen(versions);
    var others := Without(seen, known);
    EntryAt(repos, versions, i);
    EntryAt(repos, versions, j);
    EntryAt(repos[..j], versions, i);
    assert repos[..j][..i] == repos[..i];
    forall k, l | 0 <= k < |others| && 0 <= l < |repos| ensures others[k] != repos[l].id {
      assert others[k] in others;
      WithoutIs(seen, known, others[k]);
      FirstSeenIs(versions, others[k]);
      if others[k] == repos[l].id {
        ConfiguredIsKnown(repos, versions, l);
      }
    }
    hide Of;
    hide Known;
    hide Without;
    hide FirstSeen;
  }

  ghost predicate InFirstSeenOrder(ids: seq<string>, versions: seq<VersionEntry>) {
    forall i, j | 0 <= i < j < |ids| :: FirstAt(versions, ids[i]) < FirstAt(versions, ids[j])
  }

  lemma {:induction false} WithoutKeepsOrder(ids: seq<string>, known: seq<string>, versions: seq<VersionEntry>)
    requires InFirstSeenOrder(ids, versions)
    ensures InFirstSeenOrder(Without(ids, known), versions)
  {
    hide FirstAt;
    if ids != [] {
      var before, last := ids[..|ids| - 1], ids[|ids| - 1];
      WithoutKeepsOrder(before, known, versions);
      var others := Without(before, known);
      forall i | 0 <= i < |others| ensures FirstAt(versions, others[i]) < FirstAt(versions, last) {
        assert others[i] in others;
        WithoutIs(before, known, others[i]);
      }
    }
  }

  /** Among themselves the repositories that are not configured stand in the order of their first versions. */
  lemma OthersInOrder(versions: seq<VersionEntry>, repos: seq<Repo>)
    ensures |Known(repos, versions)| <= |TabIds(versions, repos)|
    ensures InFirstSeenOrder(TabIds(versions, repos)[|Known(repos, versions)|..], versions)
  {
    var known := Known(repos, versions);
    FirstSeenOrder(versions);
    WithoutKeepsOrder(FirstSeen(versions), known, versions);
    assert TabIds(versions, repos)[|known|..] == Without(FirstSeen(versions), known);
    hide FirstAt;
    hide Known;
    hide FirstSeen;
    hide Without;
  }

  /** Where the tab of a configuration entry stands. */
  lemma EntryAt(repos: seq<Repo>, versions: seq<VersionEntry>, i: nat)
    requires i < |repos| && Of(versions, repos[i].id) != []
    ensures |Known(repos[..i], versions)| < |Known(repos, versions)|
    ensures Known(repos, versions)[|Known(repos[..i], versions)|] == repos[i].id
  {
    hide *;
    assert repos == repos[..i] + [repos[i]] + repos[i + 1..];
    KnownOfBoth(repos[..i] + [repos[i]], repos[i + 1..], versions);
    KnownOfBoth(repos[..i], [repos[i]], versions);
    KnownOfOne(repos[i], versions);
  }

  // ----- what a tab shows -----

  lemma NewestTextIsOrder()
    ensures IsOrder(NewestText)
  {
    CompareIsOrder();
    hide Compare;
    forall a, b, c | AtMost(NewestText, a, b) && AtMost(NewestText, b, c) ensures AtMost(NewestText, a, c) {
      assert AtMost(Compare, c.key, b.key) && AtMost(Compare, b.key, a.key);
    }
  }

  /** The version entries that a tab stands for. */
  function Restored(tab: Tab): seq<VersionEntry> {
    seq(|tab.versions|, i requires 0 <= i < |tab.versions| =>
          VersionEntry(tab.id, tab.versions[i].caption, tab.versions[i].ref, tab.versions[i].current))
  }

  lemma SortedOf(versions: seq<VersionEntry>, id: string)
    ensures IsStableSortOf(SortBy(Of(versions, id), NewestText), Of(versions, id), NewestText)
    ensures forall i | 0 <= i < |SortBy(Of(versions, id), NewestText)| ::
              SortBy(Of(versions, id), NewestText)[i].repo == id
  {
    NewestTextIsOrder();
    SortByIsStable(Of(versions, id), NewestText);
    OfRepo(versions, id);
    var s, r := Of(versions, id), SortBy(Of(versions, id), NewestText);
    hide SortBy;
    hide Of;
    forall i | 0 <= i < |r| ensures r[i].repo == id {
      assert r[i] in multiset(r);
      assert r[i] in multiset(s);
    }
  }

  /**
   A tab shows the versions of its own repository, all of them, newest text first and otherwise in the order
   given, and marks the first one Latest and no other.
   */
  lemma TabShows(versions: seq<VersionEntry>, repos: seq<Repo>, id: string)
    ensures IsStableSortOf(Restored(TabFor(versions, repos, id)), Of(versions, id), NewestText)
    ensures forall i | 0 <= i < |TabFor(versions, repos, id).versions| ::
              TabFor(versions, repos, id).versions[i].latest <==> i == 0
  {
    SortedOf(versions, id);
    hide IsStableSortOf;
    hide NameOf;
    var sorted := SortBy(Of(versions, id), NewestText);
    hide SortBy;
    assert Restored(TabFor(versions, repos, id)) == sorted;
  }

  /** The last entry for a repository in the configuration. */
  predicate IsLastEntry(repos: seq<Repo>, id: string, i: int) {
    0 <= i < |repos| && repos[i].id == id && forall j | i < j < |repos| :: repos[j].id != id
  }

  /** A repository goes by the name in its last configuration entry; by its id, if that is empty or there is none. */
  lemma {:induction false} NamesAre(repos: seq<Repo>, id: string)
    ensures (forall i | 0 <= i < |repos| :: repos[i].id != id) ==> NameOf(repos, id) == id
    ensures forall i | IsLastEntry(repos, id, i) ::
              NameOf(repos, id) == if repos[i].name == "" then id else repos[i].name
  {
    if repos != [] {
      var before, last := repos[..|repos| - 1], repos[|repos| - 1];
      NamesAre(before, id);
      assert forall i | 0 <= i < |before| :: before[i] == repos[i];
      forall i | IsLastEntry(repos, id, i)
        ensures NameOf(repos, id) == if repos[i].name == "" then id else repos[i].name
      {
        assert last.id == id ==> i == |repos| - 1;
        assert last.id != id ==> IsLastEntry(before, id, i);
      }
    }
  }

  /** What stands on each tab: its repository and that repository's name. */
  lemma TabsAreNamed(versions: seq<VersionEntry>, repos: seq<Repo>, k: nat)
    requires k < |Tabs(versions, repos)|
    ensures var tab := Tabs(versions, repos)[k];
            && tab.id == TabIds(versions, repos)[k]
            && ((forall i | 0 <= i < |repos| :: repos[i].id != tab.id) ==> tab.name == tab.id)
            && forall i | IsLastEntry(repos, tab.id, i) ::
                 tab.name == if repos[i].name == "" then tab.id else repos[i].name
  {
    NamesAre(repos, TabIds(versions, repos)[k]);
    hide TabIds;
    hide NameOf;
    hide SortBy;
    hide Of;
    hide IsLastEntry;
  }

  /** Each tab has a Latest. */
  lemma TabsNotEmpty(versions: seq<VersionEntry>, repos: seq<Repo>, k: nat)
    requires k < |Tabs(versions, repos)|
    ensures Tabs(versions, repos)[k].versions != [] && Tabs(versions, repos)[k].versions[0].latest
  {
    hide SortBy;
    hide NameOf;
    var ids := TabIds(versions, repos);
    var id := ids[k];
    TabIdsAre(versions, repos, id);
    TimesIs(ids, id);
    assert id in ids;
    KnownIs(repos, versions, id);
    TimesIs(Known(repos, versions), id);
    SortedOf(versions, id);
    assert |multiset(SortBy(Of(versions, id), NewestText))| == |multiset(Of(versions, id))|;
  }

  // ----- conservation -----

  function Entries(tabs: seq<Tab>): seq<VersionEntry> {
    if tabs == [] then [] else Entries(tabs[..|tabs| - 1]) + Restored(tabs[|tabs| - 1])
  }

  function Product(n: nat, m: nat): nat {
    n * m
  }

  lemma ProductStep(n: nat, m: nat)
    ensures Product(0, m) == 0 && Product(1, m) == m && Product(n + 1, m) == Product(n, m) + m
    ensures n >= 2 ==> Product(n, m) >= m + m
  {
    if n >= 2 {
      assert n * m == (n - 2) * m + m + m;
    }
  }

  lemma {:induction false} EntriesCount(versions: seq<VersionEntry>, repos: seq<Repo>, ids: seq<string>,
                                        e: VersionEntry)
    ensures multiset(Entries(TabsFor(versions, repos, ids)))[e] == Product(Times(ids, e.repo), multiset(versions)[e])
  {
    hide *;
    if ids == [] {
      EntriesNone(versions, repos, e);
    } else {
      var before, id := ids[..|ids| - 1], ids[|ids| - 1];
      EntriesCount(versions, repos, before, e);
      EntriesOneMore(versions, repos, before, id, e);
      assert ids == before + [id];
    }
  }

  lemma EntriesNone(versions: seq<VersionEntry>, repos: seq<Repo>, e: VersionEntry)
    ensures multiset(Entries(TabsFor(versions, repos, [])))[e] == Product(Times([], e.repo), multiset(versions)[e])
  {
    hide TabFor;
    assert TabsFor(versions, repos, []) == [];
  }

  lemma EntriesOneMore(versions: seq<VersionEntry>, repos: seq<Repo>, before: seq<string>, id: string, e: VersionEntry)
    requires multiset(Entries(TabsFor(versions, repos, before)))[e] ==
             Product(Times(before, e.repo), multiset(versions)[e])
    ensures multiset(Entries(TabsFor(versions, repos, before + [id])))[e] ==
            Product(Times(before + [id], e.repo), multiset(versions)[e])
  {
    hide *;
    EntriesStep(versions, repos, before, id);
    TabEntries(versions, repos, id, e);
    TimesStep(before, id, e.repo);
    ProductStep(Times(before, e.repo), multiset(versions)[e]);
  }

  lemma EntriesStep(versions: seq<VersionEntry>, repos: seq<Repo>, before: seq<string>, id: string)
    ensures Entries(TabsFor(versions, repos, before + [id])) ==
            Entries(TabsFor(versions, repos, before)) + Restored(TabFor(versions, repos, id))
  {
    hide TabFor;
    hide Restored;
    var tabs := TabsFor(versions, repos, before + [id]);
    assert tabs[..|before|] == TabsFor(versions, repos, before);
  }

  lemma TabEntries(versions: seq<VersionEntry>, repos: seq<Repo>, id: string, e: VersionEntry)
    ensures multiset(Restored(TabFor(versions, repos, id)))[e] == if e.repo == id then multiset(versions)[e] else 0
  {
    hide Restored;
    hide TabFor;
    hide Of;
    TabShows(versions, repos, id);
    OfCount(versions, id, e);
  }

  lemma TimesStep(before: seq<string>, last: string, id: string)
    ensures Times(before + [last], id) == Times(before, id) + if last == id then 1 else 0
  {
    assert (before + [last])[..|before|] == before;
  }

  /** No repository that has versions is configured twice. */
  ghost predicate ConfiguredOnce(versions: seq<VersionEntry>, repos: seq<Repo>) {
    forall id :: Times(Known(repos, versions), id) <= 1
  }

  /**
   The tabs show every version exactly as often as it was given, exactly when no repository that has versions
   is configured twice.
   */
  lemma TabsConserve(versions: seq<VersionEntry>, repos: seq<Repo>)
    ensures multiset(Entries(Tabs(versions, repos))) == multiset(versions) <==> ConfiguredOnce(versions, repos)
  {
    hide *;
    var shown, given := multiset(Entries(Tabs(versions, repos))), multiset(versions);
    TabsAre(versions, repos);
    forall e ensures shown[e] == Product(Times(TabIds(versions, repos), e.repo), given[e]) {
      EntriesCount(versions, repos, TabIds(versions, repos), e);
    }
    if ConfiguredOnce(versions, repos) {
      forall e ensures shown[e] == given[e] {
        OnceShown(versions, repos, e);
      }
    } else {
      var e := ShownTwice(versions, repos);
      assert shown[e] > given[e];
    }
  }

  lemma TabsAre(versions: seq<VersionEntry>, repos: seq<Repo>)
    ensures Tabs(versions, repos) == TabsFor(versions, repos, TabIds(versions, repos))
  {
  }

  lemma OnceShown(versions: seq<VersionEntry>, repos: seq<Repo>, e: VersionEntry)
    requires ConfiguredOnce(versions, repos)
    ensures Product(Times(TabIds(versions, repos), e.repo), multiset(versions)[e]) == multiset(versions)[e]
  {
    hide Known;
    hide TabIds;
    hide Times;
    hide Product;
    var m := multiset(versions)[e];
    ProductStep(0, m);
    TabIdsAre(versions, repos, e.repo);
    GivenSomewhere(versions, e);
    assert Times(Known(repos, versions), e.repo) <= 1;
  }

  lemma GivenSomewhere(versions: seq<VersionEntry>, e: VersionEntry)
    ensures Of(versions, e.repo) == [] ==> multiset(versions)[e] == 0
  {
    OfCount(versions, e.repo, e);
  }

  lemma ShownTwice(versions: seq<VersionEntry>, repos: seq<Repo>) returns (e: VersionEntry)
    requires !ConfiguredOnce(versions, repos)
    ensures Product(Times(TabIds(versions, repos), e.repo), multiset(versions)[e]) > multiset(versions)[e]
  {
    hide Known;
    hide TabIds;
    hide Times;
    hide Product;
    var id :| Times(Known(repos, versions), id) > 1;
    TabIdsAre(versions, repos, id);
    TimesIs(Known(repos, versions), id);
    KnownIs(repos, versions, id);
    e := OneOf(versions, id);
    ProductStep(Times(TabIds(versions, repos), id), multiset(versions)[e]);
  }

  lemma OneOf(versions: seq<VersionEntry>, id: string) returns (e: VersionEntry)
    requires Of(versions, id) != []
    ensures e.repo == id && multiset(versions)[e] > 0
  {
    OfRepo(versions, id);
    e := Of(versions, id)[0];
    OfCount(versions, id, e);
    hide Of;
    assert e in multiset(Of(versions, id));
  }

  // ----- Latest is by text -----

  /** Of "2025.10" and "2025.9" the picker marks the older one, "2025.9", as the latest. */
  lemma LatestByText(year: string, repo: string)
    requires BundleOrder.IsVersion(year)
    ensures var older := VersionEntry(repo, year + "." + "9", "", false);
            var newer := VersionEntry(repo, year + "." + "10", "", false);
            && SortBy([older, newer], NewestText)[0] == older && SortBy([newer, older], NewestText)[0] == older
            && BundleOrder.CompareVersions(newer.key, older.key) == 1
  {
    hide BundleOrder.CompareVersions;
    var older := VersionEntry(repo, year + "." + "9", "", false);
    var newer := VersionEntry(repo, year + "." + "10", "", false);
    BundleOrder.TextOrderDisagrees(year);
    CompareIsOrder();
    assert Compare(older.key, newer.key) == -Compare(newer.key, older.key);
    hide Compare;
    SortTwo(older, newer);
    SortTwo(newer, older);
  }

  /**
   Of two versions that differ in their last part the picker marks the latest exactly where the widths agree:
   the parts are equally wide, or the shorter one is smaller as text too.
   */
  lemma LatestOfTwo(v: string, a: string, b: string, x: VersionEntry, y: VersionEntry)
    requires BundleKey.IsNumeric(v) && VersionText.IsPlain(a) && VersionText.IsPlain(b)
    requires x.key == v + "." + a && y.key == v + "." + b
    ensures var marked := SortBy([x, y], NewestText)[0].key;
            BundleOrder.CompareVersions(x.key, marked) <= 0 && BundleOrder.CompareVersions(y.key, marked) <= 0 <==>
            VersionText.WidthsAgree(a, b)
  {
    VersionText.LastPartAgrees(v, a, b);
    BundleOrder.VersionsFlip(x.key, y.key);
    BundleOrder.VersionsFlip(x.key, x.key);
    BundleOrder.VersionsFlip(y.key, y.key);
    CompareIsOrder();
    assert Compare(x.key, y.key) == -Compare(y.key, x.key);
    SortTwo(x, y);
    hide Compare;
    hide BundleOrder.CompareVersions;
    hide VersionText.IsPlain;
    hide VersionText.WidthsAgree;
    hide SortBy;
  }

  // ----- when the mark is right -----

  function KeysOf(entries: seq<VersionEntry>): seq<string> {
    seq(|entries|, i requires 0 <= i < |entries| => entries[i].key)
  }

  /** Bare versions, all of one shape. */
  ghost predicate Uniform(keys: seq<string>) {
    && (forall i | 0 <= i < |keys| :: VersionText.IsBare(keys[i]))
    && (forall i, j | 0 <= i < |keys| && 0 <= j < |keys| :: VersionText.SameShape(keys[i], keys[j]))
  }

  /** What stands first in a tab is one of its versions, and the last as text. */
  lemma MarkedIs(versions: seq<VersionEntry>, repos: seq<Repo>, k: nat)
    requires k < |Tabs(versions, repos)|
    ensures var tab := Tabs(versions, repos)[k]; var keys := KeysOf(Of(versions, tab.id));
            && tab.versions != [] && tab.versions[0].caption in keys
            && forall key | key in keys :: Compare(key, tab.versions[0].caption) <= 0
  {
    TabsNotEmpty(versions, repos, k);
    var tab := Tabs(versions, repos)[k];
    var given := Of(versions, tab.id);
    var sorted := SortBy(given, NewestText);
    SortedOf(versions, tab.id);
    assert tab.versions == Shown(sorted) by {
      hide SortBy;
      hide Of;
    }
    hide TabFor;
    hide SortBy;
    hide Of;
    hide TabIds;
    hide Compare;
    FirstIsMost(given, sorted);
  }

  lemma FirstIsMost(given: seq<VersionEntry>, sorted: seq<VersionEntry>)
    requires IsSortOf(sorted, given, NewestText) && sorted != []
    ensures sorted[0].key in KeysOf(given)
    ensures forall key | key in KeysOf(given) :: Compare(key, sorted[0].key) <= 0
  {
    hide Compare;
    assert sorted[0] in multiset(sorted) && sorted[0] in multiset(given);
    var i :| 0 <= i < |given| && given[i] == sorted[0];
    assert KeysOf(given)[i] == sorted[0].key;
    forall key | key in KeysOf(given) ensures Compare(key, sorted[0].key) <= 0 {
      var j :| 0 <= j < |given| && given[j].key == key;
      assert given[j] in multiset(given) && given[j] in multiset(sorted);
      var l :| 0 <= l < |sorted| && sorted[l] == given[j];
      CompareSelf(key);
    }
  }

  lemma CompareSelf(key: string)
    ensures Compare(key, key) == 0
  {
    CompareIsOrder();
  }

  /** Keys of one shape are accepted together: the first part of each is empty, or none is. */
  lemma AcceptedTogether(x: string, y: string)
    requires VersionText.IsBare(x) && VersionText.IsBare(y) && VersionText.SameShape(x, y)
    requires BundleSelection.IsAccepted(x)
    ensures BundleSelection.IsAccepted(y)
  {
    StartsWithDigit(x);
    StartsWithDigit(y);
  }

  lemma StartsWithDigit(x: string)
    requires BundleKey.IsNumeric(x)
    ensures BundleSelection.IsAccepted(x) <==> Split(x, '.')[0] != ""
  {
    BundleKey.NumericIsFlat(x);
  }

  /**
   In a tab of bare versions of one shape, equally many parts of equal widths, the mark is right: it stands at
   the very version that counts as the latest bundle among them.
   */
  lemma LatestIsRight(versions: seq<VersionEntry>, repos: seq<Repo>, k: nat, latest: string)
    requires k < |Tabs(versions, repos)|
    requires Uniform(KeysOf(Of(versions, Tabs(versions, repos)[k].id)))
    requires BundleSelection.IsLatest(KeysOf(Of(versions, Tabs(versions, repos)[k].id)), latest)
    ensures Tabs(versions, repos)[k].versions != [] && Tabs(versions, repos)[k].versions[0].caption == latest
  {
    var keys := KeysOf(Of(versions, Tabs(versions, repos)[k].id));
    MarkedIs(versions, repos, k);
    hide Of;
    hide KeysOf;
    hide Tabs;
    var marked := Tabs(versions, repos)[k].versions[0].caption;
    var i :| 0 <= i < |keys| && keys[i] == latest && BundleSelection.IsFirstHighest(keys, i);
    var j :| 0 <= j < |keys| && keys[j] == marked;
    AcceptedTogether(latest, marked);
    VersionText.SameShapeAgrees(latest, marked);
    VersionText.SameShapeAgrees(marked, latest);
    CompareIsOrder();
    hide Compare;
    hide BundleOrder.CompareVersions;
    hide BundleSelection.IsAccepted;
    assert Compare(latest, marked) <= 0 && Compare(marked, latest) <= 0;
  }

  /** Versions as they are usually written: numbers of 64 bits between dots, no zero in front of other digits. */
  ghost predicate Plain(keys: seq<string>) {
    forall i | 0 <= i < |keys| :: VersionText.IsPlainVersion(keys[i])
  }

  ghost predicate NoneHigher(keys: seq<string>, marked: string) {
    forall i | 0 <= i < |keys| :: BundleOrder.CompareVersions(keys[i], marked) <= 0
  }

  /** Against every other key, the first part that differs agrees in width with the marked one's. */
  ghost predicate MarkAgrees(keys: seq<string>, marked: string) {
    forall i | 0 <= i < |keys| :: VersionText.FirstPartsAgree(keys[i], marked)
  }

  /**
   In a tab of such versions the mark is right, no key is higher and the latest bundle among them ties with it,
   exactly when it agrees with every other key in the first part that differs.
   */
  lemma MarkIsRightIff(versions: seq<VersionEntry>, repos: seq<Repo>, k: nat)
    requires k < |Tabs(versions, repos)|
    requires Plain(KeysOf(Of(versions, Tabs(versions, repos)[k].id)))
    ensures Tabs(versions, repos)[k].versions != []
    ensures var tab := Tabs(versions, repos)[k];
            var keys, marked := KeysOf(Of(versions, tab.id)), tab.versions[0].caption;
            && (NoneHigher(keys, marked) <==> MarkAgrees(keys, marked))
            && forall latest | BundleSelection.IsLatest(keys, latest) ::
                 BundleOrder.CompareVersions(latest, marked) == 0 <==> MarkAgrees(keys, marked)
  {
    MarkedIs(versions, repos, k);
    hide *;
    var tab := Tabs(versions, repos)[k];
    var keys, marked := KeysOf(Of(versions, tab.id)), tab.versions[0].caption;
    NoneHigherIff(keys, marked);
    forall latest | BundleSelection.IsLatest(keys, latest)
      ensures BundleOrder.CompareVersions(latest, marked) == 0 <==> NoneHigher(keys, marked)
    {
      LatestTiesIff(keys, marked, latest);
    }
  }

  lemma NoneHigherIff(keys: seq<string>, marked: string)
    requires Plain(keys) && marked in keys && forall key | key in keys :: Compare(key, marked) <= 0
    ensures NoneHigher(keys, marked) <==> MarkAgrees(keys, marked)
  {
    hide Compare;
    hide BundleOrder.CompareVersions;
    hide VersionText.FirstPartsAgree;
    hide VersionText.IsPlainVersion;
    forall i | 0 <= i < |keys|
      ensures BundleOrder.CompareVersions(keys[i], marked) <= 0 <==> VersionText.FirstPartsAgree(keys[i], marked)
    {
      VersionText.FirstPartsDecide(keys[i], marked);
    }
  }

  /** The latest of plain versions ties with a key exactly when no key is higher. */
  lemma LatestTiesIff(keys: seq<string>, marked: string, latest: string)
    requires Plain(keys) && marked in keys && BundleSelection.IsLatest(keys, latest)
    ensures BundleOrder.CompareVersions(latest, marked) == 0 <==> NoneHigher(keys, marked)
  {
    hide BundleOrder.CompareVersions;
    hide VersionText.IsPlainVersion;
    hide BundleSelection.IsAccepted;
    var i :| 0 <= i < |keys| && keys[i] == latest && BundleSelection.IsFirstHighest(keys, i);
    var j :| 0 <= j < |keys| && keys[j] == marked;
    forall l | 0 <= l < |keys| ensures BundleOrder.CompareVersions(keys[l], latest) <= 0 {
      PlainIsAccepted(keys[l]);
    }
    BundleOrder.VersionsFlip(marked, latest);
    if BundleOrder.CompareVersions(latest, marked) == 0 {
      forall l | 0 <= l < |keys| ensures BundleOrder.CompareVersions(keys[l], marked) <= 0 {
        BundleOrder.VersionsTransitive(keys[l], latest, marked);
      }
    }
  }

  lemma PlainIsAccepted(key: string)
    requires VersionText.IsPlainVersion(key)
    ensures BundleSelection.IsAccepted(key)
  {
    assert VersionText.IsPlain(Split(key, '.')[0]);
    StartsWithDigit(key);
    hide Split;
    hide BundleSelection.IsAccepted;
  }

  lemma SortTwo(a: VersionEntry, b: VersionEntry)
    ensures SortBy([a, b], NewestText)[0] == if NewestText(a, b) <= 0 then a else b
  {
    hide Compare;
    assert [a, b][1..] == [b] && [b][1..] == [];
    assert SortBy([b], NewestText) == [b];
  }

  // ----- the loops of the source -----

  lemma {:induction false} SortOfSorted<T(!new)>(s: seq<T>, cmp: (T, T) -> int)
    requires Sorted(s, cmp)
    ensures SortBy(s, cmp) == s
  {
    if s != [] {
      assert s == [s[0]] + s[1..];
      SortOfSorted(s[1..], cmp);
      assert |s| > 1 ==> cmp(s[0], s[1]) <= 0;
    }
  }

  /** Sorting a group again, for a repository that is configured twice, changes nothing. */
  lemma SortTwice(versions: seq<VersionEntry>, id: string)
    ensures var sorted := SortBy(Of(versions, id), NewestText); SortBy(sorted, NewestText) == sorted
  {
    SortedOf(versions, id);
    hide Of;
    SortOfSorted(SortBy(Of(versions, id), NewestText), NewestText);
  }

  method GroupByRepo(versions: seq<VersionEntry>)
    returns (byRepo: map<string, seq<VersionEntry>>, order: seq<string>)
    ensures order == FirstSeen(versions)
    ensures forall id :: id in byRepo <==> Of(versions, id) != []
    ensures forall id | id in byRepo :: byRepo[id] == Of(versions, id)
  {
    byRepo, order := map[], [];
    for i := 0 to |versions|
      invariant order == FirstSeen(versions[..i])
      invariant forall id :: id in byRepo <==> Of(versions[..i], id) != []
      invariant forall id | id in byRepo :: byRepo[id] == Of(versions[..i], id)
    {
      var v := versions[i];
      assert versions[..i + 1][..i] == versions[..i];
      FirstSeenIs(versions[..i], v.repo);
      if v.repo !in byRepo {
        order := order + [v.repo];
        byRepo := byRepo[v.repo := []];
      }
      byRepo := byRepo[v.repo := byRepo[v.repo] + [v]];
    }
    assert versions[..|versions|] == versions;
  }

  method OrderIds(versions: seq<VersionEntry>, repos: seq<Repo>, byRepo: map<string, seq<VersionEntry>>,
                  order: seq<string>)
    returns (orderedIDs: seq<string>, names: map<string, string>)
    requires order == FirstSeen(versions)
    requires forall id :: id in byRepo <==> Of(versions, id) != []
    ensures orderedIDs == TabIds(versions, repos)
    ensures forall id :: NameOf(repos, id) == NameIn(names, id)
  {
    hide *;
    var seen: set<string> := {};
    names, orderedIDs := map[], [];
    ListsStart(versions, repos[..0], order[..0], []);
    for i := 0 to |repos|
      invariant orderedIDs == Known(repos[..i], versions)
      invariant forall id :: id in seen <==> id in orderedIDs
      invariant forall id :: NameOf(repos[..i], id) == NameIn(names, id)
    {
      var repo := repos[i];
      KnownStep(versions, repos, i);
      NamesStep(repos, i, names);
      names := names[repo.id := repo.name];
      if repo.id in byRepo {
        orderedIDs := orderedIDs + [repo.id];
        seen := seen + {repo.id};
      }
    }
    assert repos[..|repos|] == repos;
    ghost var known := orderedIDs;
    ListsStart(versions, repos[..0], order[..0], known);
    assert known + [] == known;
    for i := 0 to |order|
      invariant orderedIDs == known + Without(order[..i], known)
    {
      WithoutStep(order, known, i);
      if order[i] !in seen {
        orderedIDs := orderedIDs + [order[i]];
      }
    }
    assert order[..|order|] == order;
    TabIdsHave(versions, repos);
  }

  /** The name the source looks up in its table of configured names. */
  function NameIn(names: map<string, string>, id: string): string {
    if id in names && names[id] != "" then names[id] else id
  }

  lemma ListsStart(versions: seq<VersionEntry>, noRepos: seq<Repo>, noIds: seq<string>, known: seq<string>)
    requires noRepos == [] && noIds == []
    ensures Known(noRepos, versions) == [] && Without(noIds, known) == []
    ensures forall id :: NameOf(noRepos, id) == NameIn(map[], id)
  {
  }

  lemma KnownStep(versions: seq<VersionEntry>, repos: seq<Repo>, k: nat)
    requires k < |repos|
    ensures Known(repos[..k + 1], versions) ==
            Known(repos[..k], versions) + if Of(versions, repos[k].id) != [] then [repos[k].id] else []
  {
    hide Of;
    assert repos[..k + 1][..k] == repos[..k];
  }

  lemma NamesStep(repos: seq<Repo>, k: nat, names: map<string, string>)
    requires k < |repos|
    requires forall id :: NameOf(repos[..k], id) == NameIn(names, id)
    ensures var upTo, named := repos[..k + 1], names[repos[k].id := repos[k].name];
            forall id :: NameOf(upTo, id) == NameIn(named, id)
  {
    assert repos[..k + 1][..k] == repos[..k];
  }

  lemma WithoutStep(ids: seq<string>, known: seq<string>, k: nat)
    requires k < |ids|
    ensures Without(ids[..k + 1], known) == Without(ids[..k], known) + if ids[k] in known then [] else [ids[k]]
  {
    assert ids[..k + 1][..k] == ids[..k];
  }

  lemma TabIdsHave(versions: seq<VersionEntry>, repos: seq<Repo>)
    ensures TabIds(versions, repos) == Known(repos, versions) + Without(FirstSeen(versions), Known(repos, versions))
  {
  }

  /** Every group is the versions of its repository, as given or already sorted. */
  ghost predicate Grouped(byRepo: map<string, seq<VersionEntry>>, versions: seq<VersionEntry>) {
    && (forall id :: Of(versions, id) != [] ==> id in byRepo)
    && (forall id | id in byRepo ::
          byRepo[id] == Of(versions, id) || byRepo[id] == SortBy(Of(versions, id), NewestText))
  }

  /** Groups, orders the groups, and sorts each group where it stands. */
  method BuildPickerTabs(versions: seq<VersionEntry>, repos: seq<Repo>) returns (tabs: seq<Tab>)
    ensures tabs == Tabs(versions, repos)
  {
    var byRepo, order := GroupByRepo(versions);
    var orderedIDs, names := OrderIds(versions, repos, byRepo, order);
    hide *;
    GroupsStart(byRepo, versions);
    TabsNone(versions, repos);
    tabs := [];
    for i := 0 to |orderedIDs|
      invariant tabs == TabsFor(versions, repos, orderedIDs[..i])
      invariant Grouped(byRepo, versions)
    {
      var id := orderedIDs[i];
      HasVersions(versions, repos, i);
      SortsGroup(byRepo, versions, id);
      OneMoreTab(versions, repos, orderedIDs, i);
      var entries := byRepo[id];
      entries := SortBy(entries, NewestText);
      byRepo := byRepo[id := entries];
      var name := NameIn(names, id);
      tabs := tabs + [Tab(id, name, Shown(entries))];
    }
    assert orderedIDs[..|orderedIDs|] == orderedIDs;
    TabsAre(versions, repos);
  }

  lemma GroupsStart(byRepo: map<string, seq<VersionEntry>>, versions: seq<VersionEntry>)
    requires forall id :: id in byRepo <==> Of(versions, id) != []
    requires forall id | id in byRepo :: byRepo[id] == Of(versions, id)
    ensures Grouped(byRepo, versions)
  {
    hide Of;
    hide SortBy;
  }

  lemma SortsGroup(byRepo: map<string, seq<VersionEntry>>, versions: seq<VersionEntry>, id: string)
    requires Grouped(byRepo, versions) && Of(versions, id) != []
    ensures id in byRepo && byRepo[id] != []
    ensures SortBy(byRepo[id], NewestText) == SortBy(Of(versions, id), NewestText)
    ensures Grouped(byRepo[id := SortBy(byRepo[id], NewestText)], versions)
  {
    SortTwice(versions, id);
    SortedLength(Of(versions, id));
    hide Of;
    hide SortBy;
    hide NewestText;
  }

  lemma TabsNone(versions: seq<VersionEntry>, repos: seq<Repo>)
    ensures TabsFor(versions, repos, []) == []
  {
  }

  lemma OneMoreTab(versions: seq<VersionEntry>, repos: seq<Repo>, ids: seq<string>, k: nat)
    requires k < |ids|
    ensures TabsFor(versions, repos, ids[..k + 1]) ==
            TabsFor(versions, repos, ids[..k]) +
            [Tab(ids[k], NameOf(repos, ids[k]), Shown(SortBy(Of(versions, ids[k]), NewestText)))]
  {
    hide SortBy;
    hide Of;
    hide NameOf;
    hide Shown;
  }

  lemma SortedLength(entries: seq<VersionEntry>)
    ensures |SortBy(entries, NewestText)| == |entries|
  {
    NewestTextIsOrder();
    SortBySorts(entries, NewestText);
    hide SortBy;
    assert |multiset(SortBy(entries, NewestText))| == |multiset(entries)|;
  }

  /** The guard against an empty group in the source never fires. */
  lemma HasVersions(versions: seq<VersionEntry>, repos: seq<Repo>, k: nat)
    requires k < |TabIds(versions, repos)|
    ensures Of(versions, TabIds(versions, repos)[k]) != []
  {
    var ids := TabIds(versions, repos);
    TabIdsAre(versions, repos, ids[k]);
    TimesIs(ids, ids[k]);
    KnownIs(repos, versions, ids[k]);
    TimesIs(Known(repos, versions), ids[k]);
  }
}
