/**
 Listing the versions of a bundles directory and choosing the latest.

 The directory walk is the finite sequence of keys it yields, in walk order; None is a directory that does
 not exist. A key is accepted when its last path segment starts with a digit.

 The list is every accepted key, newest first; the latest is the first of the highest accepted keys in walk
 order. Neither depends on how the other is computed, so what ties them together is proved about any list and
 any latest key that meet these descriptions: the latest key and the head of the list have one meaning. Keys
 that tie in the order may come in any order in the list, and which of them is the latest depends on the walk,
 but not what it means.
 */
module BundleSelection {
  import opened Text
  import opened Ordering
  import opened BundleKey
  import opened BundleOrder

  datatype Result<+T> = Ok(value: T) | NoBundles

  /** A key counts as a version when its last path segment starts with a digit. */
  predicate IsAccepted(key: string) {
    var name := FinalSegment(key);
    name != "" && '0' <= name[0] <= '9'
  }

  /** The last path segment of a key starts at `i`, with a digit. */
  predicate VersionStartsAt(key: string, i: int) {
    && 0 <= i < |key| && 0x30 <= key[i] as int <= 0x39
    && (i > 0 ==> key[i - 1] == '/')
    && forall j | i < j < |key| :: key[j] != '/'
  }

  /** What is accepted, said of the bytes of the key alone. */
  ghost predicate LooksLikeVersion(key: string) {
    exists i :: VersionStartsAt(key, i)
  }

  lemma AcceptedIff(key: string)
    ensures IsAccepted(key) <==> LooksLikeVersion(key)
  {
    var at := LastIndexOf(key, '/') + 1;
    NameOf(key, at);
    if IsAccepted(key) {
      assert VersionStartsAt(key, at);
    }
    hide IsAccepted;
    hide LastIndexOf;
    if i :| VersionStartsAt(key, i) {
      OneLastSegment(key, i);
    }
  }

  lemma NameOf(key: string, at: nat)
    requires at == LastIndexOf(key, '/') + 1
    ensures IsAccepted(key) <==> at < |key| && 0x30 <= key[at] as int <= 0x39
    ensures at > 0 ==> key[at - 1] == '/'
    ensures forall j | at <= j < |key| :: key[j] != '/'
  {
    assert FinalSegment(key) == key[at..];
  }

  lemma OneLastSegment(key: string, i: nat)
    requires VersionStartsAt(key, i)
    ensures i == LastIndexOf(key, '/') + 1
  {
    hide FinalSegment;
  }

  /** A scope in front never matters; without one, a key is accepted when it starts with a digit. */
  lemma ScopeDoesNotMatter(scope: string, name: string)
    requires Free(name, '/')
    ensures IsAccepted(scope + "/" + name) <==> IsAccepted(name)
    ensures IsAccepted(name) <==> name != "" && 0x30 <= name[0] as int <= 0x39
  {
    hide *;
    ScopedKey(scope, name);
    WithoutSlash(name);
    AcceptedByName(scope + "/" + name, name);
    AcceptedByName(name, name);
  }

  lemma AcceptedByName(key: string, name: string)
    requires FinalSegment(key) == name
    ensures IsAccepted(key) <==> name != "" && 0x30 <= name[0] as int <= 0x39
  {
    hide FinalSegment;
  }

  function Accepted(walk: seq<string>): seq<string> {
    if walk == [] then []
    else Accepted(walk[..|walk| - 1]) + if IsAccepted(walk[|walk| - 1]) then [walk[|walk| - 1]] else []
  }

  lemma {:induction false} AcceptedMembers(walk: seq<string>, key: string)
    ensures key in Accepted(walk) <==> key in walk && IsAccepted(key)
  {
    if walk != [] {
      var last := walk[|walk| - 1];
      assert walk == walk[..|walk| - 1] + [last];
      AcceptedMembers(walk[..|walk| - 1], key);
    }
  }

  /** Newest first. */
  function Descending(a: string, b: string): int {
    CompareVersions(b, a)
  }

  lemma DescendingIsOrder()
    ensures IsOrder(Descending)
  {
    hide CompareVersions;
    forall a, b ensures Descending(a, b) == -Descending(b, a) && -1 <= Descending(a, b) <= 1 {
      VersionsFlip(a, b);
    }
    forall a, b, c | AtMost(Descending, a, b) && AtMost(Descending, b, c) ensures AtMost(Descending, a, c) {
      VersionsTransitive(c, b, a);
    }
  }

  /** `slices.SortFunc`: only its promise is used, so nothing below depends on how ties are arranged. */
  method SortVersions(s: seq<string>) returns (r: seq<string>)
    ensures IsSortOf(r, s, Descending)
  {
    DescendingIsOrder();
    SortBySorts(s, Descending);
    r := SortBy(s, Descending);
  }

  method ListBundleVersions(directory: Option<seq<string>>) returns (versions: seq<string>)
    ensures directory.None? ==> versions == []
    ensures directory.Some? ==> IsSortOf(versions, Accepted(directory.value), Descending)
    ensures forall key :: key in versions <==> directory.Some? && key in directory.value && LooksLikeVersion(key)
    ensures forall i, j | 0 <= i < j < |versions| :: CompareVersions(versions[i], versions[j]) >= 0
  {
    if directory.None? {
      return [];
    }
    var walk := directory.value;
    versions := [];
    for i := 0 to |walk|
      invariant versions == Accepted(walk[..i])
    {
      hide FinalSegment;
      assert walk[..i + 1][..i] == walk[..i];
      if IsAccepted(walk[i]) {
        versions := versions + [walk[i]];
      }
    }
    assert walk[..|walk|] == walk;
    versions := SortVersions(versions);
    ListedAre(walk, versions);
  }

  lemma ListedAre(walk: seq<string>, versions: seq<string>)
    requires IsSortOf(versions, Accepted(walk), Descending)
    ensures forall key :: key in versions <==> key in walk && LooksLikeVersion(key)
    ensures forall i, j | 0 <= i < j < |versions| :: CompareVersions(versions[i], versions[j]) >= 0
  {
    hide Accepted;
    hide IsAccepted;
    hide LooksLikeVersion;
    hide CompareVersions;
    forall key ensures key in versions <==> key in walk && LooksLikeVersion(key) {
      assert key in versions <==> key in multiset(versions);
      assert key in Accepted(walk) <==> key in multiset(Accepted(walk));
      AcceptedMembers(walk, key);
      AcceptedIff(key);
    }
    forall i, j | 0 <= i < j < |versions| ensures CompareVersions(versions[i], versions[j]) >= 0 {
      VersionsFlip(versions[i], versions[j]);
      assert Descending(versions[i], versions[j]) <= 0;
    }
  }

  /** `latest` is the first of the highest-ranking accepted keys in walk order. */
  ghost predicate IsLatest(walk: seq<string>, latest: string) {
    exists i | 0 <= i < |walk| :: walk[i] == latest && IsFirstHighest(walk, i)
  }

  ghost predicate IsFirstHighest(walk: seq<string>, i: nat)
    requires i < |walk|
  {
    && IsAccepted(walk[i])
    && (forall j | 0 <= j < |walk| && IsAccepted(walk[j]) :: CompareVersions(walk[j], walk[i]) <= 0)
    && (forall j | 0 <= j < i && IsAccepted(walk[j]) :: CompareVersions(walk[j], walk[i]) < 0)
  }

  /** The running best keeps the first of the highest keys; the empty string stands for none so far. */
  method FindLatestBundle(directory: Option<seq<string>>) returns (r: Result<string>)
    ensures r.NoBundles? <==> directory.None? || forall key | key in directory.value :: !LooksLikeVersion(key)
    ensures r.Ok? ==> IsLatest(directory.value, r.value)
    ensures r.Ok? ==>
              && r.value in directory.value && LooksLikeVersion(r.value)
              && forall key | key in directory.value && LooksLikeVersion(key) :: CompareVersions(key, r.value) <= 0
  {
    hide CompareVersions;
    hide FinalSegment;
    hide LooksLikeVersion;
    if directory.None? {
      return NoBundles;
    }
    var walk := directory.value;
    var latest := "";
    ghost var at := 0;
    for i := 0 to |walk|
      invariant latest == "" ==> forall j | 0 <= j < i :: !IsAccepted(walk[j])
      invariant latest != "" ==> 0 <= at < i && walk[at] == latest && IsFirstHighest(walk[..i], at)
    {
      var key := walk[i];
      if IsAccepted(key) {
        var higher := latest == "";
        if !higher {
          var c := CompareBundleVersions(key, latest);
          higher := c > 0;
        }
        if higher {
          Replaced(walk, i, at, latest);
          latest, at := key, i;
        } else {
          Kept(walk, i, at);
        }
      } else if latest != "" {
        Kept(walk, i, at);
      }
    }
    assert walk[..|walk|] == walk;
    AcceptedAre(walk);
    if latest == "" {
      return NoBundles;
    }
    assert IsLatest(walk, latest);
    return Ok(latest);
  }

  lemma AcceptedAre(walk: seq<string>)
    ensures forall key | key in walk :: IsAccepted(key) <==> LooksLikeVersion(key)
  {
    hide *;
    forall key | key in walk ensures IsAccepted(key) <==> LooksLikeVersion(key) {
      AcceptedIff(key);
    }
  }

  lemma Kept(walk: seq<string>, i: nat, at: nat)
    requires at < i < |walk| && IsFirstHighest(walk[..i], at)
    requires IsAccepted(walk[i]) ==> CompareVersions(walk[i], walk[at]) <= 0
    ensures IsFirstHighest(walk[..i + 1], at)
  {
    hide CompareVersions;
    hide FinalSegment;
    assert forall j | 0 <= j < i :: walk[..i][j] == walk[j] == walk[..i + 1][j];
  }

  lemma Replaced(walk: seq<string>, i: nat, at: nat, latest: string)
    requires i < |walk| && IsAccepted(walk[i])
    requires latest == "" ==> forall j | 0 <= j < i :: !IsAccepted(walk[j])
    requires latest != "" ==> at < i && walk[at] == latest && IsFirstHighest(walk[..i], at)
    requires latest != "" ==> CompareVersions(walk[i], latest) > 0
    ensures IsFirstHighest(walk[..i + 1], i)
    ensures walk[i] != ""
  {
    hide CompareVersions;
    VersionsFlip(walk[i], walk[i]);
    forall j | 0 <= j < i && IsAccepted(walk[j]) ensures CompareVersions(walk[j], walk[i]) < 0 {
      assert walk[..i][j] == walk[j];
      Below(walk[j], latest, walk[i]);
    }
  }

  lemma Below(a: string, b: string, c: string)
    requires CompareVersions(a, b) <= 0 && CompareVersions(c, b) > 0
    ensures CompareVersions(a, c) < 0
  {
    hide CompareVersions;
    VersionsFlip(a, c);
    if CompareVersions(a, c) >= 0 {
      VersionsTransitive(c, a, b);
    }
  }

  /** The latest key ties with the head of the descending list, whatever the walk order and the sort. */
  lemma LatestIsHeadOfList(walk: seq<string>, versions: seq<string>, latest: string)
    requires IsSortOf(versions, Accepted(walk), Descending) && IsLatest(walk, latest)
    ensures versions != [] && CompareVersions(latest, versions[0]) == 0
  {
    hide CompareVersions;
    CompareVersionsIsOrder();
    AcceptedMembers(walk, latest);
    assert latest in multiset(Accepted(walk));
    assert latest in versions;
    var head := versions[0];
    assert head in multiset(versions);
    AcceptedMembers(walk, head);
    DescendingIsOrder();
    SortedHeadLeast(versions, latest, Descending);
    assert Descending(head, latest) == CompareVersions(latest, head);
  }

  /** Walking the same keys in another order can only exchange keys that tie. */
  lemma LatestOfAnyOrder(walk: seq<string>, other: seq<string>, latest: string, otherLatest: string)
    requires multiset(walk) == multiset(other) && IsLatest(walk, latest) && IsLatest(other, otherLatest)
    ensures Meaning(latest) == Meaning(otherLatest)
  {
    hide CompareVersions;
    hide Meaning;
    CompareVersionsIsOrder();
    assert latest in multiset(other) && otherLatest in multiset(walk);
    assert CompareVersions(otherLatest, latest) <= 0 && CompareVersions(latest, otherLatest) <= 0;
    assert CompareVersions(latest, otherLatest) == 0;
  }
}
