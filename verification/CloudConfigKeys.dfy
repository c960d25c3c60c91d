/**
 Flat keys and leaf paths: for well-formed keys, a flattened configuration has exactly one entry per leaf, so
 the order in which Go walks its maps does not show.
 */
module CloudConfigKeys {
  import opened Text
  import opened CloudConfigFlattening

  datatype Segment = Field(name: string) | Item(index: nat) {
    function Key(): string {
      match this
      case Field(name) => name
      case Item(i) => ItemKey(i)
    }
  }

  type Leaf = (seq<Segment>, Value)

  /** The leaves of a value, each with its path; an empty list is a leaf, an empty map has none. */
  function Leaves(v: Value): set<Leaf> {
    match v
    case Str(_) => {([], v)}
    case Scalar(_) => {([], v)}
    case Tree(m) => set k, q | k in m && q in Leaves(m[k]) :: ([Field(k)] + q.0, q.1)
    case AnyTree(m) => set k, q | k in m && k.StringKey? && q in Leaves(m[k]) :: ([Field(k.name)] + q.0, q.1)
    case List(items) =>
      if items == [] then {([], Str(""))}
      else set i, q | 0 <= i < |items| && q in Leaves(items[i]) :: ([Item(i)] + q.0, q.1)
  }

  /** The flat key of a path below `base`. */
  function KeyOf(base: string, path: seq<Segment>): string
    decreases path
  {
    if path == [] then base else KeyOf(Qualify(base, path[0].Key()), path[1..])
  }

  // ----- one entry per leaf path -----

  /** A pair is written exactly where a leaf path leads to its key. */
  lemma {:induction false} PairsAreLeaves(v: Value, key: string, p: Pair)
    ensures p in Pairs(v, key) <==> exists q :: q in Leaves(v) && p == (KeyOf(key, q.0), q.1)
    decreases v
  {
    match v {
      case Tree(m) =>
        forall k | k in m ensures p in Pairs(m[k], Qualify(key, k)) <==>
          exists q :: q in Leaves(m[k]) && p == (KeyOf(Qualify(key, k), q.0), q.1)
        {
          PairsAreLeaves(m[k], Qualify(key, k), p);
        }
        TreePairs(v, key, p);
      case AnyTree(m) =>
        forall k | k in m && k.StringKey? ensures p in Pairs(m[k], Qualify(key, k.name)) <==>
          exists q :: q in Leaves(m[k]) && p == (KeyOf(Qualify(key, k.name), q.0), q.1)
        {
          PairsAreLeaves(m[k], Qualify(key, k.name), p);
        }
        AnyTreePairs(v, key, p);
      case List(items) =>
        if items == [] {
          assert ([], Str("")) in Leaves(v);
        } else {
          forall i | 0 <= i < |items| ensures p in Pairs(items[i], Qualify(key, ItemKey(i))) <==>
            exists q :: q in Leaves(items[i]) && p == (KeyOf(Qualify(key, ItemKey(i)), q.0), q.1)
          {
            PairsAreLeaves(items[i], Qualify(key, ItemKey(i)), p);
          }
          ListPairs(v, key, p);
        }
      case _ =>
        assert ([], v) in Leaves(v);
    }
  }

  lemma KeyOfStep(base: string, head: Segment, rest: seq<Segment>)
    ensures KeyOf(base, [head] + rest) == KeyOf(Qualify(base, head.Key()), rest)
  {
    hide Qualify;
    assert ([head] + rest)[1..] == rest;
  }

  lemma TreePairs(v: Value, key: string, p: Pair)
    requires v.Tree?
    requires forall k | k in v.entries :: p in Pairs(v.entries[k], Qualify(key, k)) <==>
               exists q :: q in Leaves(v.entries[k]) && p == (KeyOf(Qualify(key, k), q.0), q.1)
    ensures p in Pairs(v, key) <==> exists q :: q in Leaves(v) && p == (KeyOf(key, q.0), q.1)
  {
    hide Qualify;
    hide KeyOf;
    var m := v.entries;
    if p in Pairs(v, key) {
      var k :| k in m && p in Pairs(m[k], Qualify(key, k));
      var q :| q in Leaves(m[k]) && p == (KeyOf(Qualify(key, k), q.0), q.1);
      KeyOfStep(key, Field(k), q.0);
      assert ([Field(k)] + q.0, q.1) in Leaves(v);
    }
    if leaf :| leaf in Leaves(v) && p == (KeyOf(key, leaf.0), leaf.1) {
      var k, q :| k in m && q in Leaves(m[k]) && leaf == ([Field(k)] + q.0, q.1);
      KeyOfStep(key, Field(k), q.0);
      assert p in Pairs(m[k], Qualify(key, k));
    }
  }

  lemma AnyTreePairs(v: Value, key: string, p: Pair)
    requires v.AnyTree?
    requires forall k | k in v.anyEntries && k.StringKey? :: p in Pairs(v.anyEntries[k], Qualify(key, k.name)) <==>
               exists q :: q in Leaves(v.anyEntries[k]) && p == (KeyOf(Qualify(key, k.name), q.0), q.1)
    ensures p in Pairs(v, key) <==> exists q :: q in Leaves(v) && p == (KeyOf(key, q.0), q.1)
  {
    hide Qualify;
    hide KeyOf;
    var m := v.anyEntries;
    if p in Pairs(v, key) {
      var k :| k in m && k.StringKey? && p in Pairs(m[k], Qualify(key, k.name));
      var q :| q in Leaves(m[k]) && p == (KeyOf(Qualify(key, k.name), q.0), q.1);
      KeyOfStep(key, Field(k.name), q.0);
      assert ([Field(k.name)] + q.0, q.1) in Leaves(v);
    }
    if leaf :| leaf in Leaves(v) && p == (KeyOf(key, leaf.0), leaf.1) {
      var k, q :| k in m && k.StringKey? && q in Leaves(m[k]) && leaf == ([Field(k.name)] + q.0, q.1);
      KeyOfStep(key, Field(k.name), q.0);
      assert p in Pairs(m[k], Qualify(key, k.name));
    }
  }

  lemma ListPairs(v: Value, key: string, p: Pair)
    requires v.List? && v.items != []
    requires forall i | 0 <= i < |v.items| :: p in Pairs(v.items[i], Qualify(key, ItemKey(i))) <==>
               exists q :: q in Leaves(v.items[i]) && p == (KeyOf(Qualify(key, ItemKey(i)), q.0), q.1)
    ensures p in Pairs(v, key) <==> exists q :: q in Leaves(v) && p == (KeyOf(key, q.0), q.1)
  {
    var items := v.items;
    if p in Pairs(v, key) {
      var i :| 0 <= i < |items| && p in Pairs(items[i], Qualify(key, ItemKey(i)));
      hide *;
      var q :| q in Leaves(items[i]) && p == (KeyOf(Qualify(key, ItemKey(i)), q.0), q.1);
      ItemLeaf(v, key, i, q);
    }
    if leaf :| leaf in Leaves(v) && p == (KeyOf(key, leaf.0), leaf.1) {
      hide *;
      var i, q := LeafOfItem(v, leaf);
      ItemLeaf(v, key, i, q);
      ItemPair(v, key, i, p);
    }
  }

  lemma LeafOfItem(v: Value, leaf: Leaf) returns (i: nat, q: Leaf)
    requires v.List? && v.items != [] && leaf in Leaves(v)
    ensures i < |v.items| && q in Leaves(v.items[i]) && leaf == ([Item(i)] + q.0, q.1)
  {
    i, q :| 0 <= i < |v.items| && q in Leaves(v.items[i]) && leaf == ([Item(i)] + q.0, q.1);
  }

  lemma ItemLeaf(v: Value, key: string, i: nat, q: Leaf)
    requires v.List? && i < |v.items| && q in Leaves(v.items[i])
    ensures ([Item(i)] + q.0, q.1) in Leaves(v)
    ensures KeyOf(key, [Item(i)] + q.0) == KeyOf(Qualify(key, ItemKey(i)), q.0)
  {
    KeyOfStep(key, Item(i), q.0);
  }

  lemma ItemPair(v: Value, key: string, i: nat, p: Pair)
    requires v.List? && i < |v.items| && p in Pairs(v.items[i], Qualify(key, ItemKey(i)))
    ensures p in Pairs(v, key)
  {
  }

  // ----- well-formed keys -----

  /** Not blank, and without the two characters that structure flat keys. */
  predicate IsCleanName(name: string) {
    NotBlank(name) && Free(name, '.') && Free(name, '[')
  }

  predicate IsCleanPath(path: seq<Segment>) {
    forall i | 0 <= i < |path| :: path[i].Field? ==> IsCleanName(path[i].name)
  }

  predicate IsClean(v: Value) {
    match v
    case Tree(m) => forall k | k in m :: IsCleanName(k) && IsClean(m[k])
    case AnyTree(m) => forall k | k in m && k.StringKey? :: IsCleanName(k.name) && IsClean(m[k])
    case List(items) => forall i | 0 <= i < |items| :: IsClean(items[i])
    case _ => true
  }

  lemma {:induction false} LeafPathsAreClean(v: Value, q: Leaf)
    requires IsClean(v) && q in Leaves(v)
    ensures IsCleanPath(q.0)
    decreases v
  {
    hide IsCleanName;
    match v {
      case Tree(m) =>
        var k, r :| k in m && r in Leaves(m[k]) && q == ([Field(k)] + r.0, r.1);
        LeafPathsAreClean(m[k], r);
      case AnyTree(m) =>
        var k, r :| k in m && k.StringKey? && r in Leaves(m[k]) && q == ([Field(k.name)] + r.0, r.1);
        LeafPathsAreClean(m[k], r);
      case List(items) =>
        if items != [] {
          var i, r :| 0 <= i < |items| && r in Leaves(items[i]) && q == ([Item(i)] + r.0, r.1);
          LeafPathsAreClean(items[i], r);
        }
      case _ =>
    }
  }

  /** A path leads to one leaf. */
  lemma {:induction false} LeafUnique(v: Value, q: Leaf, r: Leaf)
    requires q in Leaves(v) && r in Leaves(v) && q.0 == r.0
    ensures q == r
    decreases v
  {
    match v {
      case Tree(m) =>
        var k, x :| k in m && x in Leaves(m[k]) && q == ([Field(k)] + x.0, x.1);
        var l, y :| l in m && y in Leaves(m[l]) && r == ([Field(l)] + y.0, y.1);
        SameHead(Field(k), x.0, Field(l), y.0);
        LeafUnique(m[k], x, y);
      case AnyTree(m) =>
        var k, x :| k in m && k.StringKey? && x in Leaves(m[k]) && q == ([Field(k.name)] + x.0, x.1);
        var l, y :| l in m && l.StringKey? && y in Leaves(m[l]) && r == ([Field(l.name)] + y.0, y.1);
        SameHead(Field(k.name), x.0, Field(l.name), y.0);
        assert k == l;
        LeafUnique(m[k], x, y);
      case List(items) =>
        if items != [] {
          var i, x :| 0 <= i < |items| && x in Leaves(items[i]) && q == ([Item(i)] + x.0, x.1);
          var j, y :| 0 <= j < |items| && y in Leaves(items[j]) && r == ([Item(j)] + y.0, y.1);
          SameHead(Item(i), x.0, Item(j), y.0);
          LeafUnique(items[i], x, y);
        }
      case _ =>
    }
  }

  lemma SameHead(a: Segment, x: seq<Segment>, b: Segment, y: seq<Segment>)
    requires [a] + x == [b] + y
    ensures a == b && x == y
  {
    assert ([a] + x)[0] == a && ([a] + x)[1..] == x;
    assert ([b] + y)[0] == b && ([b] + y)[1..] == y;
  }

  // ----- flat keys of clean paths -----

  /** How a path goes on after its first name. */
  function Tail(path: seq<Segment>): string {
    if path == [] then ""
    else Part(path[0]) + Tail(path[1..])
  }

  predicate StartsSegment(s: string) {
    s == "" || s[0] == '.' || s[0] == '['
  }

  predicate NotBlank(s: string) {
    TrimSpace(s) != ""
  }

  lemma NotBlankAppend(base: string, more: string)
    requires NotBlank(base)
    ensures NotBlank(base + more)
  {
    var i :| 0 <= i < |base| && !IsSpace(base[i]);
    assert (base + more)[i] == base[i];
  }

  lemma QualifyIsPart(base: string, s: Segment)
    requires NotBlank(base) && (s.Field? ==> IsCleanName(s.name))
    ensures Qualify(base, s.Key()) == base + Part(s)
  {
    hide TrimSpace;
    assert TrimSpace("") == "" by { EmptyIsTrimmed(); }
    match s {
      case Field(name) =>
        assert name != "" && name[0] != '[';
        assert base + "." + name == base + ("." + name);
      case Item(i) =>
    }
  }

  lemma PathStep(base: string, path: seq<Segment>)
    requires path != [] && IsCleanPath(path)
    ensures Tail(path) == Part(path[0]) + Tail(path[1..])
    ensures KeyOf(base, path) == KeyOf(Qualify(base, path[0].Key()), path[1..])
    ensures IsCleanPath(path[1..]) && (path[0].Field? ==> IsCleanName(path[0].name))
  {
    hide Qualify;
    hide IsCleanName;
  }

  lemma PathEnd(base: string)
    ensures KeyOf(base, []) == base + Tail([])
  {
    assert base + "" == base;
  }

  /** Below a base that is not blank, a flat key is the base and the tail of the path. */
  lemma {:induction false} KeyIsBaseAndTail(base: string, path: seq<Segment>)
    requires NotBlank(base) && IsCleanPath(path)
    ensures KeyOf(base, path) == base + Tail(path)
    decreases path
  {
    hide *;
    if path == [] {
      PathEnd(base);
    } else {
      var part, more := Part(path[0]), Tail(path[1..]);
      PathStep(base, path);
      QualifyIsPart(base, path[0]);
      NotBlankAppend(base, part);
      KeyIsBaseAndTail(base + part, path[1..]);
      assert base + part + more == base + (part + more);
    }
  }

  lemma TailStarts(path: seq<Segment>)
    ensures StartsSegment(Tail(path))
  {
  }

  lemma SameName(a: string, x: string, b: string, y: string)
    requires a + x == b + y && IsCleanName(a) && IsCleanName(b) && StartsSegment(x) && StartsSegment(y)
    ensures a == b && x == y
  {
    hide TrimSpace;
    SameStop(a, x, b, y, c => c == '.' || c == '[');
  }

  lemma SameItem(i: nat, x: string, j: nat, y: string)
    requires ItemKey(i) + x == ItemKey(j) + y
    ensures i == j && x == y
  {
    var a, b := Itoa(i), Itoa(j);
    hide Itoa;
    assert ItemKey(i) + x == "[" + (a + ("]" + x)) && ItemKey(j) + y == "[" + (b + ("]" + y));
    assert (ItemKey(i) + x)[1..] == a + ("]" + x) && (ItemKey(j) + y)[1..] == b + ("]" + y);
    SameStop(a, "]" + x, b, "]" + y, c => c == ']');
    assert ("]" + x)[1..] == x && ("]" + y)[1..] == y;
  }

  /** The tail of a clean path can be read back. */
  lemma {:induction false} TailInjective(p: seq<Segment>, q: seq<Segment>)
    requires IsCleanPath(p) && IsCleanPath(q) && Tail(p) == Tail(q)
    ensures p == q
  {
    if p != [] && q != [] {
      var x, y := Tail(p[1..]), Tail(q[1..]);
      TailStarts(p[1..]);
      TailStarts(q[1..]);
      hide Tail;
      FirstSegment(p[0], x, q[0], y);
      TailInjective(p[1..], q[1..]);
      assert p == [p[0]] + p[1..] && q == [q[0]] + q[1..];
    } else if p != [] {
      SegmentNotEmpty(p);
    } else if q != [] {
      SegmentNotEmpty(q);
    }
  }

  lemma SegmentNotEmpty(p: seq<Segment>)
    requires p != []
    ensures Tail(p) != ""
  {
  }

  function Part(s: Segment): string {
    match s case Field(name) => "." + name case Item(i) => ItemKey(i)
  }

  lemma PartMark(s: Segment, x: string)
    ensures (Part(s) + x)[0] == if s.Field? then '.' else '['
  {
  }

  lemma DropDot(m: string, x: string, n: string, y: string)
    requires "." + m + x == "." + n + y
    ensures m + x == n + y
  {
    assert ("." + m + x)[1..] == m + x && ("." + n + y)[1..] == n + y;
  }

  lemma FirstSegment(a: Segment, x: string, b: Segment, y: string)
    requires StartsSegment(x) && StartsSegment(y)
    requires (a.Field? ==> IsCleanName(a.name)) && (b.Field? ==> IsCleanName(b.name))
    requires Part(a) + x == Part(b) + y
    ensures a == b && x == y
  {
    hide IsCleanName;
    hide ItemKey;
    PartMark(a, x);
    PartMark(b, y);
    if a.Field? {
      DropDot(a.name, x, b.name, y);
      SameName(a.name, x, b.name, y);
    } else {
      SameItem(a.index, x, b.index, y);
    }
  }

  /** Distinct clean paths that start with a name have distinct flat keys. */
  lemma KeysDistinct(p: seq<Segment>, q: seq<Segment>)
    requires IsCleanPath(p) && IsCleanPath(q) && p != [] && q != [] && p[0].Field? && q[0].Field?
    requires KeyOf("", p) == KeyOf("", q)
    ensures p == q
  {
    var m, n := p[0].name, q[0].name;
    assert IsCleanName(m) && IsCleanName(n);
    KeyIsBaseAndTail(m, p[1..]);
    KeyIsBaseAndTail(n, q[1..]);
    TailStarts(p[1..]);
    TailStarts(q[1..]);
    SameName(m, Tail(p[1..]), n, Tail(q[1..]));
    TailInjective(p[1..], q[1..]);
    assert p == [p[0]] + p[1..] && q == [q[0]] + q[1..];
  }

  // ----- the result -----

  lemma LeafStartsWithName(source: map<string, Value>, q: Leaf)
    requires q in Leaves(Tree(source))
    ensures q.0 != [] && q.0[0].Field?
  {
    var k, r :| k in source && r in Leaves(source[k]) && q == ([Field(k)] + r.0, r.1);
  }

  /** Two leaves with the same flat key are the same leaf. */
  lemma LeavesDistinct(source: map<string, Value>, q: Leaf, r: Leaf)
    requires IsClean(Tree(source)) && q in Leaves(Tree(source)) && r in Leaves(Tree(source))
    requires KeyOf("", q.0) == KeyOf("", r.0)
    ensures q == r
  {
    LeafPathsAreClean(Tree(source), q);
    LeafPathsAreClean(Tree(source), r);
    LeafStartsWithName(source, q);
    LeafStartsWithName(source, r);
    hide KeyOf;
    hide Leaves;
    KeysDistinct(q.0, r.0);
    LeafUnique(Tree(source), q, r);
  }

  /** `r` has, for each leaf and nothing else, the leaf's value at its flat key. */
  ghost predicate IsFlat(source: map<string, Value>, r: map<string, Value>) {
    && (forall q | q in Leaves(Tree(source)) :: KeyOf("", q.0) in r && r[KeyOf("", q.0)] == q.1)
    && (forall k | k in r :: exists q :: q in Leaves(Tree(source)) && KeyOf("", q.0) == k)
  }

  /** With clean keys, whatever order the maps are walked in, flattening into an empty map stores the leaves. */
  lemma FlatteningIsFlat(source: map<string, Value>, r: map<string, Value>)
    requires IsClean(Tree(source)) && IsMerge(map[], Below(source, source.Keys, ""), r)
    ensures IsFlat(source, r)
  {
    var pairs := Pairs(Tree(source), "");
    assert pairs == Below(source, source.Keys, "") by { BelowIsTree(source); }
    hide KeyOf;
    hide Leaves;
    hide Pairs;
    hide Below;
    hide IsClean;
    forall q | q in Leaves(Tree(source)) ensures KeyOf("", q.0) in r && r[KeyOf("", q.0)] == q.1 {
      var p := (KeyOf("", q.0), q.1);
      PairsAreLeaves(Tree(source), "", p);
      assert p in pairs && HasKey(pairs, p.0);
      var stored := (p.0, r[p.0]);
      PairsAreLeaves(Tree(source), "", stored);
      var other :| other in Leaves(Tree(source)) && stored == (KeyOf("", other.0), other.1);
      LeavesDistinct(source, q, other);
    }
    forall k | k in r ensures exists q :: q in Leaves(Tree(source)) && KeyOf("", q.0) == k {
      PairsAreLeaves(Tree(source), "", (k, r[k]));
    }
  }

  lemma BelowIsTree(source: map<string, Value>)
    ensures Pairs(Tree(source), "") == Below(source, source.Keys, "")
  {
    hide Qualify;
    assert Qualify("", "") == Qualify("", "");
  }

  lemma FlatValue(source: map<string, Value>, r: map<string, Value>, s: map<string, Value>, k: string)
    requires IsFlat(source, r) && IsFlat(source, s) && k in r
    ensures k in s && s[k] == r[k]
  {
    hide KeyOf;
    hide Leaves;
    var q :| q in Leaves(Tree(source)) && KeyOf("", q.0) == k;
  }

  /** Two walks of the same clean configuration store the same map. */
  lemma OrderDoesNotShow(source: map<string, Value>, r: map<string, Value>, s: map<string, Value>)
    requires IsClean(Tree(source))
    requires IsMerge(map[], Below(source, source.Keys, ""), r) && IsMerge(map[], Below(source, source.Keys, ""), s)
    ensures r == s
  {
    hide *;
    FlatteningIsFlat(source, r);
    FlatteningIsFlat(source, s);
    forall k | k in r ensures k in s && s[k] == r[k] {
      FlatValue(source, r, s, k);
    }
    forall k | k in s ensures k in r {
      FlatValue(source, s, r, k);
    }
  }

  /** There are as many entries as leaves. */
  lemma OneEntryPerLeaf(source: map<string, Value>, r: map<string, Value>)
    requires IsClean(Tree(source)) && IsMerge(map[], Below(source, source.Keys, ""), r)
    ensures |r| == |Leaves(Tree(source))|
  {
    FlatteningIsFlat(source, r);
    hide IsMerge;
    hide KeyOf;
    hide Leaves;
    hide IsClean;
    assert |r| == |r.Keys|;
    CountKeys(source, Leaves(Tree(source)), r.Keys);
  }

  lemma {:induction false} CountKeys(source: map<string, Value>, leaves: set<Leaf>, keys: set<string>)
    requires IsClean(Tree(source)) && leaves <= Leaves(Tree(source))
    requires forall q | q in leaves :: KeyOf("", q.0) in keys
    requires forall k | k in keys :: exists q :: q in leaves && KeyOf("", q.0) == k
    ensures |keys| == |leaves|
    decreases leaves
  {
    hide KeyOf;
    hide Leaves;
    hide IsClean;
    if leaves == {} {
      assert keys == {};
    } else {
      var q :| q in leaves;
      var rest, k := leaves - {q}, KeyOf("", q.0);
      forall r | r in rest ensures KeyOf("", r.0) in keys - {k} {
        if KeyOf("", r.0) == k {
          LeavesDistinct(source, q, r);
        }
      }
      CountKeys(source, rest, keys - {k});
    }
  }

  // ----- other keys collide -----

  const ONE: Value := Scalar(1)
  const TWO: Value := Scalar(2)

  /** Two walks that store different maps, each with fewer entries than there are leaves. */
  ghost predicate Collides(source: map<string, Value>, r: map<string, Value>, s: map<string, Value>) {
    && IsMerge(map[], Below(source, source.Keys, ""), r) && IsMerge(map[], Below(source, source.Keys, ""), s)
    && r != s && |r| < |Leaves(Tree(source))| && |s| < |Leaves(Tree(source))|
  }

  /** Two top-level entries that are each written as one value, at the same key. */
  lemma OneKeyTwice(source: map<string, Value>, k: string, v: Value, l: string, key: string, x: Leaf)
    requires source == map[k := v, l := TWO] && k != l && key == l
    requires Pairs(v, k) == {(key, ONE)} && x in Leaves(v)
    ensures Collides(source, map[key := ONE], map[key := TWO])
  {
    TopEntries(source, k, v, l);
    TwoLeaves(source, k, v, l, x);
    WrittenAlone(l);
    OneEntry(key, ONE);
    OneEntry(key, TWO);
    hide Below;
    hide Pairs;
    hide Leaves;
    hide IsMerge;
    var pairs := Below(source, source.Keys, "");
    assert pairs == {(key, ONE), (key, TWO)};
    EitherWalk(pairs, key, ONE);
    EitherWalk(pairs, key, TWO);
    assert map[key := ONE][key] != map[key := TWO][key];
  }

  lemma WrittenAlone(key: string)
    ensures Pairs(TWO, key) == {(key, TWO)}
  {
  }

  lemma EitherWalk(pairs: set<Pair>, key: string, v: Value)
    requires pairs == {(key, ONE), (key, TWO)} && (v == ONE || v == TWO)
    ensures IsMerge(map[], pairs, map[key := v])
  {
    assert (key, v) in pairs;
    assert HasKey(pairs, key);
  }

  lemma OneEntry(key: string, v: Value)
    ensures |map[key := v]| == 1
  {
    assert map[key := v].Keys == {key};
  }

  lemma TopEntries(source: map<string, Value>, k: string, v: Value, l: string)
    requires source == map[k := v, l := TWO] && k != l
    ensures Below(source, source.Keys, "") == Pairs(v, k) + Pairs(TWO, l)
  {
    TopLevel(k);
    TopLevel(l);
    hide Pairs;
    BelowOneMore(source, {}, k, "");
    BelowOneMore(source, {k}, l, "");
    assert source.Keys == {} + {k} + {l};
    assert Below(source, {}, "") == {};
  }

  lemma TopLevel(k: string)
    ensures Qualify("", k) == k
  {
  }

  lemma TwoLeaves(source: map<string, Value>, k: string, v: Value, l: string, x: Leaf)
    requires source == map[k := v, l := TWO] && k != l && x in Leaves(v)
    ensures |Leaves(Tree(source))| >= 2
  {
    var y: Leaf := ([], TWO);
    assert y in Leaves(TWO);
    var one, two := ([Field(k)] + x.0, x.1), ([Field(l)] + y.0, y.1);
    assert source[k] == v && source[l] == TWO;
    assert one in Leaves(Tree(source)) && two in Leaves(Tree(source));
    assert one.0[0] != two.0[0];
    TwoInside(one, two, Leaves(Tree(source)));
  }

  lemma TreeOfOne(n: string, base: string, key: string)
    requires Qualify(base, n) == key
    ensures Pairs(Tree(map[n := ONE]), base) == {(key, ONE)}
    ensures ([Field(n)] + [], ONE) in Leaves(Tree(map[n := ONE]))
  {
    hide Qualify;
    var m := map[n := ONE];
    SinglePairs(m, n, ONE, base);
    assert Pairs(ONE, key) == {(key, ONE)};
    assert ([], ONE) in Leaves(ONE) && m[n] == ONE;
    assert Pairs(Tree(m), base) == Below(m, m.Keys, base);
  }

  /** A key with a dot is written like the path of the two names around it. */
  lemma DottedKeysCollide(m: string, n: string)
    requires IsCleanName(m) && IsCleanName(n)
    ensures var key := m + "." + n;
            Collides(map[m := Tree(map[n := ONE]), key := TWO], map[key := ONE], map[key := TWO])
  {
    var key := m + "." + n;
    QualifyIsPart(m, Field(n));
    assert m + ("." + n) == key;
    TreeOfOne(n, m, key);
    assert m != key by { assert |m| < |key|; }
    hide *;
    OneKeyTwice(map[m := Tree(map[n := ONE]), key := TWO], m, Tree(map[n := ONE]), key, key, ([Field(n)] + [], ONE));
  }

  /** A key that ends in a bracketed number is written like an item of a list. */
  lemma BracketedKeysCollide(m: string, items: seq<Value>)
    requires IsCleanName(m) && items == [ONE]
    ensures var key := m + ItemKey(0);
            Collides(map[m := List(items), key := TWO], map[key := ONE], map[key := TWO])
  {
    var key := m + ItemKey(0);
    ListOfOne(m, items);
    assert m != key by { assert |m| < |key|; }
    hide *;
    OneKeyTwice(map[m := List(items), key := TWO], m, List(items), key, key, ([Item(0)] + [], ONE));
  }

  lemma ListOfOne(m: string, items: seq<Value>)
    requires IsCleanName(m) && items == [ONE]
    ensures Pairs(List(items), m) == {(m + ItemKey(0), ONE)} && ([Item(0)] + [], ONE) in Leaves(List(items))
  {
    QualifyIsPart(m, Item(0));
    hide Qualify;
    hide ItemKey;
    assert Pairs(items[0], m + ItemKey(0)) == {(m + ItemKey(0), ONE)};
    assert ([], ONE) in Leaves(items[0]);
  }

  /** A blank key does not show in the keys below it. */
  lemma BlankKeysCollide(blank: string, n: string)
    requires !NotBlank(blank) && n != blank
    ensures Collides(map[blank := Tree(map[n := ONE]), n := TWO], map[n := ONE], map[n := TWO])
  {
    assert Qualify(blank, n) == n by {
      hide TrimSpace;
    }
    TreeOfOne(n, blank, n);
    hide *;
    OneKeyTwice(map[blank := Tree(map[n := ONE]), n := TWO], blank, Tree(map[n := ONE]), n, n, ([Field(n)] + [], ONE));
  }

  lemma TwoInside(x: Leaf, y: Leaf, s: set<Leaf>)
    requires x != y && {x, y} <= s
    ensures |s| >= 2
  {
    assert s == {x} + ({y} + (s - {x, y}));
  }

  // ----- the store -----

  class CloudConfigStore {
    var cloudConfig: map<string, map<string, Value>>
    var jwtSecret: string
    var version: int

    constructor ()
      ensures cloudConfig == map[] && jwtSecret == "" && version == 0
    {
      cloudConfig, jwtSecret, version := map[], "", 0;
    }

    /** Replaces the whole configuration, each app flattened on its own; an empty secret keeps the old one. */
    method UpdateConfig(config: map<string, map<string, Value>>, secret: string)
      modifies this
      ensures cloudConfig.Keys == config.Keys
      ensures forall app | app in config ::
                IsMerge(map[], Below(config[app], config[app].Keys, ""), cloudConfig[app])
      ensures jwtSecret == if secret != "" then secret else old(jwtSecret)
      ensures version == Wrap64(old(version) + 1)
    {
      hide Wrap64;
      var flat: map<string, map<string, Value>> := map[];
      var todo := config.Keys;
      while todo != {}
        invariant jwtSecret == old(jwtSecret) && version == old(version)
        invariant todo <= config.Keys && flat.Keys == config.Keys - todo
        invariant forall app | app in flat ::
                    IsMerge(map[], Below(config[app], config[app].Keys, ""), flat[app])
      {
        var app :| app in todo;
        var out := new FlatMap();
        EntriesAreInside(config[app]);
        Flatten(out, config[app], "", Tree(config[app]));
        flat := flat[app := out.m];
        todo := todo - {app};
      }
      cloudConfig := flat;
      if secret != "" {
        jwtSecret := secret;
      }
      version := Wrap64(version + 1);
    }
  }

  lemma EntriesAreInside(m: map<string, Value>)
    ensures forall k | k in m :: m[k] < Tree(m)
  {
  }
}
