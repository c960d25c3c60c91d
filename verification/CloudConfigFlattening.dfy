/**
 Flattening nested cloud configuration into the dotted keys that Spring reads.

 Go walks a map in any order, and a later write to a key replaces an earlier one. The flattener is therefore
 specified by what every walk does (`IsMerge`); for well-formed keys that leaves one result.
 */
module CloudConfigFlattening {
  import opened Text

  /** What a decoded YAML value is to the flattener; a Scalar is anything it stores as it is. */
  datatype Value =
    | Str(text: string)
    | Tree(entries: map<string, Value>)
    | AnyTree(anyEntries: map<AnyKey, Value>)
    | List(items: seq<Value>)
    | Scalar(id: int)

  datatype AnyKey = StringKey(name: string) | OtherKey(id: int)

  type Pair = (string, Value)

  function ItemKey(i: nat): string {
    "[" + Itoa(i) + "]"
  }

  /** The key of an entry `key` below `path`. */
  function Qualify(path: string, key: string): string {
    if path != "" && TrimSpace(path) != "" then
      if key != "" && key[0] == '[' then path + key else path + "." + key
    else key
  }

  /** The flat entries that a value at `key` is written as. */
  function Pairs(v: Value, key: string): set<Pair> {
    match v
    case Str(_) => {(key, v)}
    case Scalar(_) => {(key, v)}
    case Tree(m) => set k, p | k in m && p in Pairs(m[k], Qualify(key, k)) :: p
    case AnyTree(m) => set k, p | k in m && k.StringKey? && p in Pairs(m[k], Qualify(key, k.name)) :: p
    case List(items) =>
      if items == [] then {(key, Str(""))}
      else set i, p | 0 <= i < |items| && p in Pairs(items[i], Qualify(key, ItemKey(i))) :: p
  }

  ghost predicate HasKey(pairs: set<Pair>, k: string) {
    exists p :: p in pairs && p.0 == k
  }

  /** Every pair's key is written, with one of the values it has there; nothing else changes. */
  ghost predicate IsMerge(before: map<string, Value>, pairs: set<Pair>, after: map<string, Value>) {
    && (forall k :: k in after <==> k in before || HasKey(pairs, k))
    && (forall k | k in after ::
          (k, after[k]) in pairs || (k in before && after[k] == before[k] && !HasKey(pairs, k)))
  }

  lemma MergeNothing(m: map<string, Value>)
    ensures IsMerge(m, {}, m)
  {
  }

  lemma MergeOne(m: map<string, Value>, k: string, v: Value)
    ensures IsMerge(m, {(k, v)}, m[k := v])
  {
    var pairs := {(k, v)};
    assert (k, v) in pairs;
    assert HasKey(pairs, k);
  }

  lemma MergeBoth(a: map<string, Value>, p: set<Pair>, b: map<string, Value>, q: set<Pair>, c: map<string, Value>)
    requires IsMerge(a, p, b) && IsMerge(b, q, c)
    ensures IsMerge(a, p + q, c)
  {
    forall k ensures HasKey(p + q, k) <==> HasKey(p, k) || HasKey(q, k) {
      if HasKey(p, k) {
        var x :| x in p && x.0 == k;
        assert x in p + q;
      }
      if HasKey(q, k) {
        var x :| x in q && x.0 == k;
        assert x in p + q;
      }
    }
  }

  // ----- the flat keys, spelled out -----

  predicate IsStored(v: Value) {
    v.Str? || v.Scalar?
  }

  /** Below a path that is not blank, list items stand in brackets, counted from 0; an empty list is the empty text. */
  lemma ListIsNumbered(items: seq<Value>, path: string)
    requires TrimSpace(path) != "" && forall i | 0 <= i < |items| :: IsStored(items[i])
    ensures Pairs(List(items), path) ==
            if items == [] then {(path, Str(""))}
            else set i | 0 <= i < |items| :: (path + "[" + Itoa(i) + "]", items[i])
  {
    hide TrimSpace;
    hide Itoa;
    if items != [] {
      assert path != "" by { EmptyIsTrimmed(); }
      forall i | 0 <= i < |items|
        ensures Pairs(items[i], Qualify(path, ItemKey(i))) == {(path + "[" + Itoa(i) + "]", items[i])}
      {
        assert path + ItemKey(i) == path + "[" + Itoa(i) + "]";
      }
    }
  }

  lemma EmptyIsTrimmed()
    ensures TrimSpace("") == ""
  {
  }

  /** Entries stand behind a dot, unless they are in brackets already. */
  lemma EntriesAreDotted(entries: map<string, Value>, path: string)
    requires TrimSpace(path) != "" && forall k | k in entries :: IsStored(entries[k])
    ensures Pairs(Tree(entries), path) ==
            set k | k in entries :: (if k != "" && k[0] == '[' then path + k else path + "." + k, entries[k])
  {
    hide TrimSpace;
    assert path != "" by { EmptyIsTrimmed(); }
    forall k | k in entries
      ensures Pairs(entries[k], Qualify(path, k)) ==
              {(if k != "" && k[0] == '[' then path + k else path + "." + k, entries[k])}
    {
    }
  }

  /** At the top, or below a blank path, they stand alone. */
  lemma TopEntriesStandAlone(entries: map<string, Value>, path: string)
    requires TrimSpace(path) == "" && forall k | k in entries :: IsStored(entries[k])
    ensures Pairs(Tree(entries), path) == set k | k in entries :: (k, entries[k])
  {
    hide TrimSpace;
    forall k | k in entries ensures Pairs(entries[k], Qualify(path, k)) == {(k, entries[k])} {
    }
  }

  // ----- the flattener -----

  class FlatMap {
    var m: map<string, Value>

    constructor ()
      ensures m == map[]
    {
      m := map[];
    }
  }

  /** What some of the entries below a path are written as. */
  function Below(entries: map<string, Value>, keys: set<string>, path: string): set<Pair>
    requires keys <= entries.Keys
  {
    set k, p | k in keys && p in Pairs(entries[k], Qualify(path, k)) :: p
  }

  lemma BelowOneMore(entries: map<string, Value>, keys: set<string>, k: string, path: string)
    requires keys <= entries.Keys && k in entries
    ensures Below(entries, keys + {k}, path) == Below(entries, keys, path) + Pairs(entries[k], Qualify(path, k))
  {
    var all, some := Below(entries, keys + {k}, path), Below(entries, keys, path);
    var one := Pairs(entries[k], Qualify(path, k));
    forall p ensures p in all <==> p in some + one {
      if p in all {
        var j :| j in keys + {k} && p in Pairs(entries[j], Qualify(path, j));
      }
      if p in some {
        var j :| j in keys && p in Pairs(entries[j], Qualify(path, j));
        assert j in keys + {k};
      }
      if p in one {
        assert k in keys + {k};
      }
    }
  }

  /**
   `flattenCloudConfig`: the entries in any order, each stored or flattened further. `owner` is the value
   whose entries these are; it is what shrinks.
   */
  method Flatten(result: FlatMap, source: map<string, Value>, path: string, ghost owner: Value)
    requires forall k | k in source :: source[k] < owner
    modifies result
    ensures IsMerge(old(result.m), Below(source, source.Keys, path), result.m)
    decreases owner, 0
  {
    var todo := source.Keys;
    ghost var done := {};
    ghost var before := result.m;
    MergeNothing(before);
    assert Below(source, {}, path) == {};
    while todo != {}
      invariant todo + done == source.Keys && todo !! done
      invariant IsMerge(before, Below(source, done, path), result.m)
    {
      var k :| k in todo;
      ghost var here := result.m;
      FlattenValue(result, source[k], Qualify(path, k));
      MergeBoth(before, Below(source, done, path), here, Pairs(source[k], Qualify(path, k)), result.m);
      BelowOneMore(source, done, k, path);
      todo, done := todo - {k}, done + {k};
    }
    assert done == source.Keys;
  }

  /** The type switch of the loop body. */
  method FlattenValue(result: FlatMap, v: Value, key: string)
    modifies result
    ensures IsMerge(old(result.m), Pairs(v, key), result.m)
    decreases v, 2
  {
    match v {
      case Tree(m) =>
        Flatten(result, m, key, v);
        assert Pairs(v, key) == Below(m, m.Keys, key);
      case AnyTree(m) =>
        var converted := Converted(m);
        Flatten(result, converted, key, v);
        ConvertedPairs(v, key);
      case List(items) =>
        if |items| == 0 {
          MergeOne(result.m, key, Str(""));
          result.m := result.m[key := Str("")];
        } else {
          FlattenItems(result, items, key, v);
        }
      case _ =>
        MergeOne(result.m, key, v);
        result.m := result.m[key := v];
    }
  }

  /** The entries with string keys. */
  function Converted(m: map<AnyKey, Value>): map<string, Value> {
    map k | k in m && k.StringKey? :: k.name := m[k]
  }

  /** List items one by one, each as a map with its bracketed index as the only key. */
  method FlattenItems(result: FlatMap, items: seq<Value>, key: string, ghost owner: Value)
    requires owner == List(items) && items != []
    modifies result
    ensures IsMerge(old(result.m), Pairs(owner, key), result.m)
    decreases owner, 1
  {
    ghost var before := result.m;
    MergeNothing(before);
    for i := 0 to |items|
      invariant IsMerge(before, ItemPairs(items, i, key), result.m)
    {
      var single := map[ItemKey(i) := items[i]];
      ghost var here := result.m;
      Flatten(result, single, key, owner);
      SinglePairs(single, ItemKey(i), items[i], key);
      MergeBoth(before, ItemPairs(items, i, key), here, Pairs(items[i], Qualify(key, ItemKey(i))), result.m);
      ItemPairsOneMore(items, i, key);
    }
  }

  /** What the first `n` items are written as. */
  function ItemPairs(items: seq<Value>, n: nat, key: string): set<Pair>
    requires n <= |items|
  {
    set i, p | 0 <= i < n && p in Pairs(items[i], Qualify(key, ItemKey(i))) :: p
  }

  lemma ItemPairsOneMore(items: seq<Value>, n: nat, key: string)
    requires n < |items|
    ensures ItemPairs(items, n + 1, key) == ItemPairs(items, n, key) + Pairs(items[n], Qualify(key, ItemKey(n)))
  {
    hide Pairs;
    hide Qualify;
    hide ItemKey;
  }

  lemma SinglePairs(single: map<string, Value>, k: string, v: Value, path: string)
    requires single == map[k := v]
    ensures Below(single, single.Keys, path) == Pairs(v, Qualify(path, k))
  {
    hide Pairs;
    BelowOneMore(single, {}, k, path);
    assert single.Keys == {} + {k};
    assert Below(single, {}, path) == {};
  }

  lemma ConvertedPairs(v: Value, key: string)
    requires v.AnyTree?
    ensures Pairs(v, key) == Below(Converted(v.anyEntries), Converted(v.anyEntries).Keys, key)
  {
    var m, c := v.anyEntries, Converted(v.anyEntries);
    forall p ensures p in Pairs(v, key) <==> p in Below(c, c.Keys, key) {
      if p in Pairs(v, key) {
        var k :| k in m && k.StringKey? && p in Pairs(m[k], Qualify(key, k.name));
        assert k == StringKey(k.name) && k.name in c;
      }
      if p in Below(c, c.Keys, key) {
        var k :| k in c.Keys && p in Pairs(c[k], Qualify(key, k));
        assert StringKey(k) in m;
      }
    }
  }
}
