/** The insertion-ordered string map that holds an app's environment. */
module OrderedMap {
  import opened Text

  datatype Entry = Entry(key: string, value: string)

  function Keys(entries: seq<Entry>): seq<string> {
    seq(|entries|, i requires 0 <= i < |entries| => entries[i].key)
  }

  /** The value of the first entry with this key. */
  function Lookup(entries: seq<Entry>, key: string): Option<string> {
    if entries == [] then None
    else if entries[0].key == key then Some(entries[0].value)
    else Lookup(entries[1..], key)
  }

  ghost predicate DistinctKeys(entries: seq<Entry>) {
    forall i, j | 0 <= i < j < |entries| :: entries[i].key != entries[j].key
  }

  /** What `Set` makes of the entries: the first match changes its value where it stands, or a new entry ends them. */
  function Updated(entries: seq<Entry>, key: string, value: string): seq<Entry> {
    if entries == [] then [Entry(key, value)]
    else if entries[0].key == key then [Entry(key, value)] + entries[1..]
    else [entries[0]] + Updated(entries[1..], key, value)
  }

  lemma {:induction false} LookupAt(entries: seq<Entry>, i: nat)
    requires i < |entries|
    requires forall j | 0 <= j < i :: entries[j].key != entries[i].key
    ensures Lookup(entries, entries[i].key) == Some(entries[i].value)
  {
    if i > 0 {
      LookupAt(entries[1..], i - 1);
    }
  }

  lemma {:induction false} LookupMissing(entries: seq<Entry>, key: string)
    requires forall j | 0 <= j < |entries| :: entries[j].key != key
    ensures Lookup(entries, key) == None
  {
    if entries != [] {
      LookupMissing(entries[1..], key);
    }
  }

  /** After an update the key has the new value and every other key its old one. */
  lemma {:induction false} UpdatedLookup(entries: seq<Entry>, key: string, value: string, other: string)
    ensures Lookup(Updated(entries, key, value), other) == if other == key then Some(value) else Lookup(entries, other)
  {
    if entries != [] && entries[0].key != key {
      UpdatedLookup(entries[1..], key, value, other);
      assert Updated(entries, key, value)[1..] == Updated(entries[1..], key, value);
    }
  }

  /** The keys keep their order, and a new key comes last. */
  lemma {:induction false} UpdatedKeys(entries: seq<Entry>, key: string, value: string)
    ensures Keys(Updated(entries, key, value)) ==
            if Lookup(entries, key).Some? then Keys(entries) else Keys(entries) + [key]
  {
    if entries != [] && entries[0].key != key {
      UpdatedKeys(entries[1..], key, value);
      assert entries == [entries[0]] + entries[1..];
      KeysCons(entries[0], entries[1..]);
      KeysCons(entries[0], Updated(entries[1..], key, value));
    }
  }

  lemma KeysCons(head: Entry, tail: seq<Entry>)
    ensures Keys([head] + tail) == [head.key] + Keys(tail)
  {
  }

  class Map {
    var entries: seq<Entry>

    constructor ()
      ensures entries == []
    {
      entries := [];
    }

    method Get(key: string) returns (value: string, ok: bool)
      ensures Lookup(entries, key) == if ok then Some(value) else None
      ensures !ok ==> value == ""
    {
      for i := 0 to |entries|
        invariant forall j | 0 <= j < i :: entries[j].key != key
      {
        if entries[i].key == key {
          LookupAt(entries, i);
          return entries[i].value, true;
        }
      }
      LookupMissing(entries, key);
      return "", false;
    }

    method Has(key: string) returns (ok: bool)
      ensures ok <==> Lookup(entries, key).Some?
    {
      var value, found := Get(key);
      ok := found;
    }

    method Set(key: string, value: string)
      modifies this
      ensures entries == Updated(old(entries), key, value)
      ensures old(DistinctKeys(entries)) ==> DistinctKeys(entries)
    {
      ghost var before := entries;
      for i := 0 to |entries|
        invariant entries == before
        invariant forall j | 0 <= j < i :: entries[j].key != key
      {
        if entries[i].key == key {
          UpdatedAt(before, key, value, i);
          entries := entries[i := Entry(key, value)];
          return;
        }
      }
      UpdatedAt(before, key, value, |before|);
      entries := entries + [Entry(key, value)];
    }

    function Len(): nat
      reads this
    {
      |entries|
    }
  }

  lemma {:induction false} UpdatedAt(entries: seq<Entry>, key: string, value: string, i: nat)
    requires i <= |entries| && (forall j | 0 <= j < i :: entries[j].key != key)
    requires i < |entries| ==> entries[i].key == key
    ensures Updated(entries, key, value) ==
            if i < |entries| then entries[i := Entry(key, value)] else entries + [Entry(key, value)]
  {
    if entries != [] && i > 0 {
      UpdatedAt(entries[1..], key, value, i - 1);
    }
  }
}
