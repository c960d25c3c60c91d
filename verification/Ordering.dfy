/**
 Three-way comparators, the order they define, and what Go's `slices.SortFunc`, `sort.Slice` and
 `sort.Strings` promise: a permutation of the input in which no later element is less than an earlier one.
 */
module Ordering {

  predicate AtMost<T>(cmp: (T, T) -> int, x: T, y: T) {
    cmp(x, y) <= 0
  }

  /** A comparator answers -1, 0 or 1, flips its sign with its arguments, and its "at most" is transitive. */
  ghost predicate IsOrder<T(!new)>(cmp: (T, T) -> int) {
    && (forall x, y :: cmp(x, y) == -cmp(y, x) && -1 <= cmp(x, y) <= 1)
    && (forall x, y, z :: AtMost(cmp, x, y) && AtMost(cmp, y, z) ==> AtMost(cmp, x, z))
  }

  function IntCmp(x: int, y: int): int {
    if x < y then -1 else if x > y then 1 else 0
  }

  function CharCmp(x: char, y: char): int {
    IntCmp(x as int, y as int)
  }

  /**
   Lexicographic comparison by `cmp`; `short` is the answer when `a` is a proper prefix of `b`:
   -1 is dictionary order, 1 prefers the shorter sequence.
   */
  function Lex<T>(a: seq<T>, b: seq<T>, cmp: (T, T) -> int, short: int): int {
    if a == [] && b == [] then 0
    else if a == [] then short
    else if b == [] then -short
    else if cmp(a[0], b[0]) != 0 then cmp(a[0], b[0])
    else Lex(a[1..], b[1..], cmp, short)
  }

  lemma {:induction false} LexFlips<T(!new)>(a: seq<T>, b: seq<T>, cmp: (T, T) -> int, short: int)
    requires IsOrder(cmp) && (short == 1 || short == -1)
    ensures Lex(a, b, cmp, short) == -Lex(b, a, cmp, short)
    ensures -1 <= Lex(a, b, cmp, short) <= 1
  {
    if a != [] && b != [] {
      LexFlips(a[1..], b[1..], cmp, short);
    }
  }

  lemma {:induction false} LexTransitive<T(!new)>(a: seq<T>, b: seq<T>, c: seq<T>, cmp: (T, T) -> int, short: int)
    requires IsOrder(cmp) && (short == 1 || short == -1)
    requires Lex(a, b, cmp, short) <= 0 && Lex(b, c, cmp, short) <= 0
    ensures Lex(a, c, cmp, short) <= 0
  {
    if a != [] && b != [] && c != [] {
      assert AtMost(cmp, a[0], b[0]) && AtMost(cmp, b[0], c[0]);
      assert AtMost(cmp, a[0], c[0]);
      if cmp(a[0], c[0]) == 0 {
        assert AtMost(cmp, c[0], a[0]);
        assert AtMost(cmp, c[0], b[0]) && AtMost(cmp, b[0], a[0]);
        LexTransitive(a[1..], b[1..], c[1..], cmp, short);
      }
    }
  }

  /** If the comparator separates elements, the lexicographic one separates sequences. */
  lemma {:induction false} LexZero<T(!new)>(a: seq<T>, b: seq<T>, cmp: (T, T) -> int, short: int)
    requires forall x, y :: cmp(x, y) == 0 <==> x == y
    requires short != 0
    ensures Lex(a, b, cmp, short) == 0 <==> a == b
  {
    if a != [] && b != [] {
      LexZero(a[1..], b[1..], cmp, short);
      assert a == [a[0]] + a[1..] && b == [b[0]] + b[1..];
    }
  }

  /** Equal heads may be skipped. */
  lemma {:induction false} LexSkip<T(!new)>(a: seq<T>, b: seq<T>, n: nat, cmp: (T, T) -> int, short: int)
    requires n <= |a| && n <= |b|
    requires forall i | 0 <= i < n :: cmp(a[i], b[i]) == 0
    ensures Lex(a, b, cmp, short) == Lex(a[n..], b[n..], cmp, short)
  {
    if n == 0 {
      assert a[0..] == a && b[0..] == b;
    } else {
      LexSkip(a[1..], b[1..], n - 1, cmp, short);
      assert a[1..][n - 1..] == a[n..] && b[1..][n - 1..] == b[n..];
    }
  }

  // ----- strings -----

  /** `strings.Compare` */
  function Compare(a: string, b: string): int {
    Lex(a, b, CharCmp, -1)
  }

  lemma CompareIsOrder()
    ensures IsOrder(Compare)
    ensures forall a, b :: Compare(a, b) == 0 <==> a == b
  {
    forall a, b ensures Compare(a, b) == -Compare(b, a) && -1 <= Compare(a, b) <= 1 {
      LexFlips(a, b, CharCmp, -1);
    }
    forall a, b, c | AtMost(Compare, a, b) && AtMost(Compare, b, c) ensures AtMost(Compare, a, c) {
      LexTransitive(a, b, c, CharCmp, -1);
    }
    forall a, b ensures Compare(a, b) == 0 <==> a == b {
      LexZero(a, b, CharCmp, -1);
    }
  }

  /**
   The order is that of bytes: the first byte that differs decides, by its number, and a string comes before
   those that it is a prefix of.
   */
  lemma ComparesBytes(head: string, x: char, y: char, s: string, t: string)
    ensures (x as int < y as int) ==> Compare(head + [x] + s, head + [y] + t) == -1
    ensures (x as int > y as int) ==> Compare(head + [x] + s, head + [y] + t) == 1
    ensures Compare(head, head + [y] + t) == -1 && Compare(head + [x] + s, head) == 1
  {
    var a, b := head + [x] + s, head + [y] + t;
    LexSkip(a, b, |head|, CharCmp, -1);
    LexSkip(head, b, |head|, CharCmp, -1);
    LexSkip(a, head, |head|, CharCmp, -1);
    assert a[|head|..] == [x] + s && b[|head|..] == [y] + t && head[|head|..] == [];
  }

  // ----- sorting -----

  ghost predicate Sorted<T>(s: seq<T>, cmp: (T, T) -> int) {
    forall i, j | 0 <= i < j < |s| :: cmp(s[i], s[j]) <= 0
  }

  /** What a comparison sort promises, stable or not. */
  ghost predicate IsSortOf<T>(r: seq<T>, s: seq<T>, cmp: (T, T) -> int) {
    multiset(r) == multiset(s) && Sorted(r, cmp)
  }

  function Insert<T>(x: T, s: seq<T>, cmp: (T, T) -> int): seq<T> {
    if s == [] || cmp(x, s[0]) <= 0 then [x] + s else [s[0]] + Insert(x, s[1..], cmp)
  }

  function SortBy<T>(s: seq<T>, cmp: (T, T) -> int): seq<T> {
    if s == [] then [] else Insert(s[0], SortBy(s[1..], cmp), cmp)
  }

  lemma {:induction false} InsertPermutes<T>(x: T, s: seq<T>, cmp: (T, T) -> int)
    ensures multiset(Insert(x, s, cmp)) == multiset([x] + s)
  {
    if s != [] && cmp(x, s[0]) > 0 {
      InsertPermutes(x, s[1..], cmp);
      assert s == [s[0]] + s[1..];
    }
  }

  ghost predicate Bounds<T>(x: T, s: seq<T>, cmp: (T, T) -> int) {
    forall j | 0 <= j < |s| :: cmp(x, s[j]) <= 0
  }

  lemma SortedCons<T>(x: T, s: seq<T>, cmp: (T, T) -> int)
    ensures Sorted([x] + s, cmp) <==> Bounds(x, s, cmp) && Sorted(s, cmp)
  {
    var r := [x] + s;
    if Sorted(r, cmp) {
      forall j | 0 <= j < |s| ensures cmp(x, s[j]) <= 0 {
        assert cmp(r[0], r[j + 1]) <= 0;
      }
      forall i, j | 0 <= i < j < |s| ensures cmp(s[i], s[j]) <= 0 {
        assert cmp(r[i + 1], r[j + 1]) <= 0;
      }
    }
  }

  lemma BoundsTransitive<T(!new)>(x: T, y: T, s: seq<T>, cmp: (T, T) -> int)
    requires IsOrder(cmp) && cmp(x, y) <= 0 && Bounds(y, s, cmp)
    ensures Bounds(x, s, cmp)
  {
    forall j | 0 <= j < |s| ensures cmp(x, s[j]) <= 0 {
      assert AtMost(cmp, x, y) && AtMost(cmp, y, s[j]);
    }
  }

  lemma BoundsInserted<T>(x: T, y: T, s: seq<T>, cmp: (T, T) -> int)
    requires cmp(x, y) <= 0 && Bounds(x, s, cmp)
    ensures Bounds(x, Insert(y, s, cmp), cmp)
  {
    var r := Insert(y, s, cmp);
    InsertPermutes(y, s, cmp);
    forall j | 0 <= j < |r| ensures cmp(x, r[j]) <= 0 {
      assert r[j] in multiset(r);
      assert r[j] == y || r[j] in s;
    }
  }

  lemma {:induction false} InsertSorts<T(!new)>(x: T, s: seq<T>, cmp: (T, T) -> int)
    requires IsOrder(cmp) && Sorted(s, cmp)
    ensures Sorted(Insert(x, s, cmp), cmp)
  {
    hide Bounds;
    hide Sorted;
    if s == [] {
      SingletonSorted(x, cmp);
      assert [x] + [] == [x];
    } else {
      var y, rest := s[0], s[1..];
      assert s == [y] + rest;
      SortedCons(y, rest, cmp);
      if cmp(x, y) <= 0 {
        BoundsTransitive(x, y, rest, cmp);
        BoundsCons(x, y, rest, cmp);
        SortedCons(x, s, cmp);
      } else {
        InsertSorts(x, rest, cmp);
        assert cmp(y, x) == -cmp(x, y);
        BoundsInserted(y, x, rest, cmp);
        SortedCons(y, Insert(x, rest, cmp), cmp);
      }
    }
  }

  lemma SingletonSorted<T>(x: T, cmp: (T, T) -> int)
    ensures Sorted([x], cmp)
  {
  }

  lemma BoundsCons<T>(x: T, y: T, s: seq<T>, cmp: (T, T) -> int)
    requires cmp(x, y) <= 0 && Bounds(x, s, cmp)
    ensures Bounds(x, [y] + s, cmp)
  {
  }

  /** `SortBy` sorts. */
  lemma {:induction false} SortBySorts<T(!new)>(s: seq<T>, cmp: (T, T) -> int)
    requires IsOrder(cmp)
    ensures IsSortOf(SortBy(s, cmp), s, cmp)
  {
    if s != [] {
      SortBySorts(s[1..], cmp);
      InsertSorts(s[0], SortBy(s[1..], cmp), cmp);
      InsertPermutes(s[0], SortBy(s[1..], cmp), cmp);
      assert s == [s[0]] + s[1..];
    }
  }

  lemma SortedHeadLeast<T(!new)>(s: seq<T>, x: T, cmp: (T, T) -> int)
    requires IsOrder(cmp) && Sorted(s, cmp) && x in s
    ensures cmp(s[0], x) <= 0
  {
    var i :| 0 <= i < |s| && s[i] == x;
    assert cmp(s[0], s[0]) == 0;
  }

  lemma HeadsAgree<T(!new)>(a: seq<T>, b: seq<T>, cmp: (T, T) -> int)
    requires IsOrder(cmp) && Sorted(a, cmp) && Sorted(b, cmp) && a != []
    requires multiset(a) == multiset(b)
    ensures b != [] && cmp(a[0], b[0]) == 0
  {
    hide Sorted;
    assert a[0] in multiset(b);
    assert a[0] in b;
    assert b[0] in multiset(a);
    SortedHeadLeast(b, a[0], cmp);
    SortedHeadLeast(a, b[0], cmp);
    assert cmp(a[0], b[0]) == -cmp(b[0], a[0]);
  }

  lemma TailsAgree<T>(a: seq<T>, b: seq<T>)
    requires multiset(a) == multiset(b) && a != [] && b != [] && a[0] == b[0]
    ensures multiset(a[1..]) == multiset(b[1..])
  {
    assert a == [a[0]] + a[1..] && b == [b[0]] + b[1..];
    assert multiset(a[1..]) == multiset(a) - multiset{a[0]};
  }

  /** When only equal elements compare as 0, there is one sorted arrangement. */
  lemma {:induction false} SortedUnique<T(!new)>(a: seq<T>, b: seq<T>, cmp: (T, T) -> int)
    requires IsOrder(cmp) && (forall x, y :: cmp(x, y) == 0 ==> x == y)
    requires multiset(a) == multiset(b) && Sorted(a, cmp) && Sorted(b, cmp)
    ensures a == b
  {
    hide Sorted;
    hide IsOrder;
    if a == [] {
      assert |multiset(b)| == 0;
    } else {
      HeadsAgree(a, b, cmp);
      TailsAgree(a, b);
      assert a == [a[0]] + a[1..] && b == [b[0]] + b[1..];
      SortedCons(a[0], a[1..], cmp);
      SortedCons(b[0], b[1..], cmp);
      SortedUnique(a[1..], b[1..], cmp);
    }
  }

  /** Sorted strings depend only on which strings there are, and how often. */
  lemma SortStringsUnique(a: seq<string>, b: seq<string>)
    requires multiset(a) == multiset(b)
    ensures SortBy(a, Compare) == SortBy(b, Compare)
  {
    CompareIsOrder();
    SortBySorts(a, Compare);
    SortBySorts(b, Compare);
    SortedUnique(SortBy(a, Compare), SortBy(b, Compare), Compare);
  }

  // ----- stability -----

  /** The elements of `s` that compare as equal to `x`, in their order. */
  function Peers<T>(s: seq<T>, x: T, cmp: (T, T) -> int): seq<T> {
    if s == [] then [] else (if cmp(x, s[0]) == 0 then [s[0]] else []) + Peers(s[1..], x, cmp)
  }

  /** A stable sort keeps elements that compare as equal in their order. */
  ghost predicate IsStableSortOf<T(!new)>(r: seq<T>, s: seq<T>, cmp: (T, T) -> int) {
    && IsSortOf(r, s, cmp)
    && forall x :: Peers(r, x, cmp) == Peers(s, x, cmp)
  }

  lemma {:induction false} InsertKeepsPeers<T(!new)>(x: T, s: seq<T>, cmp: (T, T) -> int, z: T)
    requires IsOrder(cmp)
    ensures Peers(Insert(x, s, cmp), z, cmp) == Peers([x] + s, z, cmp)
  {
    assert ([x] + s)[1..] == s;
    if s != [] && cmp(x, s[0]) > 0 {
      InsertKeepsPeers(x, s[1..], cmp, z);
      assert ([x] + s[1..])[1..] == s[1..];
      if cmp(z, x) == 0 && cmp(z, s[0]) == 0 {
        assert AtMost(cmp, x, z) && AtMost(cmp, z, s[0]);
        assert false;
      }
      assert ([s[0]] + Insert(x, s[1..], cmp))[1..] == Insert(x, s[1..], cmp);
    }
  }

  /** `SortBy` is stable, so it also stands for `sort.SliceStable`. */
  lemma {:induction false} SortByIsStable<T(!new)>(s: seq<T>, cmp: (T, T) -> int)
    requires IsOrder(cmp)
    ensures IsStableSortOf(SortBy(s, cmp), s, cmp)
  {
    SortBySorts(s, cmp);
    if s != [] {
      SortByIsStable(s[1..], cmp);
      var t := SortBy(s[1..], cmp);
      forall z ensures Peers(SortBy(s, cmp), z, cmp) == Peers(s, z, cmp) {
        InsertKeepsPeers(s[0], t, cmp, z);
        assert ([s[0]] + t)[1..] == t;
      }
    }
  }
}
