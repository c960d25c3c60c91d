/** The table of browser sessions: bounded by evicting the oldest, pruned on every mint and lazily on lookup. */
module SessionTable {

  // A mint reads the clock before it takes the lock, so mint times may step back in lock order; a lookup reads it
  // under the lock. Against the history of mints the table means: the newest mint, and of those before it the
  // ninety-nine with the latest times, until they expire. When the times do increase, these are the last hundred.
  //
  // Times are nanoseconds, and a minted id is new: ids are 256 random bits.

  const MAX_SESSIONS: nat := 100
  const SESSION_TTL: int := 24 * 3600 * 1_000_000_000

  type Table = map<string, int>

  datatype Mint = Mint(id: string, time: int) {
    function Expiry(): int {
      time + SESSION_TTL
    }
  }

  function Min(m: nat, n: nat): nat {
    if m <= n then m else n
  }

  function Max(x: int, y: int): int {
    if x >= y then x else y
  }

  // ----- which mints the table is to remember -----

  /** The expiry of every id ever minted. */
  function Expiries(mints: seq<Mint>): Table {
    if mints == [] then map[] else Expiries(mints[..|mints| - 1])[mints[|mints| - 1].id := mints[|mints| - 1].Expiry()]
  }

  predicate DistinctIds(mints: seq<Mint>) {
    mints == [] ||
    (mints[|mints| - 1].id !in Expiries(mints[..|mints| - 1]) && DistinctIds(mints[..|mints| - 1]))
  }

  /** Of all these entries the `n` latest; which of two at one time, is open. */
  ghost predicate IsLatest(all: Table, kept: set<string>, n: nat) {
    && kept <= all.Keys && |kept| == Min(|all|, n)
    && forall x, y | x in all && x !in kept && y in kept :: all[x] <= all[y]
  }

  /** The newest mint, and the ninety-nine latest of those before it. */
  ghost predicate IsKept(mints: seq<Mint>, kept: set<string>) {
    if mints == [] then kept == {}
    else
      var before, id := Expiries(mints[..|mints| - 1]), mints[|mints| - 1].id;
      id in kept && IsLatest(before, kept - {id}, MAX_SESSIONS - 1)
  }

  ghost predicate DistinctExpiries(all: Table) {
    forall x, y | x in all && y in all && all[x] == all[y] :: x == y
  }

  lemma LatestUnique(all: Table, k: set<string>, l: set<string>, n: nat)
    requires DistinctExpiries(all) && IsLatest(all, k, n) && IsLatest(all, l, n)
    ensures k == l
  {
    if k <= l {
      SubsetSize(k, l);
    } else {
      var x :| x in k && x !in l;
      forall y | y in l ensures y in k {
        assert all[y] >= all[x];
      }
      SubsetSize(l, k);
    }
  }

  /** If no two mints have one time, it is fixed which are kept. */
  lemma KeptUnique(mints: seq<Mint>, kept: set<string>, other: set<string>)
    requires DistinctExpiries(Expiries(mints)) && DistinctIds(mints) && IsKept(mints, kept) && IsKept(mints, other)
    ensures kept == other
  {
    if mints != [] {
      var before, newest := Expiries(mints[..|mints| - 1]), mints[|mints| - 1].id;
      assert forall x | x in before :: Expiries(mints)[x] == before[x];
      assert DistinctExpiries(before);
      LatestUnique(before, kept - {newest}, other - {newest}, MAX_SESSIONS - 1);
      assert kept == (kept - {newest}) + {newest} && other == (other - {newest}) + {newest};
    }
  }

  // ----- the table against these mints -----

  /** The entries are minted ones, and among those that have not expired by `horizon` they are the ones to keep. */
  ghost predicate Holds(sessions: Table, all: Table, kept: set<string>, horizon: int) {
    && (forall id | id in sessions :: id in all && sessions[id] == all[id])
    && (forall id | id in all && all[id] >= horizon :: id in sessions <==> id in kept)
  }

  lemma SubsetSize(a: set<string>, b: set<string>)
    requires a <= b
    ensures |a| <= |b| && (|a| == |b| ==> a == b)
  {
    assert b == a + (b - a);
    assert |b| == |a| + |b - a|;
  }

  function Unexpired(sessions: Table, now: int): Table {
    map id | id in sessions && now <= sessions[id] :: sessions[id]
  }

  ghost predicate IsOldest(sessions: Table, id: string) {
    id in sessions && forall k | k in sessions :: sessions[id] <= sessions[k]
  }

  /** What is left of a pruned table when there is to be room for one more entry. */
  ghost predicate IsRoom(live: Table, room: Table) {
    if |live| < MAX_SESSIONS then room == live else exists id :: IsOldest(live, id) && room == live - {id}
  }

  /** There is room, or the search for the oldest entry finds one. */
  ghost predicate CanMakeRoom(live: Table, now: int) {
    |live| < MAX_SESSIONS || exists k :: k in live && live[k] < now + 2 * SESSION_TTL
  }

  /** Without a victim the new entry is one too many. */
  lemma Outgrown(sessions: Table, live: Table, now: int, id: string)
    requires live == Unexpired(sessions, now) && !CanMakeRoom(live, now)
    requires |sessions| <= MAX_SESSIONS && id !in sessions
    ensures |live[id := now + SESSION_TTL]| == MAX_SESSIONS + 1
  {
    var next := live[id := now + SESSION_TTL];
    assert next.Keys == live.Keys + {id};
    SubsetSize(live.Keys, sessions.Keys);
    assert |next| == |next.Keys| && |live| == |live.Keys| && |sessions| == |sessions.Keys|;
  }

  /** Pruning by any clock only takes what has expired by the latest one. */
  lemma PrunedHolds(sessions: Table, all: Table, kept: set<string>, horizon: int, now: int)
    requires Holds(sessions, all, kept, horizon)
    ensures Holds(Unexpired(sessions, now), all, kept, Max(horizon, now))
    ensures Unexpired(sessions, now).Keys <= sessions.Keys
  {
  }

  /** A full table either holds just what is to be kept, or has an expired entry. */
  lemma FullTable(live: Table, all: Table, kept: set<string>, horizon: int, id: string)
    requires Holds(live, all, kept, horizon) && |kept| <= MAX_SESSIONS <= |live| && IsOldest(live, id)
    ensures live.Keys == kept || all[id] < horizon
  {
    if all[id] >= horizon {
      assert live.Keys <= kept;
      SubsetSize(live.Keys, kept);
      assert |live.Keys| == |live|;
    }
  }

  /** If nothing to be kept has expired, all of it is in the table. */
  lemma NothingExpired(live: Table, all: Table, kept: set<string>, horizon: int)
    requires Holds(live, all, kept, horizon) && kept <= all.Keys
    requires forall id | id in kept :: all[id] >= horizon
    ensures kept <= live.Keys && (|kept| == |live| ==> kept == live.Keys) && |kept| <= |live|
  {
    SubsetSize(kept, live.Keys);
    assert |live.Keys| == |live|;
  }

  lemma {:induction false} OldestOf(all: Table, kept: set<string>) returns (id: string)
    requires kept <= all.Keys && kept != {}
    ensures id in kept && forall k | k in kept :: all[id] <= all[k]
    decreases kept
  {
    id :| id in kept;
    if kept != {id} {
      var other := OldestOf(all, kept - {id});
      if all[other] <= all[id] {
        id := other;
      }
    }
  }

  lemma Without(kept: set<string>, id: string)
    requires id in kept
    ensures |kept - {id}| == |kept| - 1
  {
  }

  /** Which of the kept mints gives way when the table made room. */
  lemma WhoGoes(live: Table, all: Table, kept: set<string>, horizon: int, room: Table) returns (id: string)
    requires Holds(live, all, kept, horizon) && kept <= all.Keys && |kept| == MAX_SESSIONS
    requires |live| <= MAX_SESSIONS && IsRoom(live, room)
    ensures id in kept && (forall k | k in kept :: all[id] <= all[k])
    ensures Holds(room, all, kept - {id}, horizon) && |room| < MAX_SESSIONS
  {
    var victim := "";
    if |live| == MAX_SESSIONS {
      victim :| IsOldest(live, victim) && room == live - {victim};
      Without(live.Keys, victim);
      assert room.Keys == live.Keys - {victim} && |room| == |room.Keys| && |live| == |live.Keys|;
      FullTable(live, all, kept, horizon, victim);
    }
    if live.Keys == kept {
      assert |live| == |live.Keys|;
      id := victim;
    } else {
      id := OldestOf(all, kept);
      if all[id] >= horizon {
        NothingExpired(live, all, kept, horizon);
      }
      assert all[id] < horizon;
    }
  }

  /** With fewer mints than the bound nothing gives way, and what the table evicts has expired. */
  lemma NobodyGoes(live: Table, all: Table, kept: set<string>, horizon: int, room: Table)
    requires Holds(live, all, kept, horizon) && kept <= all.Keys && |kept| < MAX_SESSIONS
    requires |live| <= MAX_SESSIONS && IsRoom(live, room)
    ensures Holds(room, all, kept, horizon) && |room| < MAX_SESSIONS
  {
    if |live| == MAX_SESSIONS {
      var victim :| IsOldest(live, victim) && room == live - {victim};
      Without(live.Keys, victim);
      assert room.Keys == live.Keys - {victim} && |room| == |room.Keys| && |live| == |live.Keys|;
      FullTable(live, all, kept, horizon, victim);
    }
  }

  /** The kept mints without their oldest are the ninety-nine latest of all, the newest one counted like any other. */
  lemma LatestOfAll(mints: seq<Mint>, kept: set<string>, id: string)
    requires DistinctIds(mints) && mints != [] && IsKept(mints, kept) && |kept| == MAX_SESSIONS
    requires id in kept && forall k | k in kept && k in Expiries(mints) :: Expiries(mints)[id] <= Expiries(mints)[k]
    ensures IsLatest(Expiries(mints), kept - {id}, MAX_SESSIONS - 1)
  {
    var all, before, newest := Expiries(mints), Expiries(mints[..|mints| - 1]), mints[|mints| - 1].id;
    hide Expiries;
    hide DistinctIds;
    KeptFacts(mints, kept);
    assert all.Keys == before.Keys + {newest} && newest !in before;
    forall x, y | x in all && x !in kept - {id} && y in kept - {id} ensures all[x] <= all[y] {
      if x != id {
        assert x in before && x !in kept;
        assert y != newest ==> before[x] <= before[y];
        assert id != newest ==> before[x] <= before[id];
      }
    }
    Without(kept, id);
    SubsetSize(kept, all.Keys);
    assert |all| == |all.Keys|;
  }

  /** How many are kept, and of what. */
  lemma KeptFacts(mints: seq<Mint>, kept: set<string>)
    requires DistinctIds(mints) && IsKept(mints, kept)
    ensures kept <= Expiries(mints).Keys && |kept| == Min(|Expiries(mints)|, MAX_SESSIONS)
    ensures mints != [] ==>
              var newest := mints[|mints| - 1];
              var before := Expiries(mints[..|mints| - 1]);
              newest.id !in before && Expiries(mints) == before[newest.id := newest.Expiry()]
  {
    if mints != [] {
      var all, before, newest := Expiries(mints), Expiries(mints[..|mints| - 1]), mints[|mints| - 1].id;
      assert all.Keys == before.Keys + {newest};
      assert |all| == |all.Keys| == |before| + 1;
      Without(kept, newest);
    }
  }

  /** Fewer than the bound means all of them. */
  lemma KeptAll(mints: seq<Mint>, kept: set<string>)
    requires DistinctIds(mints) && IsKept(mints, kept) && |kept| < MAX_SESSIONS
    ensures kept == Expiries(mints).Keys && IsLatest(Expiries(mints), kept, MAX_SESSIONS - 1)
  {
    KeptFacts(mints, kept);
    SubsetSize(kept, Expiries(mints).Keys);
    assert |Expiries(mints)| == |Expiries(mints).Keys|;
  }

  /** Making room in the table leaves the ninety-nine latest of all mints so far. */
  lemma RoomHolds(sessions: Table, mints: seq<Mint>, kept: set<string>, horizon: int, now: int, room: Table)
    returns (rest: set<string>)
    requires DistinctIds(mints) && IsKept(mints, kept) && |sessions| <= MAX_SESSIONS
    requires Holds(sessions, Expiries(mints), kept, horizon) && IsRoom(Unexpired(sessions, now), room)
    ensures IsLatest(Expiries(mints), rest, MAX_SESSIONS - 1)
    ensures Holds(room, Expiries(mints), rest, Max(horizon, now)) && |room| < MAX_SESSIONS
  {
    var all, live, late := Expiries(mints), Unexpired(sessions, now), Max(horizon, now);
    PrunedHolds(sessions, all, kept, horizon, now);
    SubsetSize(live.Keys, sessions.Keys);
    assert |live| == |live.Keys| && |sessions| == |sessions.Keys|;
    KeptFacts(mints, kept);
    assert kept <= all.Keys && |kept| <= MAX_SESSIONS;
    hide *;
    if |kept| == MAX_SESSIONS {
      var id := WhoGoes(live, all, kept, late, room);
      NotEmpty(mints, kept);
      LatestOfAll(mints, kept, id);
      rest := kept - {id};
    } else {
      NobodyGoes(live, all, kept, late, room);
      KeptAll(mints, kept);
      rest := kept;
    }
  }

  lemma NotEmpty(mints: seq<Mint>, kept: set<string>)
    requires IsKept(mints, kept) && |kept| == MAX_SESSIONS
    ensures mints != []
  {
  }

  lemma MintsStep(mints: seq<Mint>, rest: set<string>, mint: Mint)
    requires DistinctIds(mints) && mint.id !in Expiries(mints) && IsLatest(Expiries(mints), rest, MAX_SESSIONS - 1)
    ensures DistinctIds(mints + [mint]) && IsKept(mints + [mint], rest + {mint.id})
    ensures Expiries(mints + [mint]) == Expiries(mints)[mint.id := mint.Expiry()]
  {
    var all := mints + [mint];
    assert all[..|all| - 1] == mints && all[|all| - 1] == mint;
    assert mint.id !in rest;
    assert (rest + {mint.id}) - {mint.id} == rest;
    hide IsLatest;
  }

  lemma HoldsStep(room: Table, all: Table, rest: set<string>, horizon: int, id: string, expiry: int)
    requires Holds(room, all, rest, horizon) && id !in all
    ensures Holds(room[id := expiry], all[id := expiry], rest + {id}, horizon)
    ensures |room[id := expiry]| == |room| + 1
  {
    var next := room[id := expiry];
    assert next.Keys == room.Keys + {id};
    assert |next| == |next.Keys| && |room| == |room.Keys|;
  }

  lemma NewExpiry(mints: seq<Mint>, mint: Mint)
    ensures mint.Expiry() == mint.time + SESSION_TTL && SESSION_TTL == 24 * 60 * 60 * 1_000_000_000
    ensures Expiries(mints + [mint]) == Expiries(mints)[mint.id := mint.Expiry()]
  {
    assert (mints + [mint])[..|mints|] == mints;
  }

  /** A new mint takes the place that is left. */
  lemma NewMint(room: Table, mints: seq<Mint>, rest: set<string>, horizon: int, mint: Mint)
    requires DistinctIds(mints) && mint.id !in Expiries(mints)
    requires IsLatest(Expiries(mints), rest, MAX_SESSIONS - 1) && Holds(room, Expiries(mints), rest, horizon)
    ensures DistinctIds(mints + [mint]) && IsKept(mints + [mint], rest + {mint.id})
    ensures Holds(room[mint.id := mint.Expiry()], Expiries(mints + [mint]), rest + {mint.id}, horizon)
    ensures |room[mint.id := mint.Expiry()]| == |room| + 1
  {
    hide *;
    MintsStep(mints, rest, mint);
    HoldsStep(room, Expiries(mints), rest, horizon, mint.id, mint.Expiry());
  }

  /** What the table says of an id, read no earlier than anything before, is what the kept mints say. */
  lemma Lookup(sessions: Table, all: Table, kept: set<string>, horizon: int, id: string, now: int)
    requires Holds(sessions, all, kept, horizon) && kept <= all.Keys && horizon <= now
    ensures id in sessions && now <= sessions[id] <==> id in kept && now <= all[id]
    ensures Holds(sessions, all, kept, now)
    ensures id in sessions && now > sessions[id] ==> Holds(sessions - {id}, all, kept, now)
  {
  }

  // ----- when the mint times increase -----

  ghost predicate InOrder(mints: seq<Mint>) {
    forall i, j | 0 <= i < j < |mints| :: mints[i].time < mints[j].time
  }

  function LastMints(mints: seq<Mint>): (r: seq<Mint>)
    ensures |r| == Min(|mints|, MAX_SESSIONS)
  {
    if |mints| <= MAX_SESSIONS then mints else mints[|mints| - MAX_SESSIONS..]
  }

  /** One of the last hundred minted, a day ago or less. */
  ghost predicate IsLive(mints: seq<Mint>, id: string, now: int) {
    exists i | 0 <= i < |mints| && |mints| - 100 <= i ::
      mints[i].id == id && now <= mints[i].time + 24 * 60 * 60 * 1_000_000_000
  }

  function Ids(mints: seq<Mint>): set<string> {
    set i | 0 <= i < |mints| :: mints[i].id
  }

  lemma IdsStep(mints: seq<Mint>)
    requires mints != []
    ensures Ids(mints) == Ids(mints[..|mints| - 1]) + {mints[|mints| - 1].id}
  {
    var before := mints[..|mints| - 1];
    assert forall i | 0 <= i < |before| :: mints[i] == before[i];
  }

  lemma {:induction false} ExpiriesAre(mints: seq<Mint>)
    requires DistinctIds(mints)
    ensures Expiries(mints).Keys == Ids(mints) && |Ids(mints)| == |mints|
  {
    if mints != [] {
      IdsStep(mints);
      ExpiriesAre(mints[..|mints| - 1]);
      hide Ids;
    }
  }

  lemma {:induction false} MintAt(mints: seq<Mint>, i: nat)
    requires DistinctIds(mints) && i < |mints|
    ensures mints[i].id in Expiries(mints) && Expiries(mints)[mints[i].id] == mints[i].Expiry()
    ensures i < |mints| - 1 ==> mints[i].id != mints[|mints| - 1].id
  {
    if i < |mints| - 1 {
      var before := mints[..|mints| - 1];
      assert before[i] == mints[i];
      MintAt(before, i);
    }
  }

  lemma IdsOfSuffix(mints: seq<Mint>, n: nat)
    requires n <= |mints|
    ensures Ids(mints[n..]) <= Ids(mints)
  {
    assert forall i | 0 <= i < |mints| - n :: mints[n..][i] == mints[n + i];
  }

  lemma {:induction false} SuffixIds(mints: seq<Mint>, n: nat)
    requires DistinctIds(mints) && n <= |mints|
    ensures |Ids(mints[n..])| == |mints| - n
  {
    if n < |mints| {
      var last, before := mints[n..], mints[..|mints| - 1];
      assert last[..|last| - 1] == before[n..] && last[|last| - 1] == mints[|mints| - 1];
      SuffixIds(before, n);
      IdsStep(last);
      ExpiriesAre(before);
      IdsOfSuffix(before, n);
      hide Ids;
    } else {
      assert mints[n..] == [];
    }
  }

  /** With increasing times, the kept mints are the last hundred. */
  lemma KeptIsLast(mints: seq<Mint>, kept: set<string>)
    requires DistinctIds(mints) && IsKept(mints, kept) && InOrder(mints)
    ensures kept == Ids(LastMints(mints))
  {
    var last, n := LastMints(mints), |mints| - |LastMints(mints)|;
    assert last == mints[n..];
    KeptFacts(mints, kept);
    ExpiriesAre(mints);
    assert |Expiries(mints)| == |Expiries(mints).Keys| == |mints|;
    SuffixIds(mints, n);
    hide *;
    if id :| id in Ids(last) && id !in kept {
      LaterMints(mints, kept, n, id);
      SubsetSize(kept, Ids(last));
    } else {
      SubsetSize(Ids(last), kept);
    }
  }

  lemma LaterMints(mints: seq<Mint>, kept: set<string>, n: nat, id: string)
    requires DistinctIds(mints) && IsKept(mints, kept) && InOrder(mints)
    requires n <= |mints| && id in Ids(mints[n..]) && id !in kept
    ensures kept <= Ids(mints[n..])
  {
    hide *;
    var p := MintWithId(mints, n, id);
    forall k | k in kept ensures k in Ids(mints[n..]) {
      var q := KeptIsLater(mints, kept, p, k);
      IdOfMint(mints, n, q);
    }
  }

  lemma MintWithId(mints: seq<Mint>, n: nat, id: string) returns (p: nat)
    requires n <= |mints| && id in Ids(mints[n..])
    ensures n <= p < |mints| && mints[p].id == id
  {
    var last := mints[n..];
    var i :| 0 <= i < |last| && last[i].id == id;
    p := n + i;
  }

  lemma IdOfMint(mints: seq<Mint>, n: nat, q: nat)
    requires n <= q < |mints|
    ensures mints[q].id in Ids(mints[n..])
  {
    assert mints[n..][q - n] == mints[q];
  }

  /** Where one mint is not kept, only later ones are. */
  lemma KeptIsLater(mints: seq<Mint>, kept: set<string>, p: nat, k: string) returns (q: nat)
    requires DistinctIds(mints) && IsKept(mints, kept) && InOrder(mints)
    requires p < |mints| && mints[p].id !in kept && k in kept
    ensures p <= q < |mints| && mints[q].id == k
  {
    KeptFacts(mints, kept);
    ExpiriesAre(mints);
    q :| 0 <= q < |mints| && mints[q].id == k;
    MintAt(mints, p);
    MintAt(mints, q);
    hide DistinctIds;
    hide Expiries;
    hide Ids;
    if q < |mints| - 1 {
      assert Expiries(mints)[mints[p].id] <= Expiries(mints)[k];
    }
  }

  lemma LiveIffKept(mints: seq<Mint>, kept: set<string>, id: string, now: int)
    requires DistinctIds(mints) && IsKept(mints, kept)
    ensures InOrder(mints) ==>
              (IsLive(mints, id, now) <==> id in kept && id in Expiries(mints) && now <= Expiries(mints)[id])
  {
    hide *;
    if InOrder(mints) {
      KeptIsLast(mints, kept);
      LiveIs(mints, id, now);
    }
  }

  lemma LiveIs(mints: seq<Mint>, id: string, now: int)
    requires DistinctIds(mints)
    ensures IsLive(mints, id, now) <==>
            id in Ids(LastMints(mints)) && id in Expiries(mints) && now <= Expiries(mints)[id]
  {
    var last, n := LastMints(mints), |mints| - |LastMints(mints)|;
    assert last == mints[n..];
    hide DistinctIds;
    hide Expiries;
    hide LastMints;
    if IsLive(mints, id, now) {
      var i :| 0 <= i < |mints| && |mints| - 100 <= i &&
               mints[i].id == id && now <= mints[i].time + 24 * 60 * 60 * 1_000_000_000;
      assert last[i - n] == mints[i];
      MintAt(mints, i);
    }
    if id in Ids(last) {
      hide Ids;
      var p := MintWithId(mints, n, id);
      MintAt(mints, p);
      assert last[p - n] == mints[p];
    }
  }

  // ----- the table -----

  class ApiAuth {
    var sessions: Table
    ghost var mints: seq<Mint>     // in lock order
    ghost var kept: set<string>
    ghost var horizon: int         // the latest time that any operation has read

    ghost predicate Valid()
      reads this
    {
      && DistinctIds(mints) && IsKept(mints, kept)
      && Holds(sessions, Expiries(mints), kept, horizon)
      && |sessions| <= MAX_SESSIONS && "" !in Expiries(mints)
    }

    /** An empty table; no operation has read the clock before `start`. */
    constructor (ghost start: int)
      ensures Valid() && mints == [] && horizon == start
    {
      sessions, mints, kept, horizon := map[], [], {}, start;
    }

    /**
     A session is valid exactly when it is kept and has not expired. If the mint times increased, that is: when
     it is one of the last hundred minted and has not expired.
     */
    method ValidSession(id: string, now: int) returns (ok: bool)
      requires Valid() && now >= horizon
      modifies this
      ensures Valid() && mints == old(mints) && kept == old(kept) && horizon == now
      ensures ok <==> id in kept && id in Expiries(mints) && now <= Expiries(mints)[id]
      ensures InOrder(mints) ==> (ok <==> IsLive(mints, id, now))
    {
      KeptFacts(mints, kept);
      Lookup(sessions, Expiries(mints), kept, horizon, id, now);
      LiveIffKept(mints, kept, id, now);
      hide Holds;
      hide IsKept;
      hide DistinctIds;
      hide Expiries;
      hide InOrder;
      hide IsLive;
      horizon := now;
      if id !in sessions {
        return false;
      }
      if now > sessions[id] {
        SubsetSize((sessions - {id}).Keys, sessions.Keys);
        assert |sessions - {id}| == |(sessions - {id}).Keys| && |sessions| == |sessions.Keys|;
        sessions := sessions - {id};
        return false;
      }
      return true;
    }

    /**
     Mints a session, by a clock that may be behind those of earlier mints. The table goes on meaning what it
     means exactly when there is room or the search finds a victim, as it does whenever the clock is less than
     the lifetime of a session behind; otherwise the table outgrows its bound by one.
     */
    method CreateSession(id: string, now: int)
      requires Valid() && id != "" && id !in Expiries(mints)
      modifies this
      ensures mints == old(mints) + [Mint(id, now)] && horizon == Max(old(horizon), now)
      ensures Valid() <==> CanMakeRoom(Unexpired(old(sessions), now), now)
      ensures id in kept && Expiries(mints) == old(Expiries(mints))[id := now + 24 * 60 * 60 * 1_000_000_000]
      ensures Valid() ==> |sessions| <= 100
      ensures (forall k | k in old(Expiries(mints)) :: old(Expiries(mints))[k] < now + 2 * SESSION_TTL) ==> Valid()
      ensures !CanMakeRoom(Unexpired(old(sessions), now), now) ==>
                sessions == Unexpired(old(sessions), now)[id := now + SESSION_TTL] && |sessions| == MAX_SESSIONS + 1
    {
      ghost var mint, before, live := Mint(id, now), sessions, Unexpired(sessions, now);
      hide *;
      IsOpen(now);
      MakeRoom(now);
      ghost var rest := kept;
      if CanMakeRoom(live, now) {
        rest := RoomHolds(before, mints, kept, horizon, now, sessions);
        NewMint(sessions, mints, rest, Max(horizon, now), mint);
      } else {
        Outgrown(before, live, now, id);
      }
      NewExpiry(mints, mint);
      sessions := sessions[id := now + SESSION_TTL];
      mints, kept, horizon := mints + [mint], rest + {id}, Max(horizon, now);
      if CanMakeRoom(live, now) {
        IsValid();
      } else {
        IsNotValid();
      }
    }

    lemma IsOpen(now: int)
      requires Valid()
      ensures DistinctIds(mints) && IsKept(mints, kept) && Holds(sessions, Expiries(mints), kept, horizon)
      ensures |sessions| <= MAX_SESSIONS && "" !in Expiries(mints) && "" !in sessions
      ensures forall id | id in sessions :: id in Expiries(mints)
      ensures (forall k | k in Expiries(mints) :: Expiries(mints)[k] < now + 2 * SESSION_TTL) ==>
                CanMakeRoom(Unexpired(sessions, now), now)
    {
      hide Expiries;
      hide IsKept;
      hide DistinctIds;
      var live := Unexpired(sessions, now);
      if |live| >= MAX_SESSIONS && forall k | k in Expiries(mints) :: Expiries(mints)[k] < now + 2 * SESSION_TTL {
        assert |live| == |live.Keys|;
        var k :| k in live.Keys;
        assert live[k] == Expiries(mints)[k];
      }
    }

    lemma IsValid()
      requires DistinctIds(mints) && IsKept(mints, kept) && Holds(sessions, Expiries(mints), kept, horizon)
      requires |sessions| <= MAX_SESSIONS && "" !in Expiries(mints)
      ensures Valid() && |sessions| <= 100
    {
    }

    lemma IsNotValid()
      requires |sessions| > MAX_SESSIONS
      ensures !Valid()
    {
    }

    /** Drops what has expired and, if the table is full even so, its oldest entry, if the search finds one. */
    method MakeRoom(now: int)
      requires |sessions| <= MAX_SESSIONS && "" !in sessions
      modifies `sessions
      ensures var live := Unexpired(old(sessions), now);
              if CanMakeRoom(live, now) then IsRoom(live, sessions) else sessions == live
    {
      Prune(now);
      if |sessions| >= MAX_SESSIONS {
        var oldest := Oldest(now);
        sessions := sessions - {oldest};
      }
    }

    method Prune(now: int)
      modifies `sessions
      ensures sessions == Unexpired(old(sessions), now)
    {
      ghost var before := sessions;
      var todo := sessions.Keys;
      while todo != {}
        invariant todo <= before.Keys
        invariant forall k :: k in sessions <==> k in before && (k in todo || now <= before[k])
        invariant forall k | k in sessions :: sessions[k] == before[k]
      {
        var k :| k in todo;
        todo := todo - {k};
        if now > sessions[k] {
          sessions := sessions - {k};
        }
      }
    }

    /**
     The search for the smallest expiry, in any order. It starts from two lifetimes ahead of the clock, and finds
     an entry exactly when one expires before that; the empty id, which no session has, stands for none.
     */
    method Oldest(now: int) returns (oldest: string)
      ensures (exists k :: k in sessions && sessions[k] < now + 2 * SESSION_TTL) ==> IsOldest(sessions, oldest)
      ensures (forall k | k in sessions :: sessions[k] >= now + 2 * SESSION_TTL) ==> oldest == ""
    {
      var oldestExp := now + 2 * SESSION_TTL;
      oldest := "";
      var todo := sessions.Keys;
      ghost var done := {};
      while todo != {}
        invariant todo + done == sessions.Keys
        invariant forall k | k in done :: oldestExp <= sessions[k]
        invariant oldestExp < now + 2 * SESSION_TTL ==> oldest in done && sessions[oldest] == oldestExp
        invariant oldestExp >= now + 2 * SESSION_TTL ==> oldest == "" && oldestExp == now + 2 * SESSION_TTL
      {
        var k :| k in todo;
        todo, done := todo - {k}, done + {k};
        if sessions[k] < oldestExp {
          oldest, oldestExp := k, sessions[k];
        }
      }
      assert done == sessions.Keys;
    }
  }
}
