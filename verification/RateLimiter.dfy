/**
 The per-IP token bucket of the HTTP daemon, with eviction of idle entries.

 Times are seconds, as reals, and so are token counts. The clock is read before the lock is taken, so the
 times of a run, which lists the requests in lock order, may step back.
 */
module RateLimiter {

  const MAX_ENTRIES: int := 1000
  const EVICT_AGE: real := 300.0

  datatype Bucket = Bucket(tokens: real, last: real)
  datatype Request = Request(ip: string, now: real)

  function Full(now: real, rps: int): Bucket {
    Bucket(rps as real, now)
  }

  /** What refills in `seconds`. */
  function Refill(seconds: real, rps: int): real {
    seconds * rps as real
  }

  function Refilled(b: Bucket, now: real, rps: int): real {
    var tokens := b.tokens + Refill(now - b.last, rps);
    if tokens > rps as real then rps as real else tokens
  }

  function Admits(b: Bucket, now: real, rps: int): bool {
    Refilled(b, now, rps) >= 1.0
  }

  function Served(b: Bucket, now: real, rps: int): Bucket {
    Bucket(Refilled(b, now, rps) - if Admits(b, now, rps) then 1.0 else 0.0, now)
  }

  // ----- the limiter -----

  type Table = map<string, Bucket>

  function Kept(m: Table, now: real): Table {
    if |m| > MAX_ENTRIES then map k | k in m && now - m[k].last <= EVICT_AGE :: m[k] else m
  }

  function Entry(m: Table, r: Request, rps: int): Bucket {
    if r.ip in Kept(m, r.now) then Kept(m, r.now)[r.ip] else Full(r.now, rps)
  }

  /** The table after a run, oldest request first. */
  function TableAfter(run: seq<Request>, rps: int): Table {
    if run == [] then map[]
    else
      var r, m := run[|run| - 1], TableAfter(run[..|run| - 1], rps);
      Kept(m, r.now)[r.ip := Served(Entry(m, r, rps), r.now, rps)]
  }

  /** Whether the last request of a run is accepted. */
  function Accepted(run: seq<Request>, rps: int): bool
    requires run != []
  {
    var r := run[|run| - 1];
    Admits(Entry(TableAfter(run[..|run| - 1], rps), r, rps), r.now, rps)
  }

  // ----- one bucket per IP that is never evicted -----

  /** The times of one IP's requests. */
  function TimesOf(run: seq<Request>, ip: string): seq<real> {
    if run == [] then []
    else TimesOf(run[..|run| - 1], ip) + if run[|run| - 1].ip == ip then [run[|run| - 1].now] else []
  }

  /** A bucket that is full at its first request and serves all of them. */
  function Lone(times: seq<real>, rps: int): Bucket
    requires times != []
  {
    var now := times[|times| - 1];
    Served(if |times| == 1 then Full(now, rps) else Lone(times[..|times| - 1], rps), now, rps)
  }

  function LoneAccepts(times: seq<real>, rps: int): bool
    requires times != []
  {
    var now := times[|times| - 1];
    Admits(if |times| == 1 then Full(now, rps) else Lone(times[..|times| - 1], rps), now, rps)
  }

  // ----- runs -----

  /** No time is more than `lag` behind an earlier one; lag 0 is a nondecreasing run. */
  ghost predicate OrderedWithin(run: seq<Request>, lag: real) {
    forall i, j | 0 <= i < j < |run| :: run[j].now >= run[i].now - lag
  }

  function Max(x: real, y: real): real {
    if x >= y then x else y
  }

  function Latest(times: seq<real>): real
    requires times != []
  {
    if |times| == 1 then times[0] else Max(Latest(times[..|times| - 1]), times[|times| - 1])
  }

  lemma {:induction false} LatestIsOne(times: seq<real>) returns (i: nat)
    requires times != []
    ensures i < |times| && times[i] == Latest(times)
  {
    if |times| == 1 || Latest(times) == times[|times| - 1] {
      i := |times| - 1;
    } else {
      i := LatestIsOne(times[..|times| - 1]);
    }
  }

  // ----- tokens -----

  lemma RefillSum(x: real, y: real, rps: int)
    ensures Refill(x, rps) + Refill(y, rps) == Refill(x + y, rps)
  {
  }

  lemma RefillMonotone(x: real, y: real, rps: int)
    requires x >= y && rps >= 0
    ensures Refill(x, rps) >= Refill(y, rps)
  {
  }

  lemma RefillOf(rps: int)
    ensures Refill(0.0, rps) == 0.0 && Refill(1.0, rps) == rps as real
  {
  }

  lemma FullStaysFull(now: real, rps: int)
    ensures Refilled(Full(now, rps), now, rps) == rps as real
  {
    RefillOf(rps);
  }

  /**
   A bucket is never further in debt than what refills between its last request and its latest one; with a
   nondecreasing clock it is never in debt.
   */
  lemma {:induction false} TokensInRange(times: seq<real>, rps: int)
    requires times != [] && rps >= 0
    ensures Refill(Lone(times, rps).last - Latest(times), rps) <= Lone(times, rps).tokens <= rps as real
    ensures Lone(times, rps).last == times[|times| - 1]
  {
    hide Refill;
    var now, top := times[|times| - 1], Latest(times);
    RefillOf(rps);
    RefillMonotone(0.0, now - top, rps);
    FullStaysFull(now, rps);
    if |times| > 1 {
      var before := times[..|times| - 1];
      var b, old' := Lone(before, rps), Latest(before);
      TokensInRange(before, rps);
      RefillSum(b.last - old', now - b.last, rps);
      RefillMonotone(now - old', now - top, rps);
    }
  }

  /** One second after its latest request, a bucket is full. */
  lemma FullAgain(times: seq<real>, now: real, rps: int)
    requires times != [] && rps >= 1 && now >= Latest(times) + 1.0
    ensures Refilled(Lone(times, rps), now, rps) == rps as real
  {
    hide Refill;
    hide Latest;
    var b, top := Lone(times, rps), Latest(times);
    TokensInRange(times, rps);
    RefillSum(b.last - top, now - b.last, rps);
    RefillMonotone(now - top, 1.0, rps);
    RefillOf(rps);
  }

  // ----- eviction cannot be observed -----

  /** How far the clock may step back before eviction shows: half of what the eviction age has over a second. */
  const MAX_LAG: real := (EVICT_AGE - 1.0) / 2.0

  /**
   What the table knows of one IP: its bucket, or nothing because it was never seen or went unused for longer
   than the eviction age before some request in the run.
   */
  ghost predicate Tracks(run: seq<Request>, ip: string, rps: int) {
    var m, times := TableAfter(run, rps), TimesOf(run, ip);
    if times == [] then ip !in m
    else if ip in m then m[ip] == Lone(times, rps)
    else exists i | 0 <= i < |run| :: run[i].now - Lone(times, rps).last > EVICT_AGE
  }

  lemma {:induction false} TimesInRun(run: seq<Request>, ip: string, k: nat) returns (i: nat)
    requires k < |TimesOf(run, ip)|
    ensures i < |run| && run[i].now == TimesOf(run, ip)[k]
  {
    var before := run[..|run| - 1];
    if k < |TimesOf(before, ip)| {
      i := TimesInRun(before, ip, k);
    } else {
      i := |run| - 1;
    }
  }

  lemma OrderedPrefix(run: seq<Request>, lag: real)
    requires run != [] && OrderedWithin(run, lag)
    ensures OrderedWithin(run[..|run| - 1], lag)
  {
  }

  lemma {:induction false} TimesAreOrdered(run: seq<Request>, ip: string, lag: real)
    requires OrderedWithin(run, lag)
    ensures forall k, l | 0 <= k < l < |TimesOf(run, ip)| :: TimesOf(run, ip)[l] >= TimesOf(run, ip)[k] - lag
  {
    if run != [] {
      var before, r := run[..|run| - 1], run[|run| - 1];
      var times := TimesOf(before, ip);
      OrderedPrefix(run, lag);
      TimesAreOrdered(before, ip, lag);
      forall k | 0 <= k < |times| ensures r.now >= times[k] - lag {
        var i := TimesInRun(before, ip, k);
        assert run[i] == before[i];
      }
    }
  }

  /** If the table has forgotten an IP, or forgets it now, its bucket has filled up again. */
  lemma ForgottenIsFull(run: seq<Request>, r: Request, idle: real, rps: int)
    requires OrderedWithin(run + [r], MAX_LAG) && rps >= 1 && TimesOf(run, r.ip) != []
    requires idle - Lone(TimesOf(run, r.ip), rps).last > EVICT_AGE
    requires idle <= r.now + MAX_LAG
    ensures Refilled(Lone(TimesOf(run, r.ip), rps), r.now, rps) == rps as real
  {
    var all, times := run + [r], TimesOf(run, r.ip);
    TokensInRange(times, rps);
    assert all[..|run|] == run;
    OrderedPrefix(all, MAX_LAG);
    TimesAreOrdered(run, r.ip, MAX_LAG);
    var k := LatestIsOne(times);
    assert times[|times| - 1] >= times[k] - MAX_LAG;
    FullAgain(times, r.now, rps);
  }

  /** The table, for an IP that is asked about now, does what its never-evicted bucket would. */
  lemma EntryIsLone(run: seq<Request>, r: Request, rps: int)
    requires OrderedWithin(run + [r], MAX_LAG) && rps >= 1 && Tracks(run, r.ip, rps)
    ensures var times := TimesOf(run, r.ip);
            var b := if times == [] then Full(r.now, rps) else Lone(times, rps);
            Refilled(Entry(TableAfter(run, rps), r, rps), r.now, rps) == Refilled(b, r.now, rps)
  {
    hide Refilled;
    hide TableAfter;
    hide TimesOf;
    hide Lone;
    var all, m, times := run + [r], TableAfter(run, rps), TimesOf(run, r.ip);
    FullStaysFull(r.now, rps);
    if times != [] && r.ip !in Kept(m, r.now) {
      if r.ip in m {
        ForgottenIsFull(run, r, r.now, rps);
      } else {
        var i :| 0 <= i < |run| && run[i].now - Lone(times, rps).last > EVICT_AGE;
        assert all[i] == run[i] && all[|run|] == r;
        ForgottenIsFull(run, r, run[i].now, rps);
      }
    }
  }

  lemma TableStep(before: seq<Request>, r: Request, ip: string, rps: int)
    ensures TableAfter(before + [r], rps) ==
            Kept(TableAfter(before, rps), r.now)[r.ip := Served(Entry(TableAfter(before, rps), r, rps), r.now, rps)]
    ensures TimesOf(before + [r], ip) == TimesOf(before, ip) + if r.ip == ip then [r.now] else []
  {
    assert (before + [r])[..|before|] == before;
  }

  lemma LoneStep(times: seq<real>, now: real, rps: int)
    ensures var b := if times == [] then Full(now, rps) else Lone(times, rps);
            Lone(times + [now], rps) == Served(b, now, rps) && LoneAccepts(times + [now], rps) == Admits(b, now, rps)
  {
    assert (times + [now])[..|times|] == times;
  }

  /** Requests of others can only make the table forget an idle entry. */
  lemma OthersStep(before: seq<Request>, r: Request, ip: string, rps: int)
    requires Tracks(before, ip, rps) && r.ip != ip
    ensures Tracks(before + [r], ip, rps)
  {
    hide TableAfter;
    hide TimesOf;
    hide Lone;
    var run, times, m := before + [r], TimesOf(before, ip), TableAfter(before, rps);
    TableStep(before, r, ip, rps);
    assert times + [] == times;
    if times != [] && ip !in Kept(m, r.now) {
      if ip in m {
        assert run[|before|].now - Lone(times, rps).last > EVICT_AGE;
      } else {
        var i :| 0 <= i < |before| && before[i].now - Lone(times, rps).last > EVICT_AGE;
        assert run[i] == before[i];
      }
    }
  }

  lemma {:induction false} TableTracks(run: seq<Request>, ip: string, rps: int)
    requires OrderedWithin(run, MAX_LAG) && rps >= 1
    ensures Tracks(run, ip, rps)
  {
    if run != [] {
      var before, r := run[..|run| - 1], run[|run| - 1];
      assert before + [r] == run;
      OrderedPrefix(run, MAX_LAG);
      TableTracks(before, ip, rps);
      if r.ip == ip {
        OwnStep(before, r, rps);
      } else {
        OthersStep(before, r, ip, rps);
      }
    }
  }

  lemma OwnStep(before: seq<Request>, r: Request, rps: int)
    requires OrderedWithin(before + [r], MAX_LAG) && rps >= 1 && Tracks(before, r.ip, rps)
    ensures Tracks(before + [r], r.ip, rps)
  {
    hide TableAfter;
    hide TimesOf;
    hide Lone;
    hide Refilled;
    EntryIsLone(before, r, rps);
    TableStep(before, r, r.ip, rps);
    LoneStep(TimesOf(before, r.ip), r.now, rps);
  }

  /**
   Eviction is unobservable and IPs do not interfere: each request is answered as by a bucket of its own IP
   that is never evicted and serves nothing else.
   */
  lemma EvictionUnobservable(run: seq<Request>, rps: int)
    requires run != [] && OrderedWithin(run, MAX_LAG)
    ensures TimesOf(run, run[|run| - 1].ip) != []
    ensures Accepted(run, rps) == LoneAccepts(TimesOf(run, run[|run| - 1].ip), rps)
  {
    hide *;
    var before, r := run[..|run| - 1], run[|run| - 1];
    assert run == before + [r];
    TimesStep(before, r);
    AcceptedStep(before, r, rps);
    LoneStep(TimesOf(before, r.ip), r.now, rps);
    if rps >= 1 {
      OrderedPrefix(run, MAX_LAG);
      TableTracks(before, r.ip, rps);
      EntryIsLone(before, r, rps);
      SameRefill(before, r, rps);
    } else {
      NothingToGive(Entry(TableAfter(before, rps), r, rps), r.now, rps);
      var times := TimesOf(before, r.ip);
      NothingToGive(if times == [] then Full(r.now, rps) else Lone(times, rps), r.now, rps);
    }
  }

  /** Buckets that refill to the same admit the same. */
  lemma SameRefill(before: seq<Request>, r: Request, rps: int)
    requires var times := TimesOf(before, r.ip);
             var b := if times == [] then Full(r.now, rps) else Lone(times, rps);
             Refilled(Entry(TableAfter(before, rps), r, rps), r.now, rps) == Refilled(b, r.now, rps)
    ensures var times := TimesOf(before, r.ip);
            var b := if times == [] then Full(r.now, rps) else Lone(times, rps);
            Admits(Entry(TableAfter(before, rps), r, rps), r.now, rps) == Admits(b, r.now, rps)
  {
    hide Refilled;
    hide TimesOf;
    hide Lone;
    hide Entry;
    hide TableAfter;
  }

  lemma TimesStep(before: seq<Request>, r: Request)
    ensures TimesOf(before + [r], r.ip) == TimesOf(before, r.ip) + [r.now]
  {
    assert (before + [r])[..|before|] == before;
  }

  lemma AcceptedStep(before: seq<Request>, r: Request, rps: int)
    ensures Accepted(before + [r], rps) == Admits(Entry(TableAfter(before, rps), r, rps), r.now, rps)
  {
    assert (before + [r])[..|before|] == before;
    hide TableAfter;
    hide Entry;
    hide Admits;
  }

  /** With no whole token to give, every bucket refuses. */
  lemma NothingToGive(b: Bucket, now: real, rps: int)
    requires rps <= 0
    ensures !Admits(b, now, rps)
  {
  }

  // ----- bursts -----

  function Repeat(now: real, n: nat): seq<real> {
    seq(n, i => now)
  }

  /**
   Of a burst at one instant, at least a second after everything before, exactly the first `rps` are accepted,
   and each takes one token.
   */
  lemma {:induction false} BurstIsServed(times: seq<real>, now: real, n: nat, rps: int)
    requires rps >= 1 && n >= 1 && (times != [] ==> now >= Latest(times) + 1.0)
    ensures LoneAccepts(times + Repeat(now, n), rps) <==> n <= rps
    ensures Lone(times + Repeat(now, n), rps) == Bucket(if n <= rps then (rps - n) as real else 0.0, now)
  {
    var sofar := times + Repeat(now, n - 1);
    assert times + Repeat(now, n) == sofar + [now];
    LoneStep(sofar, now, rps);
    RefillOf(rps);
    hide Refill;
    if n > 1 {
      BurstIsServed(times, now, n - 1, rps);
    } else if times != [] {
      assert sofar == times;
      FullAgain(times, now, rps);
    }
  }

  // ----- the lag bound is exact -----

  ghost predicate Observable(run: seq<Request>, rps: int) {
    run != [] && TimesOf(run, run[|run| - 1].ip) != []
    && Accepted(run, rps) != LoneAccepts(TimesOf(run, run[|run| - 1].ip), rps)
  }

  const VICTIM: string := "v"

  function Name(n: nat): string {
    seq(n + 1, i => 'x')
  }

  /** Two requests of the victim, the second `lag` seconds earlier, and then `n` other clients. */
  function Crowd(lag: real, n: nat): seq<Request> {
    if n == 0 then [Request(VICTIM, lag), Request(VICTIM, 0.0)]
    else Crowd(lag, n - 1) + [Request(Name(n - 1), 0.0)]
  }

  lemma CrowdStarts(lag: real)
    requires lag > 0.0
    ensures IsCrowdTable(TableAfter(Crowd(lag, 0), 1), 0)
    ensures TimesOf(Crowd(lag, 0), VICTIM) == [lag, 0.0]
  {
    var two := Crowd(lag, 0);
    var one := two[..1];
    assert one == [Request(VICTIM, lag)] && one[..0] == [];
    assert TableAfter(one, 1) == map[VICTIM := Bucket(0.0, lag)];
    assert two[..|two| - 1] == one;
    assert TimesOf(one, VICTIM) == [] + [lag];
    assert TableAfter(two, 1) == map[VICTIM := Bucket(-lag, 0.0)];
  }

  /** The table of the crowd: the victim and `n` others, all last seen at time zero. */
  ghost predicate IsCrowdTable(m: Table, n: nat) {
    && |m| == n + 1 && VICTIM in m
    && (forall k | k in m :: m[k].last == 0.0)
    && (forall k | k in m && k != VICTIM :: 0 < |k| <= n && k[0] == 'x')
  }

  lemma ServedNow(b: Bucket, now: real, rps: int)
    ensures Served(b, now, rps).last == now
  {
  }

  lemma CrowdGrows(m: Table, n: nat, b: Bucket)
    requires IsCrowdTable(m, n) && b.last == 0.0
    ensures Kept(m, 0.0) == m && IsCrowdTable(m[Name(n) := b], n + 1)
  {
    assert Name(n)[0] == 'x' && |Name(n)| == n + 1;
    assert Name(n) !in m;
  }

  lemma {:induction false} CrowdFills(lag: real, n: nat)
    requires lag > 0.0
    ensures IsCrowdTable(TableAfter(Crowd(lag, n), 1), n)
    ensures TimesOf(Crowd(lag, n), VICTIM) == [lag, 0.0]
  {
    hide *;
    if n == 0 {
      CrowdStarts(lag);
    } else {
      CrowdFills(lag, n - 1);
      CrowdNext(lag, n);
      CrowdStep(Crowd(lag, n - 1), n - 1);
    }
  }

  lemma CrowdNext(lag: real, n: nat)
    requires n > 0
    ensures Crowd(lag, n) == Crowd(lag, n - 1) + [Request(Name(n - 1), 0.0)]
  {
  }

  lemma CrowdStep(before: seq<Request>, n: nat)
    requires IsCrowdTable(TableAfter(before, 1), n)
    ensures IsCrowdTable(TableAfter(before + [Request(Name(n), 0.0)], 1), n + 1)
    ensures TimesOf(before + [Request(Name(n), 0.0)], VICTIM) == TimesOf(before, VICTIM)
  {
    hide *;
    var r, m := Request(Name(n), 0.0), TableAfter(before, 1);
    TableStep(before, r, VICTIM, 1);
    ServedNow(Entry(m, r, 1), 0.0, 1);
    CrowdGrows(m, n, Served(Entry(m, r, 1), 0.0, 1));
    NotVictim(n);
    assert TimesOf(before, VICTIM) + [] == TimesOf(before, VICTIM);
  }

  lemma NotVictim(n: nat)
    ensures Name(n) != VICTIM
  {
    assert Name(n)[0] == 'x';
  }

  lemma {:induction false} CrowdIsOrdered(lag: real, n: nat)
    requires lag > 0.0
    ensures OrderedWithin(Crowd(lag, n), lag)
    ensures forall i | 0 <= i < |Crowd(lag, n)| :: 0.0 <= Crowd(lag, n)[i].now <= lag
  {
    if n > 0 {
      CrowdIsOrdered(lag, n - 1);
    }
  }

  /** The crowd, then a request late enough to evict all of it, then the victim with a clock `lag` behind. */
  function Overdue(lag: real, evict: real): seq<Request> {
    Crowd(lag, MAX_ENTRIES) + [Request(Name(0), evict)] + [Request(VICTIM, evict - lag)]
  }

  /** One step past the bound, the limiter accepts a request that the never-evicted bucket refuses. */
  lemma LagBeyondBound(lag: real) returns (run: seq<Request>)
    requires MAX_LAG < lag <= 150.0
    ensures OrderedWithin(run, lag) && Observable(run, 1)
  {
    var evict := EVICT_AGE + (2.0 * lag - 299.0) / 2.0;
    var crowd, r, last := Crowd(lag, MAX_ENTRIES), Request(Name(0), evict), Request(VICTIM, evict - lag);
    run := Overdue(lag, evict);
    CrowdFills(lag, MAX_ENTRIES);
    VictimForgotten(crowd, r, last);
    LoneVictim(lag, evict - lag);
    OverdueIsOrdered(lag, crowd, r, last);
  }

  lemma OverdueIsOrdered(lag: real, crowd: seq<Request>, r: Request, last: Request)
    requires lag > 0.0 && crowd == Crowd(lag, MAX_ENTRIES) && r.now >= lag && last.now == r.now - lag
    ensures OrderedWithin(crowd + [r] + [last], lag)
  {
    hide Crowd;
    CrowdIsOrdered(lag, MAX_ENTRIES);
  }

  /** The crowd goes when `r` comes, and with it the victim, which is full when it returns. */
  lemma VictimForgotten(crowd: seq<Request>, r: Request, last: Request)
    requires IsCrowdTable(TableAfter(crowd, 1), MAX_ENTRIES) && r.ip == Name(0) && r.now > EVICT_AGE
    requires last.ip == VICTIM
    ensures Accepted(crowd + [r] + [last], 1)
    ensures TimesOf(crowd + [r] + [last], VICTIM) == TimesOf(crowd, VICTIM) + [last.now]
  {
    hide TableAfter;
    hide TimesOf;
    var m, before, run := TableAfter(crowd, 1), crowd + [r], crowd + [r] + [last];
    NotVictim(0);
    TableStep(crowd, r, VICTIM, 1);
    assert Kept(m, r.now) == map[];
    TableStep(before, last, VICTIM, 1);
    assert TimesOf(crowd, VICTIM) + [] == TimesOf(crowd, VICTIM);
    assert run[..|run| - 1] == before;
    FullStaysFull(last.now, 1);
  }

  lemma LoneVictim(lag: real, now: real)
    requires lag > 0.0 && now - lag < 1.0
    ensures !LoneAccepts([lag, 0.0] + [now], 1)
  {
    var three, two := [lag, 0.0] + [now], [lag, 0.0];
    assert three[..2] == two && two[..1] == [lag];
    assert Lone([lag], 1) == Bucket(0.0, lag);
    assert Lone(two, 1) == Bucket(-lag, 0.0);
  }

  /** Eviction stays unobservable on all runs of a given lag exactly up to the bound. */
  lemma LagBoundIsExact(lag: real)
    ensures (forall run: seq<Request>, rps | OrderedWithin(run, lag) :: !Observable(run, rps)) <==> lag <= 149.5
  {
    if lag <= MAX_LAG {
      forall run: seq<Request>, rps | OrderedWithin(run, lag) ensures !Observable(run, rps) {
        assert OrderedWithin(run, MAX_LAG);
        if run != [] {
          EvictionUnobservable(run, rps);
        }
      }
    } else {
      var d := if lag <= 150.0 then lag else 150.0;
      var run := LagBeyondBound(d);
      assert OrderedWithin(run, lag);
    }
  }

  // ----- how many requests a window lets through -----

  /** How many of the requests in a run, made in [from, to], the never-evicted bucket accepts. */
  function LoneCount(times: seq<real>, from: real, to: real, rps: int): nat {
    if times == [] then 0
    else
      var now := times[|times| - 1];
      LoneCount(times[..|times| - 1], from, to, rps)
      + if from <= now <= to && LoneAccepts(times, rps) then 1 else 0
  }

  function Count(run: seq<Request>, ip: string, from: real, to: real, rps: int): nat {
    if run == [] then 0
    else
      var r := run[|run| - 1];
      Count(run[..|run| - 1], ip, from, to, rps)
      + if r.ip == ip && from <= r.now <= to && Accepted(run, rps) then 1 else 0
  }

  /** Tokens less what has refilled since time zero never grow, and each acceptance takes one. */
  lemma {:induction false} LoneWindow(times: seq<real>, from: real, to: real, rps: int)
    requires rps >= 0 && from <= to
    ensures var n := LoneCount(times, from, to, rps) as real;
            && n <= rps as real + Refill(to - from, rps)
            && (n > 0.0 ==> Spent(Lone(times, rps), rps) + n <= rps as real - Refill(from, rps))
  {
    hide Refill;
    hide Lone;
    hide LoneAccepts;
    RefillOf(rps);
    RefillMonotone(to - from, 0.0, rps);
    if times != [] {
      hide LoneCount;
      var before, now := times[..|times| - 1], times[|times| - 1];
      assert before + [now] == times;
      LoneWindow(before, from, to, rps);
      LoneCountStep(before, now, from, to, rps);
      LoneStep(before, now, rps);
      var a := if before == [] then Full(now, rps) else Lone(before, rps);
      SpentGrows(a, now, rps);
      if from <= now <= to && LoneAccepts(times, rps) {
        RefillMonotone(now, from, rps);
        RefillMonotone(to, now, rps);
        RefillSum(to - from, from, rps);
      }
    }
  }

  /** Tokens less what has refilled since time zero. */
  function Spent(b: Bucket, rps: int): real {
    b.tokens - Refill(b.last, rps)
  }

  lemma SpentGrows(a: Bucket, now: real, rps: int)
    ensures var taken := if Admits(a, now, rps) then 1.0 else 0.0;
            && Spent(Served(a, now, rps), rps) + taken <= Spent(a, rps)
            && Spent(Served(a, now, rps), rps) + taken <= rps as real - Refill(now, rps)
    ensures Admits(a, now, rps) ==> Served(a, now, rps).tokens >= 0.0
  {
    hide Refill;
    RefillSum(now - a.last, a.last, rps);
  }

  lemma {:induction false} CountIsLone(run: seq<Request>, ip: string, from: real, to: real, rps: int)
    requires OrderedWithin(run, MAX_LAG)
    ensures Count(run, ip, from, to, rps) == LoneCount(TimesOf(run, ip), from, to, rps)
  {
    if run == [] {
      NoTimes(ip);
    } else {
      hide *;
      var before, r := run[..|run| - 1], run[|run| - 1];
      assert before + [r] == run;
      OrderedPrefix(run, MAX_LAG);
      CountIsLone(before, ip, from, to, rps);
      EvictionUnobservable(run, rps);
      CountsAgree(before, r, ip, from, to, rps);
    }
  }

  lemma CountsAgree(before: seq<Request>, r: Request, ip: string, from: real, to: real, rps: int)
    requires Count(before, ip, from, to, rps) == LoneCount(TimesOf(before, ip), from, to, rps)
    requires TimesOf(before + [r], r.ip) != []
    requires Accepted(before + [r], rps) == LoneAccepts(TimesOf(before + [r], r.ip), rps)
    ensures Count(before + [r], ip, from, to, rps) == LoneCount(TimesOf(before + [r], ip), from, to, rps)
  {
    hide *;
    CountStep(before, r, ip, from, to, rps);
    TableStep(before, r, ip, rps);
    var times := TimesOf(before, ip);
    if r.ip == ip {
      LoneCountStep(times, r.now, from, to, rps);
    } else {
      assert times + [] == times;
    }
  }

  lemma CountStep(before: seq<Request>, r: Request, ip: string, from: real, to: real, rps: int)
    ensures Count(before + [r], ip, from, to, rps) ==
            Count(before, ip, from, to, rps) +
            if r.ip == ip && from <= r.now <= to && Accepted(before + [r], rps) then 1 else 0
  {
    hide Accepted;
    assert (before + [r])[..|before|] == before;
  }

  lemma LoneCountStep(times: seq<real>, now: real, from: real, to: real, rps: int)
    ensures LoneCount(times + [now], from, to, rps) ==
            LoneCount(times, from, to, rps) + if from <= now <= to && LoneAccepts(times + [now], rps) then 1 else 0
  {
    hide LoneAccepts;
    assert (times + [now])[..|times|] == times;
  }

  lemma NoTimes(ip: string)
    ensures TimesOf([], ip) == []
  {
  }

  /** Evictions included, one IP gets at most a full bucket and what refills during the window. */
  lemma WindowBound(run: seq<Request>, ip: string, from: real, to: real, rps: int)
    requires OrderedWithin(run, MAX_LAG) && rps >= 0 && from <= to
    ensures Count(run, ip, from, to, rps) as real <= rps as real + Refill(to - from, rps)
  {
    CountIsLone(run, ip, from, to, rps);
    LoneWindow(TimesOf(run, ip), from, to, rps);
  }

  /** With a nondecreasing clock no bucket of the table is ever in debt or above its capacity. */
  lemma {:induction false} TableInRange(run: seq<Request>, rps: int)
    requires OrderedWithin(run, 0.0) && rps >= 0
    ensures forall ip | ip in TableAfter(run, rps) ::
              && 0.0 <= TableAfter(run, rps)[ip].tokens <= rps as real
              && run != [] && TableAfter(run, rps)[ip].last <= run[|run| - 1].now
  {
    if run != [] {
      hide TableAfter;
      hide Served;
      var before, r := run[..|run| - 1], run[|run| - 1];
      OrderedPrefix(run, 0.0);
      TableInRange(before, rps);
      TableStep(before, r, r.ip, rps);
      assert before + [r] == run;
      ServedInRange(Entry(TableAfter(before, rps), r, rps), r.now, rps);
    } else {
      assert TableAfter(run, rps) == map[];
    }
  }

  lemma ServedInRange(b: Bucket, now: real, rps: int)
    requires rps >= 0 && 0.0 <= b.tokens <= rps as real && b.last <= now
    ensures 0.0 <= Served(b, now, rps).tokens <= rps as real && Served(b, now, rps).last == now
  {
    hide Refill;
    RefillMonotone(now - b.last, 0.0, rps);
    RefillOf(rps);
  }

  // ----- the middleware -----

  lemma HandleIs(run: seq<Request>, m: Table, r: Request, rps: int, entry: Bucket)
    requires m == TableAfter(run, rps)
    requires entry == if r.ip in Kept(m, r.now) then Kept(m, r.now)[r.ip] else Bucket(rps as real, r.now)
    ensures Accepted(run + [r], rps) == Admits(entry, r.now, rps)
    ensures TableAfter(run + [r], rps) == Kept(m, r.now)[r.ip := Served(entry, r.now, rps)]
  {
    hide Kept;
    hide TableAfter;
    TableStep(run, r, r.ip, rps);
    assert (run + [r])[..|run|] == run;
  }

  class Limiter {
    const rps: int
    var limiters: Table
    ghost var run: seq<Request>

    ghost predicate Valid()
      reads this
    {
      limiters == TableAfter(run, rps)
    }

    constructor (rps: int)
      ensures Valid() && run == [] && this.rps == rps
    {
      this.rps := rps;
      limiters, run := map[], [];
    }

    /** The critical section: evict when crowded, find or make the entry, refill, and take a token. */
    method Handle(ip: string, now: real) returns (accepted: bool)
      requires Valid()
      modifies this
      ensures Valid() && run == old(run) + [Request(ip, now)]
      ensures accepted == Accepted(run, rps)
    {
      hide TableAfter;
      hide Kept;
      ghost var m := limiters;
      EvictWhenCrowded(now);
      if ip !in limiters {
        limiters := limiters[ip := Bucket(rps as real, now)];
      }
      var entry := limiters[ip];
      var tokens := entry.tokens + Refill(now - entry.last, rps);
      if tokens > rps as real {
        tokens := rps as real;
      }
      accepted := !(tokens < 1.0);
      if accepted {
        tokens := tokens - 1.0;
      }
      limiters := limiters[ip := Bucket(tokens, now)];
      HandleIs(run, m, Request(ip, now), rps, entry);
      run := run + [Request(ip, now)];
    }

    method EvictWhenCrowded(now: real)
      modifies `limiters
      ensures limiters == Kept(old(limiters), now)
      ensures |old(limiters)| <= 1000 ==> limiters == old(limiters)
      ensures |old(limiters)| > 1000 ==>
                forall k :: k in limiters <==> k in old(limiters) && now - old(limiters)[k].last <= 300.0
    {
      if |limiters| > MAX_ENTRIES {
        Evict(now);
      }
    }

    /** Deletes the idle entries, in whatever order the map is walked. */
    method Evict(now: real)
      modifies `limiters
      ensures limiters == map k | k in old(limiters) && now - old(limiters)[k].last <= EVICT_AGE :: old(limiters)[k]
    {
      ghost var m := limiters;
      var keys := limiters.Keys;
      while keys != {}
        invariant keys <= m.Keys
        invariant forall k :: k in limiters <==> k in m && (k in keys || now - m[k].last <= EVICT_AGE)
        invariant forall k | k in limiters :: limiters[k] == m[k]
      {
        var k :| k in keys;
        keys := keys - {k};
        if now - limiters[k].last > EVICT_AGE {
          limiters := limiters - {k};
        }
      }
    }
  }
}
