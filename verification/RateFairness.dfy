/**
 What a client of the rate limiter can count on: a refusal costs it nothing, no token is lost but what does not fit
 the bucket, and whoever keeps asking is let through at the full rate.
 */
module RateFairness {
  import opened RateLimiter

  // ----- a refusal costs nothing -----

  lemma RefillAgain(b: Bucket, now: real, t: real, rps: int)
    requires b.tokens + Refill(now - b.last, rps) <= rps as real
    ensures Refilled(Bucket(b.tokens + Refill(now - b.last, rps), now), t, rps) == Refilled(b, t, rps)
  {
    RefillSum(now - b.last, t - now, rps);
    hide Refill;
  }

  /** A refused request leaves the bucket as it was for every later time. */
  lemma RefusalCostsNothing(times: seq<real>, now: real, t: real, rps: int)
    requires rps >= 1 && !LoneAccepts(times + [now], rps)
    ensures times != []
    ensures Refilled(Lone(times + [now], rps), t, rps) == Refilled(Lone(times, rps), t, rps)
  {
    LoneStep(times, now, rps);
    FullStaysFull(now, rps);
    hide Refill;
    hide Lone;
    hide LoneAccepts;
    if times != [] {
      RefillAgain(Lone(times, rps), now, t, rps);
    }
  }

  lemma SameAnswers(b: Bucket, c: Bucket, now: real, rps: int)
    requires Refilled(b, now, rps) == Refilled(c, now, rps)
    ensures Served(b, now, rps) == Served(c, now, rps) && Admits(b, now, rps) == Admits(c, now, rps)
  {
    hide Refilled;
  }

  lemma TimesAppend(a: seq<real>, b: seq<real>, x: real)
    ensures a + (b + [x]) == a + b + [x]
  {
  }

  /** Whatever is asked later is answered as if the refused request had not been made. */
  lemma {:induction false} RefusedDoesNotMatter(times: seq<real>, now: real, more: seq<real>, rps: int)
    requires rps >= 1 && !LoneAccepts(times + [now], rps) && more != []
    ensures times + more != [] && times + [now] + more != []
    ensures LoneAccepts(times + [now] + more, rps) == LoneAccepts(times + more, rps)
    ensures Lone(times + [now] + more, rps) == Lone(times + more, rps)
    decreases |more|
  {
    hide *;
    var before, t := more[..|more| - 1], more[|more| - 1];
    assert more == before + [t];
    TimesAppend(times, before, t);
    TimesAppend(times + [now], before, t);
    LoneStep(times + before, t, rps);
    LoneStep(times + [now] + before, t, rps);
    RefusalCostsNothing(times, now, t, rps);
    if before == [] {
      assert times + before == times && times + [now] + before == times + [now];
    } else {
      RefusedDoesNotMatter(times, now, before, rps);
    }
    SameAnswers(Lone(times + [now] + before, rps), Lone(times + before, rps), t, rps);
  }

  lemma {:induction false} TimesOfAppend(a: seq<Request>, b: seq<Request>, ip: string)
    ensures TimesOf(a + b, ip) == TimesOf(a, ip) + TimesOf(b, ip)
  {
    if b == [] {
      assert a + b == a;
    } else {
      assert (a + b)[..|a + b| - 1] == a + b[..|b| - 1];
      TimesOfAppend(a, b[..|b| - 1], ip);
    }
  }

  lemma TimesOfOne(r: Request, ip: string)
    ensures TimesOf([r], ip) == if r.ip == ip then [r.now] else []
  {
    assert [r][..0] == [] && TimesOf([], ip) == [];
  }

  lemma OrderedWithout(run: seq<Request>, r: Request, more: seq<Request>, lag: real)
    requires OrderedWithin(run + [r] + more, lag)
    ensures OrderedWithin(run + more, lag) && OrderedWithin(run + [r], lag)
  {
    var all, part := run + [r] + more, run + more;
    forall i, j | 0 <= i < j < |part| ensures part[j].now >= part[i].now - lag {
      var k, l := if i < |run| then i else i + 1, if j < |run| then j else j + 1;
      assert all[k] == part[i] && all[l] == part[j];
    }
    forall i, j | 0 <= i < j < |run + [r]| ensures (run + [r])[j].now >= (run + [r])[i].now - lag {
      assert all[i] == (run + [r])[i] && all[j] == (run + [r])[j];
    }
  }

  /** So it is for the limiter as a whole: a refused request changes the answer to no later one, of any IP. */
  lemma RefusedLeavesNoTrace(run: seq<Request>, r: Request, more: seq<Request>, rps: int)
    requires rps >= 1 && OrderedWithin(run + [r] + more, MAX_LAG) && more != []
    requires !Accepted(run + [r], rps)
    ensures Accepted(run + [r] + more, rps) == Accepted(run + more, rps)
  {
    hide *;
    var last := more[|more| - 1];
    assert (run + [r] + more)[|run| + |more|] == last && (run + more)[|run| + |more| - 1] == last;
    OrderedWithout(run, r, more, MAX_LAG);
    EvictionUnobservable(run + [r], rps);
    EvictionUnobservable(run + [r] + more, rps);
    EvictionUnobservable(run + more, rps);
    assert (run + [r])[|run|] == r;
    var ip := last.ip;
    TimesOfAppend(run, [r], ip);
    TimesOfAppend(run + [r], more, ip);
    TimesOfAppend(run, more, ip);
    TimesOfOne(r, ip);
    if r.ip == ip {
      LastIsLast(more);
      RefusedDoesNotMatter(TimesOf(run, ip), r.now, TimesOf(more, ip), rps);
    } else {
      assert TimesOf(run, ip) + [] == TimesOf(run, ip);
    }
  }

  lemma LastIsLast(more: seq<Request>)
    requires more != []
    ensures TimesOf(more, more[|more| - 1].ip) != []
  {
  }

  // ----- no token is lost -----

  /** What did not fit the bucket when it refilled, over all requests. */
  function Spilled(times: seq<real>, rps: int): real {
    if |times| <= 1 then 0.0
    else
      var before, now := times[..|times| - 1], times[|times| - 1];
      var b := Lone(before, rps);
      Spilled(before, rps) + b.tokens + Refill(now - b.last, rps) - Refilled(b, now, rps)
  }

  function AcceptedOf(times: seq<real>, rps: int): nat {
    if times == [] then 0 else AcceptedOf(times[..|times| - 1], rps) + if LoneAccepts(times, rps) then 1 else 0
  }

  lemma SpilledStep(times: seq<real>, now: real, rps: int)
    requires times != []
    ensures var b := Lone(times, rps);
            Spilled(times + [now], rps) ==
            Spilled(times, rps) + b.tokens + Refill(now - b.last, rps) - Refilled(b, now, rps)
    ensures AcceptedOf(times + [now], rps) == AcceptedOf(times, rps) + if LoneAccepts(times + [now], rps) then 1 else 0
  {
    hide Lone;
    hide LoneAccepts;
    hide Refill;
    hide Refilled;
    assert (times + [now])[..|times|] == times;
  }

  /**
   The bucket keeps its books: what it was given, a full bucket and what has refilled since, is what was taken for
   accepted requests, what did not fit, and what is left.
   */
  lemma {:induction false} TokensAreConserved(times: seq<real>, rps: int)
    requires times != []
    ensures rps as real + Refill(times[|times| - 1] - times[0], rps) ==
            AcceptedOf(times, rps) as real + Spilled(times, rps) + Lone(times, rps).tokens
    ensures Lone(times, rps).last == times[|times| - 1]
  {
    var before, now := times[..|times| - 1], times[|times| - 1];
    assert before + [now] == times;
    if before == [] {
      FirstIsConserved(times, rps);
    } else {
      hide *;
      TokensAreConserved(before, rps);
      SpilledStep(before, now, rps);
      LoneStep(before, now, rps);
      RefillSum(before[|before| - 1] - before[0], now - before[|before| - 1], rps);
      OneMoreServed(Lone(before, rps), now, rps);
    }
  }

  lemma FirstIsConserved(times: seq<real>, rps: int)
    requires |times| == 1
    ensures rps as real + Refill(times[0] - times[0], rps) ==
            AcceptedOf(times, rps) as real + Spilled(times, rps) + Lone(times, rps).tokens
    ensures Lone(times, rps).last == times[0]
  {
    RefillOf(rps);
    FullStaysFull(times[0], rps);
    hide Refill;
    assert AcceptedOf(times[..0], rps) == 0;
  }

  lemma OneMoreServed(b: Bucket, now: real, rps: int)
    ensures Served(b, now, rps).last == now
    ensures Served(b, now, rps).tokens == Refilled(b, now, rps) - if Admits(b, now, rps) then 1.0 else 0.0
  {
  }

  // ----- who keeps asking is served at the full rate -----

  /** A nondecreasing sequence in which no step is longer than `gap`. */
  ghost predicate KeepsAsking(times: seq<real>, gap: real) {
    forall i | 0 < i < |times| :: 0.0 <= times[i] - times[i - 1] <= gap
  }

  /**
   How many tokens an acceptance may cost: the one that it takes, and at one request per second, where a waiting
   client may fill the bucket to the brim, what refills between two requests.
   */
  function Cost(gap: real, rps: int): real {
    if rps == 1 then 1.0 + Refill(gap, rps) else 1.0
  }

  function Paid(n: nat, cost: real): real {
    n as real * cost
  }

  lemma PaidStep(n: nat, cost: real)
    ensures Paid(n + 1, cost) == Paid(n, cost) + cost && Paid(0, cost) == 0.0
  {
  }

  /** A request that comes at most `gap` after the last one, to a bucket with a token's room. */
  lemma OneAsked(b: Bucket, now: real, gap: real, rps: int)
    requires rps >= 1 && 0.0 <= b.tokens && (b.tokens <= rps as real - 1.0 || b.tokens < 1.0)
    requires 0.0 <= now - b.last <= gap && Refill(gap, rps) <= 1.0
    ensures var c, n := Served(b, now, rps), if Admits(b, now, rps) then Cost(gap, rps) else 0.0;
            && 0.0 <= c.tokens && (c.tokens <= rps as real - 1.0 || c.tokens < 1.0)
            && n + c.tokens >= b.tokens + Refill(now - b.last, rps)
            && (c.tokens >= 1.0 ==> b.tokens >= 1.0 && n >= Refill(now - b.last, rps))
            && (n > 0.0 ==> n >= Refill(now - b.last, rps))
  {
    RefillMonotone(now - b.last, 0.0, rps);
    RefillMonotone(gap, now - b.last, rps);
    RefillOf(rps);
    hide Refill;
  }

  /** What the window owes: tokens that are left count as acceptances to come. */
  lemma {:induction false} WindowOwes(times: seq<real>, from: real, to: real, gap: real, rps: int)
    requires rps >= 1 && gap >= 0.0 && KeepsAsking(times, gap) && Refill(gap, rps) <= 1.0
    requires times != [] && times[0] <= from && times[|times| - 1] <= to
    ensures var b, n := Lone(times, rps), Paid(LoneCount(times, from, to, rps), Cost(gap, rps));
            && b.last == times[|times| - 1] && 0.0 <= b.tokens && (b.tokens <= rps as real - 1.0 || b.tokens < 1.0)
            && (b.last >= from ==> n + b.tokens >= Refill(b.last - from, rps))
            && (b.last >= from && b.tokens >= 1.0 ==> n >= Refill(b.last - from, rps))
  {
    hide *;
    var before, now := times[..|times| - 1], times[|times| - 1];
    assert before + [now] == times;
    LoneStep(before, now, rps);
    LoneCountStep(before, now, from, to, rps);
    RefillOf(rps);
    RefillMonotone(gap, 0.0, rps);
    if before == [] {
      FirstServed(now, rps);
      PaidPositive(LoneCount(times, from, to, rps), gap, rps);
    } else {
      AskedBefore(times, gap);
      WindowOwes(before, from, to, gap, rps);
      var b, m := Lone(before, rps), LoneCount(before, from, to, rps);
      OneAsked(b, now, gap, rps);
      OneMoreServed(b, now, rps);
      PaidStep(m, Cost(gap, rps));
      PaidPositive(m, gap, rps);
      RefillSum(b.last - from, now - b.last, rps);
      if b.last < from {
        RefillMonotone(now - b.last, now - from, rps);
      }
    }
  }

  lemma FirstServed(now: real, rps: int)
    requires rps >= 1
    ensures Served(Full(now, rps), now, rps) == Bucket(rps as real - 1.0, now)
  {
    FullStaysFull(now, rps);
  }

  lemma AskedBefore(times: seq<real>, gap: real)
    requires |times| > 1 && KeepsAsking(times, gap)
    ensures var before, now := times[..|times| - 1], times[|times| - 1];
            KeepsAsking(before, gap) && 0.0 <= now - before[|before| - 1] <= gap && before[0] == times[0]
  {
  }

  lemma PaidPositive(n: nat, gap: real, rps: int)
    requires rps >= 1
    ensures (rps == 1 ==> Refill(gap, rps) >= 0.0) ==> Paid(n, Cost(gap, rps)) >= 0.0
  {
  }

  /**
   The counterpart of `WindowBound`: of a client that keeps asking, with a request at least every 1/rps seconds,
   the limiter accepts within any stretch of time all but one of the requests that the rate allows; at one request
   per second, all but one of those that it allows when each may cost what refills between two requests as well.
   */
  lemma SteadyClientIsServed(run: seq<Request>, ip: string, from: real, to: real, gap: real, rps: int)
    requires OrderedWithin(run, MAX_LAG) && rps >= 1
    requires var times := TimesOf(run, ip);
             && times != [] && times[0] <= from <= times[|times| - 1] == to
             && gap >= 0.0 && KeepsAsking(times, gap) && gap * rps as real <= 1.0
    ensures var n := Count(run, ip, from, to, rps) as real;
            n * (if rps == 1 then 1.0 + gap else 1.0) > (to - from) * rps as real - 1.0
  {
    var times := TimesOf(run, ip);
    RefillIs(gap, rps);
    RefillIs(to - from, rps);
    hide *;
    CountIsLone(run, ip, from, to, rps);
    WindowOwes(times, from, to, gap, rps);
    PaidIs(Count(run, ip, from, to, rps), gap, rps);
  }

  lemma RefillIs(seconds: real, rps: int)
    ensures Refill(seconds, rps) == seconds * rps as real
  {
  }

  lemma PaidIs(n: nat, gap: real, rps: int)
    ensures Paid(n, Cost(gap, rps)) == n as real * (if rps == 1 then 1.0 + gap else 1.0)
  {
    RefillIs(gap, rps);
  }

  /** At two requests or more per second the rate is met but for one request, and not exceeded but for a full bucket. */
  lemma SteadyClientGetsTheRate(run: seq<Request>, ip: string, from: real, to: real, gap: real, rps: int)
    requires OrderedWithin(run, MAX_LAG) && rps >= 2
    requires var times := TimesOf(run, ip);
             && times != [] && times[0] <= from <= times[|times| - 1] == to
             && gap >= 0.0 && KeepsAsking(times, gap) && gap * rps as real <= 1.0
    ensures (to - from) * rps as real - 1.0 < Count(run, ip, from, to, rps) as real
    ensures Count(run, ip, from, to, rps) as real <= rps as real + (to - from) * rps as real
  {
    RefillIs(to - from, rps);
    hide *;
    SteadyClientIsServed(run, ip, from, to, gap, rps);
    WindowBound(run, ip, from, to, rps);
  }

  lemma NextRequest(before: seq<Request>, m: Table, r: Request, b: Bucket)
    requires TableAfter(before, 1) == m && |m| <= 1 && b == if r.ip in m then m[r.ip] else Full(r.now, 1)
    ensures Accepted(before + [r], 1) == Admits(b, r.now, 1)
    ensures TableAfter(before + [r], 1) == m[r.ip := Served(b, r.now, 1)]
  {
    TableStep(before, r, r.ip, 1);
    AcceptedStep(before, r, 1);
    hide TableAfter;
    hide Served;
    hide Admits;
  }

  /** Three requests half a second apart, at one per second: the second one is refused, the third is accepted. */
  lemma HalfSecondsApart(ip: string) returns (run: seq<Request>)
    ensures run == [Request(ip, 0.0), Request(ip, 0.5), Request(ip, 1.0)]
    ensures Accepted(run[..1], 1) && !Accepted(run[..2], 1) && Accepted(run[..3], 1)
  {
    run := [Request(ip, 0.0), Request(ip, 0.5), Request(ip, 1.0)];
    assert run[..1] == [] + [Request(ip, 0.0)] && run[..2] == run[..1] + [Request(ip, 0.5)];
    assert run[..3] == run[..2] + [Request(ip, 1.0)];
    assert TableAfter([], 1) == map[];
    hide TableAfter;
    hide Accepted;
    NextRequest([], map[], Request(ip, 0.0), Bucket(1.0, 0.0));
    NextRequest(run[..1], map[ip := Bucket(0.0, 0.0)], Request(ip, 0.5), Bucket(0.0, 0.0));
    NextRequest(run[..2], map[ip := Bucket(0.5, 0.5)], Request(ip, 1.0), Bucket(0.5, 0.5));
  }
}
