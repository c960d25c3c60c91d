/**
 The ring of recent events that reconnecting clients replay from, against the full history of events.
 */
module EventRing {
  import opened Text

  /** An event; only its sequence number matters to the ring. */
  datatype Event = Event(seqNo: int, payload: int)

  // ----- histories -----

  predicate Increasing(history: seq<Event>) {
    forall i, j | 0 <= i < j < |history| :: history[i].seqNo < history[j].seqNo
  }

  predicate Consecutive(history: seq<Event>) {
    forall i | 0 < i < |history| :: history[i].seqNo == history[i - 1].seqNo + 1
  }

  /** The events after `n`, in order. */
  function Newer(history: seq<Event>, n: int): seq<Event> {
    if history == [] then []
    else Newer(history[..|history| - 1], n)
         + if history[|history| - 1].seqNo > n then [history[|history| - 1]] else []
  }

  /** The last `size` events of a history. */
  function Recent(history: seq<Event>, size: nat): (r: seq<Event>)
    ensures |r| == if |history| <= size then |history| else size
  {
    if |history| <= size then history else history[|history| - size..]
  }

  /** No event after `n` came before the history, and none of those that a ring of this size has lost is after `n`. */
  predicate NothingMissed(history: seq<Event>, size: nat, n: int) {
    history == [] ||
    (history[0].seqNo <= n + 1 && Newer(history[..|history| - |Recent(history, size)|], n) == [])
  }

  lemma {:induction false} NewerAppend(a: seq<Event>, b: seq<Event>, n: int)
    ensures Newer(a + b, n) == Newer(a, n) + Newer(b, n)
  {
    if b == [] {
      assert a + b == a;
    } else {
      assert (a + b)[..|a + b| - 1] == a + b[..|b| - 1];
      NewerAppend(a, b[..|b| - 1], n);
    }
  }

  lemma NewerStep(history: seq<Event>, i: nat, n: int)
    requires i < |history|
    ensures Newer(history[..i + 1], n) == Newer(history[..i], n) + if history[i].seqNo > n then [history[i]] else []
  {
    assert history[..i + 1][..i] == history[..i];
  }

  lemma {:induction false} NewerNone(history: seq<Event>, n: int)
    requires forall i | 0 <= i < |history| :: history[i].seqNo <= n
    ensures Newer(history, n) == []
  {
    if history != [] {
      NewerNone(history[..|history| - 1], n);
    }
  }

  /** The events from `k` on, and no others, are after `n`. */
  predicate StartsAt(history: seq<Event>, k: nat, n: int) {
    k <= |history| && forall i | 0 <= i < |history| :: history[i].seqNo > n <==> k <= i
  }

  lemma StartsAtPrefix(history: seq<Event>, k: nat, n: int)
    requires history != [] && Increasing(history) && StartsAt(history[..|history| - 1], k, n)
    ensures var last := history[|history| - 1].seqNo; StartsAt(history, if last > n then k else |history|, n)
  {
    assert forall i | 0 <= i < |history| - 1 :: history[..|history| - 1][i] == history[i];
  }

  /** In a history with increasing numbers, the events after `n` are its end, from the first number above `n` on. */
  lemma {:induction false} NewerIsSuffix(history: seq<Event>, n: int) returns (k: nat)
    requires Increasing(history)
    ensures StartsAt(history, k, n) && Newer(history, n) == history[k..]
  {
    if history == [] {
      return 0;
    }
    var before := history[..|history| - 1];
    k := NewerIsSuffix(before, n);
    StartsAtPrefix(history, k, n);
    if history[|history| - 1].seqNo > n {
      assert history[k..] == before[k..] + [history[|history| - 1]];
    } else {
      k := |history|;
      NewerNone(history, n);
    }
    hide StartsAt;
    hide Increasing;
  }

  /** If the oldest recent event is at most `n + 1`, nothing after `n` has been overwritten. */
  lemma RecentIsEnough(history: seq<Event>, size: nat, n: int)
    requires Increasing(history) && Recent(history, size) != [] && Recent(history, size)[0].seqNo <= n + 1
    ensures Newer(Recent(history, size), n) == Newer(history, n)
  {
    var recent := Recent(history, size);
    var gone := history[..|history| - |recent|];
    assert history == gone + recent;
    NewerNone(gone, n);
    NewerAppend(gone, recent, n);
  }

  lemma {:induction false} ConsecutiveSteps(history: seq<Event>, i: nat, j: nat)
    requires Consecutive(history) && i <= j < |history|
    ensures history[j].seqNo == history[i].seqNo + j - i
    decreases j
  {
    if i < j {
      ConsecutiveSteps(history, i, j - 1);
    }
  }

  // ----- the ring -----

  class Ring {
    const size: nat
    const buf: array<Event>
    var head: nat
    var full: bool
    ghost var history: seq<Event>  // every event ever pushed

    /** The ring holds the recent events, oldest first from `head` once it has wrapped and from 0 before. */
    ghost predicate Valid()
      reads this, buf
    {
      && buf.Length == size > 0 && head < size
      && (!full ==> |history| == head && buf[..head] == history)
      && (full ==> |history| >= size && buf[head..] + buf[..head] == Recent(history, size))
    }

    constructor (capacity: int, zero: Event)
      ensures Valid() && history == [] && fresh(buf)
      ensures size == if capacity <= 0 then 1 else capacity
    {
      size := if capacity <= 0 then 1 else capacity;
      buf := new Event[if capacity <= 0 then 1 else capacity](_ => zero);
      head, full, history := 0, false, [];
    }

    method Push(evt: Event)
      requires Valid()
      modifies this, buf
      ensures Valid() && history == old(history) + [evt]
    {
      ghost var cells := buf[..];
      Slides(history, evt, size);
      Overwritten(cells, head, evt, full);
      history := history + [evt];
      buf[head] := evt;
      assert buf[..] == cells[head := evt];
      hide Recent;
      head := head + 1;
      if head >= size {
        head := 0;
        full := true;
      }
      assert buf[head..] == buf[..][head..] && buf[..head] == buf[..][..head];
    }

    /** `len` */
    function Len(): (n: nat)
      requires Valid()
      reads this, buf
      ensures n == |Recent(history, size)|
    {
      if full then size else head
    }

    /** Where the recent event `i` is found. */
    lemma HeldAt(i: nat, start: nat)
      requires Valid() && i < |Recent(history, size)| && start == if full then head else 0
      ensures start < buf.Length && (start + i) % size < buf.Length
      ensures Recent(history, size)[i] == buf[(start + i) % size]
      ensures i == 0 ==> (start + i) % size == start
    {
      RingIndex(start, i, size);
      assert Recent(history, size)[i] == buf[if start + i < size then start + i else start + i - size];
    }

    /**
     The events after `lastSeq`, unless the oldest event held is past `lastSeq + 1` (in 64-bit arithmetic);
     then the caller has to resynchronize.
     */
    method Since(lastSeq: int) returns (events: seq<Event>, ok: bool)
      requires Valid() && IsInt64(lastSeq)
      ensures ok <==> history == [] || Recent(history, size)[0].seqNo <= Wrap64(lastSeq + 1)
      ensures events == if ok then Newer(Recent(history, size), lastSeq) else []
      ensures ok && Increasing(history) && lastSeq < MAX_INT64 ==> events == Newer(history, lastSeq)
      ensures Consecutive(history) && lastSeq < MAX_INT64 ==>
                && (ok <==> NothingMissed(history, size, lastSeq))
                && (ok ==> events == Newer(history, lastSeq))
    {
      WhatIsHeld(history, size, lastSeq);
      hide Increasing;
      hide Consecutive;
      hide NothingMissed;
      hide Wrap64;
      hide Newer;
      assert Newer([], lastSeq) == [] by { NewerNone([], lastSeq); }
      ghost var recent := Recent(history, size);
      var start, count := 0, head;
      if full {
        start, count := head, size;
      }
      assert |recent| == count;
      if count == 0 {
        return [], true;
      }
      HeldAt(0, start);
      hide Ring.Valid;
      if buf[start].seqNo > Wrap64(lastSeq + 1) {
        return [], false;
      }
      events := [];
      for i := 0 to count
        invariant events == Newer(recent[..i], lastSeq)
      {
        HeldAt(i, start);
        NewerStep(recent, i, lastSeq);
        var evt := buf[(start + i) % size];
        if evt.seqNo > lastSeq {
          events := events + [evt];
        }
      }
      assert recent[..count] == recent;
      ok := true;
    }
  }

  /** What the cells hold, from the oldest to the newest, after one of them is overwritten. */
  lemma Overwritten(cells: seq<Event>, head: nat, evt: Event, full: bool)
    requires head < |cells|
    ensures var next := cells[head := evt];
            && (head + 1 < |cells| && full ==>
                  next[head + 1..] + next[..head + 1] == (cells[head..] + cells[..head])[1..] + [evt])
            && (head + 1 == |cells| && full ==> next == (cells[head..] + cells[..head])[1..] + [evt])
            && next[..head + 1] == cells[..head] + [evt]
            && (head + 1 == |cells| ==> next[0..] + next[..0] == next)
  {
  }

  lemma RingIndex(start: nat, i: nat, size: nat)
    requires start < size && i < size
    ensures (start + i) % size == if start + i < size then start + i else start + i - size
  {
    if start + i >= size {
      assert start + i == size + (start + i - size);
    }
  }

  /** One more event, and the oldest drops out when the ring is full. */
  lemma Slides(history: seq<Event>, evt: Event, size: nat)
    requires size > 0
    ensures var before := Recent(history, size);
            Recent(history + [evt], size) == (if |before| < size then before else before[1..]) + [evt]
  {
  }

  // ----- what a client can rely on -----

  /**
   With consecutive numbers a resynchronization is asked for exactly when the client has missed an event: one that
   was overwritten, or one from before the history began.
   */
  lemma ResyncOnlyWhenOverwritten(history: seq<Event>, size: nat, lastSeq: int)
    requires Consecutive(history) && size > 0 && history != [] && lastSeq < MAX_INT64 && IsInt64(lastSeq)
    ensures Recent(history, size)[0].seqNo <= Wrap64(lastSeq + 1) <==> NothingMissed(history, size, lastSeq)
  {
    var recent := Recent(history, size);
    var n := |history| - |recent|;
    var gone := history[..n];
    ConsecutiveSteps(history, 0, n);
    if n > 0 {
      assert history[n].seqNo == history[n - 1].seqNo + 1;
      if recent[0].seqNo > lastSeq + 1 {
        assert gone[n - 1].seqNo > lastSeq;
      } else {
        forall i | 0 <= i < n ensures gone[i].seqNo <= lastSeq {
          ConsecutiveSteps(history, i, n);
        }
        NewerNone(gone, lastSeq);
      }
    }
  }

  lemma {:induction false} ConsecutiveIncreases(history: seq<Event>)
    requires Consecutive(history)
    ensures Increasing(history)
  {
    forall i, j | 0 <= i < j < |history| ensures history[i].seqNo < history[j].seqNo {
      ConsecutiveSteps(history, i, j);
    }
  }

  /** What the comparison with the oldest event held says about the whole history. */
  lemma WhatIsHeld(history: seq<Event>, size: nat, lastSeq: int)
    requires size > 0 && IsInt64(lastSeq)
    ensures var enough := history == [] || Recent(history, size)[0].seqNo <= Wrap64(lastSeq + 1);
            && (Increasing(history) && lastSeq < MAX_INT64 && enough ==>
                  Newer(Recent(history, size), lastSeq) == Newer(history, lastSeq))
            && (Consecutive(history) && lastSeq < MAX_INT64 ==>
                  Increasing(history) && (enough <==> NothingMissed(history, size, lastSeq)))
  {
    if lastSeq < MAX_INT64 {
      assert Wrap64(lastSeq + 1) == lastSeq + 1;
      hide Wrap64;
      if history == [] {
        assert Recent(history, size) == history;
      } else {
        if Consecutive(history) {
          ConsecutiveIncreases(history);
          ResyncOnlyWhenOverwritten(history, size, lastSeq);
        }
        if Increasing(history) && Recent(history, size)[0].seqNo <= lastSeq + 1 {
          RecentIsEnough(history, size, lastSeq);
        }
      }
    }
  }

  /** At the largest number the sum wraps, and a client that is up to date is told to resynchronize. */
  lemma UpToDateButWrapped(history: seq<Event>, size: nat)
    requires size > 0 && history != [] && Increasing(history)
    requires forall i | 0 <= i < |history| :: MIN_INT64 < history[i].seqNo <= MAX_INT64
    ensures Newer(history, MAX_INT64) == []
    ensures Recent(history, size)[0].seqNo > Wrap64(MAX_INT64 + 1)
  {
    NewerNone(history, MAX_INT64);
    assert Wrap64(MAX_INT64 + 1) == MIN_INT64;
  }
}
