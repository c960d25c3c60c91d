/**
 Whole calls of Start and Stop, and that no thread is ever stuck. The steps of a call may have steps of other
 threads between them; what a call does by itself is said here of its own steps in a row.
 */
module CloudConfigCalls {
  import opened Text
  import opened CloudConfigLifecycle

  // ----- nobody is stuck -----

  /** A caller that is inside Start or Stop can always take its next step. */
  lemma CallersGoOn(s: State, c: nat) returns (step: Step)
    requires Reachable(s) && s.At(c) != Idle
    ensures Enabled(s, step) && Actor(step) == Some(c)
  {
    EveryState(s);
    hide Reachable;
    match s.At(c) {
      case StartEntered => step := if s.started then StartNoop(c) else StartBuild(c);
      case StartBuilt(_) => step := ListenFail(c);
      case StartBound => step := StartReturn(c);
      case StopEntered => step := if s.started then StopTake(c) else StopNoop(c);
      case StopTook(_) => step := Shutdown(c);
    }
  }

  /** So can a goroutine that serves an instance, except that its hook waits for the lock. */
  lemma ServersGoOn(s: State, srv: nat) returns (step: Step)
    requires s.ServeAt(srv) != Exited && (s.ServeAt(srv) == Returned ==> s.lock == Free)
    ensures Enabled(s, step) && Moved(s, step) == Some(srv)
  {
    match s.ServeAt(srv) {
      case Launched => step := ServeBegin(srv);
      case Serving => step := ServeReturn(srv);
      case Returned => step := HookEnter(srv);
      case HookEntered => step := HookRun(srv);
    }
  }

  /** Whoever holds the lock can take its next step, so a held lock is never in the way for good. */
  lemma LockHolderGoesOn(s: State) returns (step: Step)
    requires Reachable(s) && s.lock != Free
    ensures Enabled(s, step)
    ensures match s.lock case HeldByCaller(c) => Actor(step) == Some(c) case HeldByHook(srv) => step == HookRun(srv)
  {
    EveryState(s);
    match s.lock {
      case HeldByCaller(c) =>
        assert HoldsLock(s.At(c));
        step := CallersGoOn(s, c);
      case HeldByHook(srv) =>
        assert s.ServeAt(srv) == HookEntered;
        step := HookRun(srv);
    }
  }

  // ----- whole calls -----

  /** What two states have in common when only a caller has come and gone. */
  ghost predicate Unchanged(s: State, t: State) {
    && t.lock == s.lock && t.started == s.started && t.server == s.server
    && (forall c: nat :: t.At(c) == s.At(c)) && t.serves == s.serves
    && t.listening == s.listening && t.shutdowns == s.shutdowns && t.next == s.next
  }

  lemma ComesAndGoes(s: State, step: Step, next: Step, c: nat)
    requires Enabled(s, step) && Enabled(Apply(s, step), next)
    requires Actor(step) == Some(c) == Actor(next) && s.At(c) == Idle && Apply(Apply(s, step), next).At(c) == Idle
    ensures forall d: nat :: Apply(Apply(s, step), next).At(d) == s.At(d)
  {
    Frame(s, step);
    Frame(Apply(s, step), next);
    hide State.At;
    hide State.ServeAt;
    hide Enabled;
  }

  /** Start is idempotent: of a server that is started it changes nothing. */
  lemma StartIsIdempotent(s: State, c: nat)
    requires s.lock == Free && s.At(c) == Idle && s.started
    ensures Enabled(s, StartEnter(c)) && Enabled(Apply(s, StartEnter(c)), StartNoop(c))
    ensures Unchanged(s, Apply(Apply(s, StartEnter(c)), StartNoop(c)))
  {
    ComesAndGoes(s, StartEnter(c), StartNoop(c), c);
  }

  /** Of a server that is stopped, Stop changes nothing. */
  lemma StopIsIdempotent(s: State, c: nat)
    requires s.lock == Free && s.At(c) == Idle && !s.started
    ensures Enabled(s, StopEnter(c)) && Enabled(Apply(s, StopEnter(c)), StopNoop(c))
    ensures Unchanged(s, Apply(Apply(s, StopEnter(c)), StopNoop(c)))
  {
    ComesAndGoes(s, StopEnter(c), StopNoop(c), c);
  }

  /** A Start that finds the server stopped and the port free brings up a new instance, and it alone listens. */
  lemma StartBringsUp(s: State, c: nat) returns (t: State)
    requires Reachable(s) && s.lock == Free && s.At(c) == Idle && !s.started && s.listening == {}
    ensures Reachable(t) && t.lock == Free && t.At(c) == Idle
    ensures t.started && t.server == Some(s.next) && t.listening == {s.next} && t.ServeAt(s.next) == Launched
    ensures s.next !in s.serves && t.shutdowns == s.shutdowns
    ensures forall srv | srv != s.next :: t.ServeAt(srv) == s.ServeAt(srv)
  {
    EveryState(s);
    t := s;
    t := Taken(t, StartEnter(c));
    t := Taken(t, StartBuild(c));
    t := Taken(t, ListenOk(c));
    t := Taken(t, StartReturn(c));
    hide Reachable;
  }

  lemma Taken(s: State, step: Step) returns (t: State)
    requires Reachable(s) && Enabled(s, step)
    ensures t == Apply(s, step) && Reachable(t)
  {
    Extend(s, step);
    t := Apply(s, step);
  }

  /** If the port cannot be bound, Start leaves everything as it was, but for a number that is used up. */
  lemma StartFails(s: State, c: nat) returns (t: State)
    requires Reachable(s) && s.lock == Free && s.At(c) == Idle && !s.started
    ensures Reachable(t) && t.next == s.next + 1 && Unchanged(s, t.(next := s.next))
  {
    StartedIffServer(s);
    t := s;
    t := Taken(t, StartEnter(c));
    t := Taken(t, StartBuild(c));
    t := Taken(t, ListenFail(c));
    hide Reachable;
    assert forall d: nat :: t.At(d) == s.At(d);
  }

  /** While a server counts as started, nobody else listens. */
  ghost predicate Alone(s: State) {
    s.started ==> s.server.Some? && s.listening <= {s.server.value}
  }

  lemma KeepsAlone(s: State, step: Step)
    requires Inv(s) && Alone(s) && Enabled(s, step)
    ensures Alone(Apply(s, step))
  {
    if step.ListenOk? {
      assert HoldsLock(s.At(step.c));
    }
    hide StopInv;
    hide ShutdownInv;
    hide InstanceInv;
    hide PortInv;
    hide State.At;
    hide State.ServeAt;
  }

  lemma {:induction false} AloneAfter(steps: seq<Step>)
    requires After(steps).Some?
    ensures Alone(After(steps).value)
  {
    if steps != [] {
      var before := steps[..|steps| - 1];
      AloneAfter(before);
      AfterRun(before);
      KeepsAlone(After(before).value, steps[|steps| - 1]);
      hide Alone;
      hide Inv;
      hide Apply;
    }
  }

  lemma OnlyServerListens(s: State)
    requires Reachable(s)
    ensures Alone(s)
  {
    var steps :| After(steps) == Some(s);
    AloneAfter(steps);
  }

  /** A Stop of a running server takes it down: it is stopped, shut down once more, and no longer listens. */
  lemma StopTakesDown(s: State, c: nat) returns (t: State)
    requires Reachable(s) && s.lock == Free && s.At(c) == Idle && s.started
    ensures s.server.Some? && Reachable(t) && t.lock == Free && t.At(c) == Idle
    ensures !t.started && t.server == None && t.shutdowns == s.shutdowns + multiset{s.server.value}
    ensures s.ServeAt(s.server.value) != Launched ==> t.listening == {}
  {
    StartedIffServer(s);
    StartedIsBound(s);
    OnlyServerListens(s);
    assert s.ServeAt(s.server.value) != Exited by { EveryState(s); }
    t := s;
    t := Taken(t, StopEnter(c));
    t := Taken(t, StopTake(c));
    t := Taken(t, Shutdown(c));
    hide Reachable;
  }

  /** After its Serve has returned, the hook clears its own server, and leaves any other alone. */
  lemma HookClears(s: State, srv: nat) returns (t: State)
    requires Reachable(s) && s.lock == Free && s.ServeAt(srv) == Returned
    ensures Reachable(t) && t.lock == Free && t.ServeAt(srv) == Exited
    ensures if s.server == Some(srv) then !t.started && t.server == None
            else t.started == s.started && t.server == s.server
    ensures t.listening == s.listening && srv !in t.listening && t.next == s.next && forall c: nat :: t.At(c) == s.At(c)
  {
    EveryState(s);
    t := s;
    t := Taken(t, HookEnter(srv));
    t := Taken(t, HookRun(srv));
    hide Reachable;
  }

  /** So a server that died by itself can be started again: its hook has run, and the port is free. */
  lemma DeadServerRestarts(s: State, c: nat) returns (t: State)
    requires Reachable(s) && s.lock == Free && s.At(c) == Idle && s.started
    requires s.server.Some? && s.ServeAt(s.server.value) == Returned
    ensures Reachable(t) && t.lock == Free && t.At(c) == Idle
    ensures t.started && t.server == Some(s.next) && t.listening == {s.next} && s.server != t.server
  {
    StartedIsBound(s);
    EveryState(s);
    var srv := s.server.value;
    assert srv < s.next && srv !in s.listening;
    hide Reachable;
    var cleared := HookClears(s, srv);
    OnlyServerListens(s);
    t := StartBringsUp(cleared, c);
  }
}
