/** Start, Stop and the exit hook of the cloud config server, over every interleaving. */
module CloudConfigLifecycle {
  import opened Text

  // Each step is one atomic action of one thread: taking or giving back the lifecycle lock, or what a thread does
  // between two such points. Shutdown runs outside the lock. An instance is one http.Server; its listener is open
  // from a successful Listen until Shutdown closes it or its Serve returns.

  /** Where a thread that calls Start or Stop stands. */
  datatype Caller =
    | Idle
    | StartEntered                    // holds the lock
    | StartBuilt(srv: nat)            // holds the lock, s.server is srv, about to Listen
    | StartBound                      // holds the lock, about to return
    | StopEntered                     // holds the lock
    | StopTook(taken: Option<nat>)    // lock given back, about to shut down what it took

  /** Where the goroutine that serves an instance stands. */
  datatype Serve =
    | Launched
    | Serving
    | Returned
    | HookEntered   // holds the lock
    | Exited

  datatype Lock = Free | HeldByCaller(c: nat) | HeldByHook(srv: nat)

  datatype State = State(
    lock: Lock,
    started: bool,
    server: Option<nat>,
    callers: map<nat, Caller>,
    serves: map<nat, Serve>,
    listening: set<nat>,        // instances whose listener is open
    shutdowns: multiset<nat>,   // every Shutdown call so far
    next: nat                   // instances are numbered as they are built
  ) {
    function At(c: nat): Caller {
      if c in callers then callers[c] else Idle
    }

    function ServeAt(srv: nat): Serve {
      if srv in serves then serves[srv] else Exited
    }

    function Move(c: nat, to: Caller): State {
      this.(callers := callers[c := to])
    }
  }

  const INITIAL: State := State(Free, false, None, map[], map[], {}, multiset{}, 0)

  datatype Step =
    | StartEnter(c: nat) | StartNoop(c: nat) | StartBuild(c: nat)
    | ListenFail(c: nat) | ListenOk(c: nat) | StartReturn(c: nat)
    | StopEnter(c: nat) | StopNoop(c: nat) | StopTake(c: nat) | Shutdown(c: nat)
    | ServeBegin(srv: nat) | ServeReturn(srv: nat) | HookEnter(srv: nat) | HookRun(srv: nat)

  predicate Enabled(s: State, step: Step) {
    match step
    case StartEnter(c) => s.lock == Free && s.At(c) == Idle
    case StartNoop(c) => s.At(c) == StartEntered && s.started
    case StartBuild(c) => s.At(c) == StartEntered && !s.started
    case ListenFail(c) => s.At(c).StartBuilt?
    case ListenOk(c) => s.At(c).StartBuilt? && s.listening == {}
    case StartReturn(c) => s.At(c) == StartBound
    case StopEnter(c) => s.lock == Free && s.At(c) == Idle
    case StopNoop(c) => s.At(c) == StopEntered && !s.started
    case StopTake(c) => s.At(c) == StopEntered && s.started
    case Shutdown(c) => s.At(c).StopTook? && s.At(c).taken.Some?
    case ServeBegin(srv) => s.ServeAt(srv) == Launched
    case ServeReturn(srv) => s.ServeAt(srv) == Serving
    case HookEnter(srv) => s.ServeAt(srv) == Returned && s.lock == Free
    case HookRun(srv) => s.ServeAt(srv) == HookEntered
  }

  function Apply(s: State, step: Step): State
    requires Enabled(s, step)
  {
    match step
    case StartEnter(c) => s.Move(c, StartEntered).(lock := HeldByCaller(c))
    case StartNoop(c) => s.Move(c, Idle).(lock := Free)
    case StartBuild(c) => s.Move(c, StartBuilt(s.next)).(server := Some(s.next), next := s.next + 1)
    case ListenFail(c) => s.Move(c, Idle).(server := None, lock := Free)
    case ListenOk(c) =>
      var srv := s.At(c).srv;
      s.Move(c, StartBound).(started := true, listening := {srv}, serves := s.serves[srv := Launched])
    case StartReturn(c) => s.Move(c, Idle).(lock := Free)
    case StopEnter(c) => s.Move(c, StopEntered).(lock := HeldByCaller(c))
    case StopNoop(c) => s.Move(c, Idle).(lock := Free)
    case StopTake(c) => s.Move(c, StopTook(s.server)).(started := false, server := None, lock := Free)
    case Shutdown(c) =>
      // closes the listener if Serve has it; an instance that is not serving yet finds out in ServeBegin
      var srv := s.At(c).taken.value;
      var open := if s.ServeAt(srv) == Serving then s.listening - {srv} else s.listening;
      s.Move(c, Idle).(shutdowns := s.shutdowns + multiset{srv}, listening := open)
    case ServeBegin(srv) =>
      if srv in s.shutdowns then s.(serves := s.serves[srv := Returned], listening := s.listening - {srv})
      else s.(serves := s.serves[srv := Serving])
    case ServeReturn(srv) => s.(serves := s.serves[srv := Returned], listening := s.listening - {srv})
    case HookEnter(srv) => s.(serves := s.serves[srv := HookEntered], lock := HeldByHook(srv))
    case HookRun(srv) =>
      var clear := s.server == Some(srv);
      s.(serves := s.serves[srv := Exited], lock := Free,
         started := s.started && !clear, server := if clear then None else s.server)
  }

  /** The state that a sequence of steps leads to, or None when one of them is not enabled where it is taken. */
  function After(steps: seq<Step>): Option<State> {
    if steps == [] then Some(INITIAL)
    else
      var s, step := After(steps[..|steps| - 1]), steps[|steps| - 1];
      if s.Some? && Enabled(s.value, step) then Some(Apply(s.value, step)) else None
  }

  ghost predicate Reachable(s: State) {
    exists steps :: After(steps) == Some(s)
  }

  // ----- the invariant -----

  predicate HoldsLock(at: Caller) {
    at == StartEntered || at.StartBuilt? || at == StartBound || at == StopEntered
  }

  /** The lock has one holder, and only that thread is inside a critical section. */
  ghost predicate LockInv(s: State) {
    && (forall c: nat :: HoldsLock(s.At(c)) <==> s.lock == HeldByCaller(c))
    && (forall srv: nat :: s.ServeAt(srv) == HookEntered <==> s.lock == HeldByHook(srv))
  }

  predicate Building(s: State) {
    s.lock.HeldByCaller? && s.At(s.lock.c).StartBuilt?
  }

  /** `started` says that there is a server, except while Start is between building one and listening. */
  ghost predicate ServerInv(s: State) {
    && (!Building(s) ==> (s.started <==> s.server.Some?))
    && (Building(s) ==> !s.started && s.server == Some(s.At(s.lock.c).srv) && s.server.value !in s.serves)
    && (s.server.Some? ==> s.server.value < s.next)
    && (s.started ==> s.server.value in s.serves)
    && (forall srv | srv in s.serves :: srv < s.next)
  }

  /** What a Stop has taken is no longer the server, is nobody else's, and is not shut down yet. */
  ghost predicate StopInv(s: State) {
    && (forall c: nat :: s.At(c).StopTook? ==>
          s.At(c).taken.Some? && s.At(c).taken.value in s.serves
          && s.server != s.At(c).taken && s.At(c).taken.value !in s.shutdowns)
    && (forall c: nat, d: nat :: s.At(c).StopTook? && s.At(d).StopTook? && s.At(c).taken == s.At(d).taken ==> c == d)
  }

  /** An instance is shut down once, and not while it is the server. */
  ghost predicate ShutdownInv(s: State) {
    && (forall srv: nat :: s.shutdowns[srv] <= 1)
    && (forall srv | srv in s.shutdowns :: srv in s.serves && s.server != Some(srv))
  }

  /** An instance that is neither the server nor taken has been shut down or has run its hook. */
  ghost predicate InstanceInv(s: State) {
    && (forall srv | s.started && s.server == Some(srv) :: s.ServeAt(srv) != Exited)
    && (forall srv | srv in s.serves && s.ServeAt(srv) != Exited ::
          s.server == Some(srv) || srv in s.shutdowns || IsTaken(s, srv))
  }

  ghost predicate IsTaken(s: State, srv: nat) {
    exists c: nat :: s.At(c) == StopTook(Some(srv))
  }

  /** At most one listener is open, and it is open exactly from Listen until Shutdown or the return of Serve. */
  ghost predicate PortInv(s: State) {
    && (forall x, y | x in s.listening && y in s.listening :: x == y)
    && (forall srv | srv in s.listening :: srv in s.serves)
    && (forall srv | srv in s.serves ::
          srv in s.listening <==>
          s.ServeAt(srv) == Launched || (s.ServeAt(srv) == Serving && srv !in s.shutdowns))
  }

  ghost predicate Inv(s: State) {
    LockInv(s) && ServerInv(s) && StopInv(s) && ShutdownInv(s) && InstanceInv(s) && PortInv(s)
  }

  lemma InitialInv()
    ensures Inv(INITIAL)
  {
  }

  /** The caller that takes a step, and the instance whose Serve does. */
  function Actor(step: Step): Option<nat> {
    match step
    case ServeBegin(_) => None
    case ServeReturn(_) => None
    case HookEnter(_) => None
    case HookRun(_) => None
    case _ => Some(step.c)
  }

  function Moved(s: State, step: Step): Option<nat>
    requires Enabled(s, step)
  {
    match step
    case ListenOk(c) => Some(s.At(c).srv)
    case ServeBegin(srv) => Some(srv)
    case ServeReturn(srv) => Some(srv)
    case HookEnter(srv) => Some(srv)
    case HookRun(srv) => Some(srv)
    case _ => None
  }

  /** A step moves at most one caller and one Serve. */
  lemma Frame(s: State, step: Step)
    requires Enabled(s, step)
    ensures var t := Apply(s, step);
            && (forall c: nat :: Actor(step) != Some(c) ==> t.At(c) == s.At(c))
            && (forall srv: nat :: Moved(s, step) != Some(srv) ==>
                  t.ServeAt(srv) == s.ServeAt(srv) && (srv in t.serves <==> srv in s.serves))
    ensures var t := Apply(s, step);
            match step
            case StartEnter(c) => t.At(c) == StartEntered
            case StartNoop(c) => t.At(c) == Idle
            case StartBuild(c) => t.At(c) == StartBuilt(s.next)
            case ListenFail(c) => t.At(c) == Idle
            case ListenOk(c) => t.At(c) == StartBound && t.ServeAt(s.At(c).srv) == Launched && s.At(c).srv in t.serves
            case StartReturn(c) => t.At(c) == Idle
            case StopEnter(c) => t.At(c) == StopEntered
            case StopNoop(c) => t.At(c) == Idle
            case StopTake(c) => t.At(c) == StopTook(s.server)
            case Shutdown(c) => t.At(c) == Idle
            case ServeBegin(srv) =>
              t.ServeAt(srv) == (if srv in s.shutdowns then Returned else Serving) && srv in s.serves && srv in t.serves
            case ServeReturn(srv) => t.ServeAt(srv) == Returned && srv in s.serves && srv in t.serves
            case HookEnter(srv) => t.ServeAt(srv) == HookEntered && srv in s.serves && srv in t.serves
            case HookRun(srv) => t.ServeAt(srv) == Exited && srv in s.serves && srv in t.serves
  {
  }

  lemma KeepsLockOfCallers(s: State, step: Step, c: nat)
    requires LockInv(s) && Enabled(s, step)
    ensures HoldsLock(Apply(s, step).At(c)) <==> Apply(s, step).lock == HeldByCaller(c)
  {
    Frame(s, step);
    assert HoldsLock(s.At(c)) <==> s.lock == HeldByCaller(c);
    assert step.HookRun? ==> s.lock == HeldByHook(step.srv);
    if Actor(step).Some? {
      assert HoldsLock(s.At(step.c)) <==> s.lock == HeldByCaller(step.c);
    }
    hide LockInv;
    hide State.At;
    hide State.ServeAt;
  }

  lemma KeepsLockOfHooks(s: State, step: Step, srv: nat)
    requires LockInv(s) && ServerInv(s) && Enabled(s, step)
    ensures Apply(s, step).ServeAt(srv) == HookEntered <==> Apply(s, step).lock == HeldByHook(srv)
  {
    Frame(s, step);
    assert s.ServeAt(srv) == HookEntered <==> s.lock == HeldByHook(srv);
    if Actor(step).Some? {
      assert HoldsLock(s.At(step.c)) <==> s.lock == HeldByCaller(step.c);
    }
    if Moved(s, step).Some? {
      assert s.ServeAt(Moved(s, step).value) == HookEntered <==> s.lock == HeldByHook(Moved(s, step).value);
    }
    hide LockInv;
    hide ServerInv;
    hide State.At;
    hide State.ServeAt;
  }

  lemma KeepsLock(s: State, step: Step)
    requires Inv(s) && Enabled(s, step)
    ensures LockInv(Apply(s, step))
  {
    var t := Apply(s, step);
    forall c: nat ensures HoldsLock(t.At(c)) <==> t.lock == HeldByCaller(c) {
      KeepsLockOfCallers(s, step, c);
    }
    forall srv: nat ensures t.ServeAt(srv) == HookEntered <==> t.lock == HeldByHook(srv) {
      KeepsLockOfHooks(s, step, srv);
    }
    hide *;
    LockInvOf(t);
  }

  lemma LockInvOf(t: State)
    requires forall c: nat :: HoldsLock(t.At(c)) <==> t.lock == HeldByCaller(c)
    requires forall srv: nat :: t.ServeAt(srv) == HookEntered <==> t.lock == HeldByHook(srv)
    ensures LockInv(t)
  {
  }

  lemma KeepsServer(s: State, step: Step)
    requires Inv(s) && Enabled(s, step)
    ensures ServerInv(Apply(s, step))
  {
    hide PortInv;
    hide InstanceInv;
    hide ShutdownInv;
    Frame(s, step);
    hide State.At;
    hide State.ServeAt;
  }

  /** Every step but these two leaves what Stops have taken as it is. */
  lemma TakenStays(s: State, step: Step, c: nat)
    requires Enabled(s, step) && !step.StopTake? && !step.Shutdown?
    ensures Apply(s, step).At(c).StopTook? ==> Apply(s, step).At(c) == s.At(c)
    ensures Apply(s, step).shutdowns == s.shutdowns
    ensures Apply(s, step).server == s.server || Apply(s, step).server == None || Apply(s, step).server == Some(s.next)
    ensures s.serves.Keys <= Apply(s, step).serves.Keys
  {
    Frame(s, step);
    hide State.At;
    hide State.ServeAt;
  }

  lemma KeepsStopOtherwise(s: State, step: Step)
    requires ServerInv(s) && StopInv(s) && Enabled(s, step) && !step.StopTake? && !step.Shutdown?
    ensures StopInv(Apply(s, step))
  {
    var t := Apply(s, step);
    assert forall srv | srv in s.serves :: srv < s.next;
    forall c: nat ensures t.At(c).StopTook? ==> t.At(c) == s.At(c) {
      TakenStays(s, step, c);
    }
    TakenStays(s, step, 0);
    hide Apply;
    hide Enabled;
    hide ServerInv;
    hide State.At;
  }

  lemma KeepsStopTaking(s: State, c: nat)
    requires Inv(s) && Enabled(s, StopTake(c))
    ensures StopInv(Apply(s, StopTake(c)))
  {
    hide PortInv;
    hide InstanceInv;
    Frame(s, StopTake(c));
    hide State.At;
    hide State.ServeAt;
  }

  lemma KeepsStopShutdown(s: State, c: nat)
    requires Inv(s) && Enabled(s, Shutdown(c))
    ensures StopInv(Apply(s, Shutdown(c)))
  {
    hide PortInv;
    hide InstanceInv;
    hide LockInv;
    Frame(s, Shutdown(c));
    hide State.At;
    hide State.ServeAt;
  }

  lemma KeepsStop(s: State, step: Step)
    requires Inv(s) && Enabled(s, step)
    ensures StopInv(Apply(s, step))
  {
    hide LockInv;
    hide ServerInv;
    hide StopInv;
    hide ShutdownInv;
    hide InstanceInv;
    hide PortInv;
    hide Apply;
    hide Enabled;
    match step
    case StopTake(c) => KeepsStopTaking(s, c);
    case Shutdown(c) => KeepsStopShutdown(s, c);
    case _ => KeepsStopOtherwise(s, step);
  }

  lemma KeepsShutdowns(s: State, step: Step)
    requires Inv(s) && Enabled(s, step)
    ensures ShutdownInv(Apply(s, step))
  {
    hide PortInv;
    hide InstanceInv;
    Frame(s, step);
    hide State.At;
    hide State.ServeAt;
  }

  lemma KeepsInstances(s: State, step: Step)
    requires Inv(s) && Enabled(s, step)
    ensures InstanceInv(Apply(s, step))
  {
    hide PortInv;
    hide StopInv;
    hide ShutdownInv;
    Frame(s, step);
    hide State.At;
    hide State.ServeAt;
    hide IsTaken;
    var t := Apply(s, step);
    forall srv | srv in t.serves && t.ServeAt(srv) != Exited
      ensures t.server == Some(srv) || srv in t.shutdowns || IsTaken(t, srv)
    {
      KeepsTaken(s, step, srv);
    }
  }

  lemma KeepsTaken(s: State, step: Step, srv: nat)
    requires Enabled(s, step)
    ensures IsTaken(s, srv) ==> IsTaken(Apply(s, step), srv) || srv in Apply(s, step).shutdowns
    ensures step.StopTake? && s.server == Some(srv) ==> IsTaken(Apply(s, step), srv)
  {
    Frame(s, step);
    hide State.At;
    var t := Apply(s, step);
    if step.StopTake? && s.server == Some(srv) {
      assert t.At(step.c) == StopTook(Some(srv));
    }
    if IsTaken(s, srv) {
      var c: nat :| s.At(c) == StopTook(Some(srv));
      assert Actor(step) != Some(c) ==> t.At(c) == StopTook(Some(srv));
    }
  }

  lemma PortAfterListen(s: State, c: nat)
    requires Inv(s) && Enabled(s, ListenOk(c))
    ensures PortInv(Apply(s, ListenOk(c)))
  {
    hide ShutdownInv;
    hide InstanceInv;
    hide StopInv;
    Frame(s, ListenOk(c));
    var srv, t := s.At(c).srv, Apply(s, ListenOk(c));
    assert srv !in s.serves;
    hide State.At;
    hide State.ServeAt;
    assert forall x | x in t.serves && x != srv :: x in s.serves && x !in s.listening;
  }

  lemma PortAfterShutdown(s: State, c: nat)
    requires Inv(s) && Enabled(s, Shutdown(c))
    ensures PortInv(Apply(s, Shutdown(c)))
  {
    hide ShutdownInv;
    hide InstanceInv;
    hide LockInv;
    hide ServerInv;
    Frame(s, Shutdown(c));
    var srv, t := s.At(c).taken.value, Apply(s, Shutdown(c));
    assert srv in s.serves;
    hide StopInv;
    hide State.At;
    hide State.ServeAt;
    assert forall x: nat | x != srv :: x in t.shutdowns <==> x in s.shutdowns;
  }

  lemma PortAfterServe(s: State, step: Step)
    requires Inv(s) && Enabled(s, step) && Actor(step).None?
    ensures PortInv(Apply(s, step))
  {
    hide ShutdownInv;
    hide InstanceInv;
    hide LockInv;
    hide ServerInv;
    hide StopInv;
    Frame(s, step);
    hide State.At;
    hide State.ServeAt;
  }

  lemma PortUntouched(s: State, step: Step)
    requires Enabled(s, step) && Actor(step).Some? && !step.ListenOk? && !step.Shutdown?
    ensures var t := Apply(s, step);
            t.serves == s.serves && t.listening == s.listening && t.shutdowns == s.shutdowns
  {
  }

  lemma PortDepends(s: State, t: State)
    requires PortInv(s) && t.serves == s.serves && t.listening == s.listening && t.shutdowns == s.shutdowns
    ensures PortInv(t)
  {
    assert forall srv: nat :: t.ServeAt(srv) == s.ServeAt(srv);
  }

  lemma KeepsPort(s: State, step: Step)
    requires Inv(s) && Enabled(s, step)
    ensures PortInv(Apply(s, step))
  {
    hide PortInv;
    hide Apply;
    hide Enabled;
    if step.ListenOk? {
      PortAfterListen(s, step.c);
    } else if step.Shutdown? {
      PortAfterShutdown(s, step.c);
    } else if Actor(step).None? {
      PortAfterServe(s, step);
    } else {
      PortUntouched(s, step);
      PortDepends(s, Apply(s, step));
    }
  }

  lemma KeepsInv(s: State, step: Step)
    requires Inv(s) && Enabled(s, step)
    ensures Inv(Apply(s, step))
  {
    hide LockInv;
    hide ServerInv;
    hide StopInv;
    hide ShutdownInv;
    hide InstanceInv;
    hide PortInv;
    KeepsShutdowns(s, step);
    KeepsLock(s, step);
    KeepsServer(s, step);
    KeepsStop(s, step);
    KeepsInstances(s, step);
    KeepsPort(s, step);
  }

  lemma {:induction false} AfterRun(steps: seq<Step>)
    requires After(steps).Some?
    ensures Inv(After(steps).value)
  {
    hide Inv;
    hide Apply;
    if steps == [] {
      InitialInv();
    } else {
      var s, step := After(steps[..|steps| - 1]), steps[|steps| - 1];
      AfterRun(steps[..|steps| - 1]);
      KeepsInv(s.value, step);
    }
  }

  /** Every state of every run satisfies the invariant. */
  lemma EveryState(s: State)
    requires Reachable(s)
    ensures Inv(s)
  {
    hide Inv;
    var steps :| After(steps) == Some(s);
    AfterRun(steps);
  }

  // ----- what it means -----

  /** Whenever the lock is free, the server counts as started exactly when there is one. */
  lemma StartedIffServer(s: State)
    requires Reachable(s) && s.lock == Free
    ensures s.started <==> s.server.Some?
  {
    hide Reachable;
    EveryState(s);
  }

  /**
   While the server counts as started its listener is bound, except between the return of its Serve and the end of
   the hook that clears it.
   */
  lemma StartedIsBound(s: State)
    requires Reachable(s) && s.started
    ensures s.server.Some? && s.server.value in s.serves
    ensures s.server.value in s.listening <==>
            s.ServeAt(s.server.value) != Returned && s.ServeAt(s.server.value) != HookEntered
  {
    EveryState(s);
    hide Reachable;
  }

  /** A Start that does nothing finds the port bound exactly when Serve of the server it relies on has not returned. */
  lemma NoopIsRight(s: State, c: nat)
    requires Reachable(s) && Enabled(s, StartNoop(c))
    ensures s.server.Some?
    ensures s.server.value in s.listening <==> s.ServeAt(s.server.value) != Returned
  {
    StartedIsBound(s);
    EveryState(s);
    hide Reachable;
    assert s.lock == HeldByCaller(c);
    hide StopInv;
    hide InstanceInv;
    hide PortInv;
  }

  /**
   No instance is shut down twice, and a Stop never finds a missing server. That at most one listener is open is
   the promise of the system that binds the port; the steps keep it in view.
   */
  lemma TakenDownOnce(s: State)
    requires Reachable(s)
    ensures forall srv: nat :: s.shutdowns[srv] <= 1
    ensures forall c: nat :: s.At(c).StopTook? ==> s.At(c).taken.Some?
    ensures |s.listening| <= 1
  {
    EveryState(s);
    AtMostOne(s.listening);
  }

  lemma AtMostOne(open: set<nat>)
    requires forall x, y | x in open && y in open :: x == y
    ensures |open| <= 1
  {
    if open != {} {
      var x :| x in open;
      assert open == {x};
    }
  }

  /**
   A server disappears from the state in three ways only: a Stop takes it to shut it down, the Start that
   built it fails to listen, or its own Serve goroutine clears it. In particular a goroutine left over from an
   earlier instance leaves a newer server alone.
   */
  lemma OnlyOwnersClear(s: State, step: Step, srv: nat)
    requires Reachable(s) && Enabled(s, step)
    requires s.server == Some(srv) && Apply(s, step).server != Some(srv)
    ensures Apply(s, step).server == None
    ensures match step
            case StopTake(c) => Apply(s, step).At(c) == StopTook(Some(srv))
            case ListenFail(c) => s.At(c) == StartBuilt(srv)
            case HookRun(x) => x == srv && srv !in s.listening
            case _ => false
  {
    hide Reachable;
    EveryState(s);
    hide StopInv;
    hide InstanceInv;
  }

  /** Nothing is going on: nobody is in Start or Stop, and every goroutine is serving or gone. */
  ghost predicate Quiet(s: State) {
    && s.lock == Free
    && (forall c: nat :: s.At(c) == Idle)
    && (forall srv | srv in s.serves :: s.ServeAt(srv) == Exited || (s.ServeAt(srv) == Serving && srv !in s.shutdowns))
  }

  /** The port is neither leaked nor lost: at rest, it is held by the server if there is one, and free if not. */
  lemma PortFollowsServer(s: State)
    requires Reachable(s) && Quiet(s)
    ensures s.listening == match s.server case Some(srv) => {srv} case None => {}
  {
    hide Reachable;
    EveryState(s);
    forall srv | srv in s.listening ensures s.server == Some(srv) {
      assert s.ServeAt(srv) != Exited;
      assert !IsTaken(s, srv);
    }
    if s.server.Some? {
      assert s.ServeAt(s.server.value) != Exited;
    }
  }

  /** A Stop has taken an instance and not yet shut it down, and that instance's listener is still open. */
  ghost predicate HeldByStop(s: State) {
    exists c: nat, srv: nat ::
      s.At(c) == StopTook(Some(srv)) && (s.ServeAt(srv) == Launched || s.ServeAt(srv) == Serving)
  }

  /** An instance was shut down before its goroutine came to serve, and has not closed its listener yet. */
  ghost predicate HeldByLatecomer(s: State) {
    exists srv: nat :: srv in s.shutdowns && s.ServeAt(srv) == Launched
  }

  /** With the server stopped, these are the only two ways in which the port can be taken. */
  lemma PortFreeIff(s: State)
    requires Reachable(s) && s.lock == Free && !s.started
    ensures s.listening == {} <==> !HeldByStop(s) && !HeldByLatecomer(s)
  {
    EveryState(s);
    hide Reachable;
    if s.listening != {} {
      var srv :| srv in s.listening;
      assert s.server != Some(srv) && srv in s.serves && s.ServeAt(srv) != Exited;
      if IsTaken(s, srv) {
        var c: nat :| s.At(c) == StopTook(Some(srv));
      }
    }
  }

  /** A Start that finds the server stopped can bind the port exactly when neither is the case; at rest it can. */
  lemma RestartBinds(s: State, c: nat)
    requires Reachable(s) && s.lock == Free && s.At(c) == Idle && !s.started
    ensures Enabled(s, StartEnter(c)) && Enabled(Apply(s, StartEnter(c)), StartBuild(c))
    ensures Enabled(Apply(Apply(s, StartEnter(c)), StartBuild(c)), ListenOk(c)) <==>
            !HeldByStop(s) && !HeldByLatecomer(s)
    ensures Quiet(s) ==> !HeldByStop(s) && !HeldByLatecomer(s)
  {
    StartedIffServer(s);
    PortFreeIff(s);
    if Quiet(s) {
      PortFollowsServer(s);
    }
    hide Reachable;
    hide HeldByStop;
    hide HeldByLatecomer;
  }

  /** Once a Stop has shut an instance down, that instance has the port exactly until its goroutine comes to serve. */
  lemma StoppedHoldsUntilServed(s: State, srv: nat)
    requires Reachable(s) && srv in s.shutdowns
    ensures srv in s.listening <==> s.ServeAt(srv) == Launched
    ensures s.ServeAt(srv) == Launched ==>
              Enabled(s, ServeBegin(srv)) && s.listening == {srv} && Apply(s, ServeBegin(srv)).listening == {}
  {
    EveryState(s);
    hide Reachable;
  }

  /**
   A Stop that returns has released the port exactly when the goroutine of the instance it took had come to
   serve before Shutdown: then that instance's listener is closed, and no other is open but a newer server's.
   */
  lemma StopReleasesPort(s: State, c: nat, srv: nat)
    requires Reachable(s) && Enabled(s, Shutdown(c)) && s.At(c) == StopTook(Some(srv))
    ensures srv !in Apply(s, Shutdown(c)).listening <==> s.ServeAt(srv) != Launched
    ensures s.ServeAt(srv) == Launched ==> Apply(s, Shutdown(c)).listening == {srv}
    ensures s.listening <= {srv} ==> (Apply(s, Shutdown(c)).listening == {} <==> s.ServeAt(srv) != Launched)
  {
    EveryState(s);
    hide Reachable;
  }

  lemma Extend(s: State, step: Step)
    requires Reachable(s) && Enabled(s, step)
    ensures Reachable(Apply(s, step))
  {
    hide Apply;
    hide Enabled;
    var steps :| After(steps) == Some(s);
    assert (steps + [step])[..|steps|] == steps;
    assert After(steps + [step]) == Some(Apply(s, step));
  }

  /**
   Not at rest, it may fail: because Shutdown runs outside the lock, a Start right after a Stop can find the
   port held by the very instance that the Stop has taken.
   */
  lemma StartAfterStopMayFail() returns (s: State)
    ensures Reachable(s) && s.At(0) == StopTook(Some(0)) && s.At(1) == StartBuilt(1) && s.listening == {0}
    ensures Enabled(s, ListenFail(1)) && !Enabled(s, ListenOk(1))
  {
    s := StoppedOnce();
    Extend(s, StartEnter(1));
    s := Apply(s, StartEnter(1));
    Extend(s, StartBuild(1));
    s := Apply(s, StartBuild(1));
  }

  /**
   It may even fail after the Stop has returned: the goroutine of the stopped instance has not come to serve
   yet, nobody is in Start or Stop, and the port is taken all the same.
   */
  lemma StopReturnsBeforeRelease() returns (s: State)
    ensures Reachable(s) && s.lock == Free && !s.started && s.server == None && 0 in s.shutdowns
    ensures (forall c: nat :: s.At(c) == Idle) && s.listening == {0} && HeldByLatecomer(s)
    ensures !Enabled(Apply(Apply(s, StartEnter(1)), StartBuild(1)), ListenOk(1))
  {
    var before := StoppedOnce();
    s := Apply(before, Shutdown(0));
    Extend(before, Shutdown(0));
    Frame(before, Shutdown(0));
    assert s.lock == Free && !s.started && s.server == None && 0 in s.shutdowns && s.listening == {0};
    assert s.ServeAt(0) == Launched;
    hide Apply;
    hide Enabled;
    hide Reachable;
    forall c: nat ensures s.At(c) == Idle {
      assert c != 0 ==> s.At(c) == before.At(c);
    }
    assert HeldByLatecomer(s);
    RestartBinds(s, 1);
  }

  /** Serve has failed, its hook has not run yet, and a Start returns as if the server were up. */
  lemma StartOnDeadServer() returns (s: State)
    ensures Reachable(s) && Enabled(s, StartNoop(0)) && s.started && s.listening == {}
  {
    var t := StartedOnce();
    Extend(t, ServeBegin(0));
    t := Apply(t, ServeBegin(0));
    Extend(t, ServeReturn(0));
    t := Apply(t, ServeReturn(0));
    Extend(t, StartEnter(0));
    s := Apply(t, StartEnter(0));
    hide Reachable;
  }

  /** Nobody but caller 0 has come to Start or Stop. */
  ghost predicate OnlyZero(s: State) {
    forall c: nat | c != 0 :: s.At(c) == Idle
  }

  /** One more step of caller 0. */
  lemma StepOfZero(s: State, step: Step) returns (t: State)
    requires Reachable(s) && Enabled(s, step) && Actor(step) == Some(0) && OnlyZero(s)
    ensures t == Apply(s, step) && Reachable(t) && OnlyZero(t)
  {
    t := Apply(s, step);
    Extend(s, step);
    Frame(s, step);
    hide Apply;
    hide Enabled;
    hide Reachable;
    hide State.At;
  }

  lemma StoppedOnce() returns (s: State)
    ensures Reachable(s) && s.At(0) == StopTook(Some(0)) && s.listening == {0} && s.next == 1
    ensures s.lock == Free && !s.started && s.server == None && OnlyZero(s) && s.At(1) == Idle
    ensures s.ServeAt(0) == Launched && s.shutdowns == multiset{}
  {
    hide Reachable;
    hide OnlyZero;
    s := StartedOnce();
    s := StepOfZero(s, StopEnter(0));
    s := StepOfZero(s, StopTake(0));
    OneIsIdle(s);
  }

  lemma OneIsIdle(s: State)
    requires OnlyZero(s)
    ensures s.At(1) == Idle
  {
  }

  lemma StartedOnce() returns (s: State)
    ensures Reachable(s) && s.At(0) == Idle && s.listening == {0} && s.next == 1
    ensures s.lock == Free && s.started && s.server == Some(0) && OnlyZero(s)
    ensures s.ServeAt(0) == Launched && s.shutdowns == multiset{}
  {
    hide Reachable;
    hide OnlyZero;
    s := BuiltOnce();
    s := StepOfZero(s, ListenOk(0));
    s := StepOfZero(s, StartReturn(0));
  }

  lemma BuiltOnce() returns (s: State)
    ensures Reachable(s) && s.At(0) == StartBuilt(0) && s.listening == {} && s.next == 1
    ensures s.lock == HeldByCaller(0) && s.server == Some(0) && OnlyZero(s)
    ensures s.shutdowns == multiset{}
  {
    assert After([]) == Some(INITIAL);
    s := INITIAL;
    hide After;
    s := StepOfZero(s, StartEnter(0));
    s := StepOfZero(s, StartBuild(0));
  }
}
