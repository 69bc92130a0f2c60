/** A peer session's flags and its shutdown. */
module Sessions {
  import opened Rosters

  /** How far the once-only body of Close has come; fire: it took a callback to run. */
  datatype Once = Unused | Waiting(fire: bool) | Finished

  /** running counts the stream handlers registered with the wait group, calls the runs of the
      close callback. */
  datatype Shutdown = Shutdown(closed: bool, hook: bool, running: nat, once: Once, calls: nat)

  datatype Ev =
    | Spawn               // an inbound stream arrives
    | HandlerEnds
    | SetHook(on: bool)
    | BeginClose          // the locked part of Close
    | EndClose            // the wait is over: run the callback and return

  predicate CanHappen(s: Shutdown, ev: Ev) {
    match ev
    case HandlerEnds => 0 < s.running
    case EndClose => s.once.Waiting? && s.running == 0
    case _ => true
  }

  function Step(s: Shutdown, ev: Ev): Shutdown
    requires CanHappen(s, ev)
  {
    match ev
    case Spawn => if s.closed then s else s.(running := s.running + 1)
    case HandlerEnds => s.(running := s.running - 1)
    case SetHook(on) => s.(hook := on)
    case BeginClose => if s.once.Unused? then s.(closed := true, hook := false, once := Waiting(s.hook)) else s
    case EndClose => s.(once := Finished, calls := if s.once.fire then s.calls + 1 else s.calls)
  }

  ghost predicate IsShutdownRun(states: seq<Shutdown>, events: seq<Ev>) {
    && |states| == |events| + 1
    && forall i {:trigger events[i]} | 0 <= i < |events| ::
         CanHappen(states[i], events[i]) && states[i + 1] == Step(states[i], events[i])
  }

  predicate NewSession(s: Shutdown) {
    !s.closed && s.running == 0 && s.once.Unused? && s.calls == 0
  }

  // ---------------------------------------------------------------- What happened, by the events alone

  /** Close has begun within the first i events. */
  predicate Begun(events: seq<Ev>, i: nat)
    requires i <= |events|
  {
    i > 0 && (Begun(events, i - 1) || events[i - 1].BeginClose?)
  }

  /** How many handlers were started: the streams that arrived before Close began. */
  function Started(events: seq<Ev>, i: nat): nat
    requires i <= |events|
  {
    if i == 0 then 0
    else Started(events, i - 1) + if events[i - 1].Spawn? && !Begun(events, i - 1) then 1 else 0
  }

  /** How many handlers have ended. */
  function Ended(events: seq<Ev>, i: nat): nat
    requires i <= |events|
  {
    if i == 0 then 0 else Ended(events, i - 1) + if events[i - 1].HandlerEnds? then 1 else 0
  }

  /** The callback as last set. */
  predicate HookSet(first: bool, events: seq<Ev>, i: nat)
    requires i <= |events|
  {
    if i == 0 then first else if events[i - 1].SetHook? then events[i - 1].on else HookSet(first, events, i - 1)
  }

  /** A callback was set when Close began. */
  predicate HookTaken(first: bool, events: seq<Ev>, i: nat)
    requires i <= |events|
  {
    i > 0 && if events[i - 1].BeginClose? && !Begun(events, i - 1) then HookSet(first, events, i - 1)
             else HookTaken(first, events, i - 1)
  }

  /** Close's body has run to its end. */
  predicate Returned(events: seq<Ev>, i: nat)
    requires i <= |events|
  {
    i > 0 && (Returned(events, i - 1) || events[i - 1].EndClose?)
  }

  /** The state is what the events say. */
  predicate Tells(first: bool, events: seq<Ev>, i: nat, s: Shutdown)
    requires i <= |events|
  {
    && s.closed == Begun(events, i)
    && s.running == Started(events, i) - Ended(events, i)
    && (!Begun(events, i) ==> s.hook == HookSet(first, events, i))
    && s.once == (if !Begun(events, i) then Unused else if Returned(events, i) then Finished else Waiting(HookTaken(first, events, i)))
    && s.calls == (if Returned(events, i) && HookTaken(first, events, i) then 1 else 0)
    && (Returned(events, i) ==> Begun(events, i) && s.running == 0)
  }

  lemma {:induction false} EventsTell(states: seq<Shutdown>, events: seq<Ev>, i: nat)
    requires IsShutdownRun(states, events) && NewSession(states[0]) && i < |states|
    ensures Tells(states[0].hook, events, i, states[i])
  {
    if i == 0 {
    } else {
      EventsTell(states, events, i - 1);
      var ev := events[i - 1];
    }
  }

  /** Nothing is started once Close has begun. */
  lemma {:induction false} BegunStartsNothing(events: seq<Ev>, i: nat, j: nat)
    requires i <= j <= |events| && Begun(events, i)
    ensures Begun(events, j) && Started(events, j) == Started(events, i)
    decreases j - i
  {
    if i == j {
    } else {
      BegunStartsNothing(events, i, j - 1);
    }
  }

  /** Over every interleaving: the counter is the number of handlers that were started and have not
      ended; a stream that arrives before Close begins starts one and none that arrives later does;
      once Close has returned all have ended; and the callback has run exactly if Close has
      returned and one was set when it began, and then once. */
  lemma CloseDrains(states: seq<Shutdown>, events: seq<Ev>, i: nat, j: nat)
    requires IsShutdownRun(states, events) && NewSession(states[0])
    requires i <= j < |states|
    ensures states[j].running == Started(events, j) - Ended(events, j)
    ensures Begun(events, i) ==> Started(events, j) == Started(events, i)
    ensures Returned(events, j) ==> Started(events, j) == Ended(events, j)
    ensures states[j].calls == if Returned(events, j) && HookTaken(states[0].hook, events, j) then 1 else 0
  {
    EventsTell(states, events, j);
    if Begun(events, i) {
      BegunStartsNothing(events, i, j);
    }
  }

  class Session {
    const nodeID: NodeId
    const localID: NodeId
    const dialer: bool
    var healthy: bool
    var closed: bool
    var hook: bool
    var running: nat
    var once: Once
    const id: nat  // stands for the pointer
    ghost var calls: nat

    constructor (nodeID: NodeId, localID: NodeId, dialer: bool, id: nat)
      ensures this.id == id && Info() == Rosters.Info.Info(nodeID, localID, dialer, true, false)
      ensures NewSession(State()) && hook
    {
      this.nodeID, this.localID, this.dialer, this.id := nodeID, localID, dialer, id;
      healthy, closed, hook, running, once, calls := true, false, true, 0, Unused, 0;
    }

    ghost function State(): Shutdown
      reads this
    {
      Shutdown(closed, hook, running, once, calls)
    }

    function Info(): Info
      reads this
    {
      Rosters.Info.Info(nodeID, localID, dialer, healthy, closed)
    }

    method MarkUnhealthy()
      modifies `healthy
      ensures !healthy
    {
      healthy := false;
    }

    method SetOnClose(on: bool)
      modifies `hook
      ensures State() == Step(old(State()), SetHook(on))
    {
      hook := on;
    }

    /** Registers a handler unless Close has begun. */
    method SpawnStreamHandler() returns (registered: bool)
      modifies `running
      ensures State() == Step(old(State()), Spawn)
      ensures registered <==> !closed
    {
      if closed {
        return false;
      }
      running := running + 1;
      return true;
    }

    /** Close up to its wait. */
    method BeginClose()
      requires closed <==> !once.Unused?
      modifies `closed, `healthy, `hook, `once
      ensures State() == Step(old(State()), Ev.BeginClose)
      ensures healthy == (old(closed) && old(healthy))
    {
      if once.Unused? {
        closed, healthy, once := true, false, Waiting(hook);
        hook := false;
      }
    }

    method HandlerDone()
      requires 0 < running
      modifies `running
      ensures State() == Step(old(State()), HandlerEnds)
    {
      running := running - 1;
    }

    /** Close after its wait: the caller runs the callback if there is one. */
    method EndClose() returns (fire: bool)
      requires once.Waiting? && running == 0
      modifies `once, `calls
      ensures State() == Step(old(State()), Ev.EndClose)
      ensures fire == old(once).fire
    {
      fire := once.fire;
      once := Finished;
      calls := if fire then calls + 1 else calls;
    }
  }
}
