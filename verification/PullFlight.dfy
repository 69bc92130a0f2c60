/** The single-flight pull worker. */
module PullFlights {

  /** starting and pulling count the workers about to begin a batch and inside one. */
  datatype Flight = Flight(running: bool, pending: bool, starting: nat, pulling: nat)

  datatype Ev = Request | BatchStarts | BatchEnds

  predicate CanHappen(f: Flight, ev: Ev) {
    match ev
    case Request => true
    case BatchStarts => 0 < f.starting
    case BatchEnds => 0 < f.pulling
  }

  /** A request starts a worker or leaves a mark; a worker that finds the mark goes on. */
  function Step(f: Flight, ev: Ev): Flight
    requires CanHappen(f, ev)
  {
    match ev
    case Request =>
      if f.running then f.(pending := true) else f.(running := true, starting := f.starting + 1)
    case BatchStarts => f.(starting := f.starting - 1, pulling := f.pulling + 1)
    case BatchEnds =>
      if f.pending then f.(pending := false, pulling := f.pulling - 1, starting := f.starting + 1)
      else f.(running := false, pulling := f.pulling - 1)
  }

  ghost predicate IsRun(states: seq<Flight>, events: seq<Ev>) {
    && |states| == |events| + 1
    && states[0] == Flight(false, false, 0, 0)
    && forall i {:trigger events[i]} | 0 <= i < |events| ::
         CanHappen(states[i], events[i]) && states[i + 1] == Step(states[i], events[i])
  }

  lemma {:induction false} AtMostOneWorker(states: seq<Flight>, events: seq<Ev>, i: nat)
    requires IsRun(states, events) && i < |states|
    ensures states[i].starting + states[i].pulling == if states[i].running then 1 else 0
    ensures states[i].pending ==> states[i].running
  {
    if i == 0 {
    } else {
      AtMostOneWorker(states, events, i - 1);
      var ev := events[i - 1];
    }
  }

  /** Until a batch starts after a request, one is about to start or is bound to follow. */
  lemma {:induction false} RequestIsRemembered(states: seq<Flight>, events: seq<Ev>, i: nat, j: nat)
    requires IsRun(states, events) && i < j < |states| && events[i].Request?
    requires forall k | i < k < j :: !events[k].BatchStarts?
    ensures states[j].starting == 1 || (states[j].pulling == 1 && states[j].pending)
    decreases j
  {
    AtMostOneWorker(states, events, j - 1);
    var ev := events[j - 1];
    if j == i + 1 {
    } else {
      RequestIsRemembered(states, events, i, j - 1);
    }
  }

  /** No request is lost: whenever the worker has gone, every earlier request was followed by a
      batch that started after it. */
  lemma EveryRequestIsServed(states: seq<Flight>, events: seq<Ev>, i: nat, j: nat)
    requires IsRun(states, events) && i < j < |states| && events[i].Request?
    requires states[j].starting + states[j].pulling == 0
    ensures exists k | i < k < j :: events[k].BatchStarts?
  {
    if forall k | i < k < j :: !events[k].BatchStarts? {
      RequestIsRemembered(states, events, i, j);
    }
  }

  /** How many of the first i events are requests, and how many start a batch. */
  function Requests(events: seq<Ev>, i: nat): nat
    requires i <= |events|
  {
    if i == 0 then 0 else Requests(events, i - 1) + if events[i - 1].Request? then 1 else 0
  }

  function Batches(events: seq<Ev>, i: nat): nat
    requires i <= |events|
  {
    if i == 0 then 0 else Batches(events, i - 1) + if events[i - 1].BatchStarts? then 1 else 0
  }

  /** No batch without a request: every batch that ran, is about to or is bound to has one of its own. */
  lemma {:induction false} NoIdleBatch(states: seq<Flight>, events: seq<Ev>, i: nat)
    requires IsRun(states, events) && i < |states|
    ensures Batches(events, i) + states[i].starting + (if states[i].pending then 1 else 0) <= Requests(events, i)
  {
    if i == 0 {
    } else {
      NoIdleBatch(states, events, i - 1);
      var ev := events[i - 1];
    }
  }

  class PullFlight {
    var running: bool
    var pending: bool

    constructor ()
      ensures !running && !pending
    {
      running, pending := false, false;
    }

    /** True: the caller must run a worker. */
    method TryStart() returns (start: bool)
      modifies this
      ensures start == !old(running)
      ensures forall s: nat, p: nat :: var f := Flight(old(running), old(pending), s, p);
                Step(f, Request) == Flight(running, pending, if start then s + 1 else s, p)
    {
      if running {
        pending := true;
        return false;
      }
      running := true;
      return true;
    }

    /** True: the worker must run another batch. */
    method Finish() returns (runAgain: bool)
      modifies this
      ensures runAgain == old(pending)
      ensures forall s: nat, p: nat | 0 < p :: var f := Flight(old(running), old(pending), s, p);
                Step(f, BatchEnds) == Flight(running, pending, if runAgain then s + 1 else s, p - 1)
    {
      if pending {
        pending := false;
        return true;
      }
      running := false;
      return false;
    }
  }
}
