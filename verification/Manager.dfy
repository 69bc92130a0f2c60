/** The manager's objects under interleaving: each method is one lock-protected action of some
    goroutine on the sessions and the roster, and takes the objects along with a step of the
    state machine. */
module Managers {
  import opened Rosters
  import opened RosterTable
  import opened Sessions
  import Runs = RosterRuns

  class Manager {
    const me: NodeId
    const roster: Roster
    var sessions: map<nat, Session>      // every session ever built
    var phases: map<nat, Runs.Phase>     // where the goroutine that installs it stands

    constructor (me: NodeId)
      ensures Shows(Runs.NewEnd(me)) && fresh(roster)
    {
      this.me := me;
      roster := new Roster();
      sessions, phases := map[], map[];
    }

    ghost predicate ShowsSession(e: Runs.End, s: nat)
      requires s in sessions && s in phases && s in e.sessions
      reads this, sessions[s]
    {
      && sessions[s].id == s && Consistent(sessions[s])
      && e.sessions[s] == Runs.Sess(sessions[s].Info(), sessions[s].hook, phases[s])
      && (s in e.callbacks <==> sessions[s].once == Waiting(true))
    }

    ghost predicate ShowsRoster(e: Runs.End)
      reads this, roster
    {
      && e.roster.Keys == roster.sessions.Keys
      && (forall n | n in roster.sessions :: e.roster[n] in sessions && sessions[e.roster[n]] == roster.sessions[n])
    }

    /** The objects are in the state e. */
    ghost predicate Shows(e: Runs.End)
      reads this, roster, sessions.Values
    {
      && e.me == me
      && e.sessions.Keys == sessions.Keys == phases.Keys && e.callbacks <= sessions.Keys
      && (forall s | s in sessions :: ShowsSession(e, s))
      && ShowsRoster(e)
    }

    /** A handshake has completed. */
    method Create(s: nat, peer: NodeId, dialer: bool, ghost e: Runs.End) returns (ghost e': Runs.End)
      requires Shows(e) && s !in sessions && peer != me && peer != ""
      modifies `sessions, `phases
      ensures e' == Runs.EndStep(e, Runs.Create(s, peer, dialer)) && Shows(e')
    {
      assert forall t | t in sessions :: ShowsSession(e, t);
      var sess := new Session(peer, me, dialer, s);
      sessions, phases := sessions[s := sess], phases[s := Runs.Fresh];
      e' := Runs.EndStep(e, Runs.Create(s, peer, dialer));
    }

    method SetPhase(s: nat, ph: Runs.Phase, ghost e: Runs.End) returns (ghost e': Runs.End)
      requires Shows(e) && s in sessions
      modifies `phases
      ensures e' == Runs.WithPhase(e, s, ph) && Shows(e')
    {
      assert forall t | t in sessions :: ShowsSession(e, t);
      phases := phases[s := ph];
      e' := Runs.WithPhase(e, s, ph);
    }

    method ClearHook(s: nat, ghost e: Runs.End) returns (ghost e': Runs.End)
      requires Shows(e) && s in sessions
      modifies sessions[s]
      ensures e' == Runs.ClearHook(e, s) && Shows(e')
    {
      assert forall t | t in sessions :: ShowsSession(e, t);
      sessions[s].SetOnClose(false);
      e' := Runs.ClearHook(e, s);
    }

    /** Close up to its wait. */
    method Close(s: nat, ghost e: Runs.End) returns (ghost e': Runs.End)
      requires Shows(e) && s in sessions
      modifies sessions[s]
      ensures e' == Runs.Close(e, s) && Shows(e')
    {
      assert forall t | t in sessions :: ShowsSession(e, t);
      sessions[s].BeginClose();
      e' := Runs.Close(e, s);
    }

    method Remove(s: nat, ghost e: Runs.End) returns (ghost e': Runs.End)
      requires Shows(e) && s in sessions
      modifies roster
      ensures e' == Runs.RemoveIfCurrent(e, s) && Shows(e')
    {
      assert forall t | t in sessions :: ShowsSession(e, t);
      var removed := roster.RemoveIfCurrent(sessions[s]);
      e' := Runs.RemoveIfCurrent(e, s);
    }

    /** Roster.Install alone: the new map and the verdict. */
    method Place(s: nat, ghost e: Runs.End) returns (verdict: Verdict, prev: nat, ghost e': Runs.End)
      requires Shows(e) && s in sessions
      modifies roster
      ensures verdict == InstallVerdict(Runs.CurrentInfo(e, e.sessions[s].info.peer), e.sessions[s].info)
      ensures e' == (if verdict.Rejected? then e else e.(roster := e.roster[e.sessions[s].info.peer := s])) && Shows(e')
      ensures verdict.Replaced? ==> e.sessions[s].info.peer in e.roster && prev == e.roster[e.sessions[s].info.peer]
    {
      assert forall t | t in sessions :: ShowsSession(e, t);
      ghost var peer := sessions[s].nodeID;
      assert roster.InfoAt(peer) == Runs.CurrentInfo(e, peer);
      var old_;
      verdict, old_ := roster.Install(sessions[s]);
      prev := if old_ != null then old_.id else s;
      e' := if verdict.Rejected? then e else e.(roster := e.roster[peer := s]);
    }

    /** Roster.Install and what the installing goroutine has to do next. */
    method Install(s: nat, ghost e: Runs.End) returns (ghost e': Runs.End)
      requires Shows(e) && s in sessions && phases[s].Fresh?
      modifies `phases, roster
      ensures Runs.CanHappen(e, Runs.Install(s)) && e' == Runs.EndStep(e, Runs.Install(s)) && Shows(e')
    {
      assert ShowsSession(e, s);
      var verdict, prev, placed := Place(s, e);
      e' := SetPhase(s, match verdict
                        case Accepted => Runs.Activating
                        case Replaced => Runs.Displacing(prev)
                        case Rejected => Runs.Refused, placed);
    }

    /** Whether the session is open and its peer's entry. */
    method StillCurrent(s: nat, ghost e: Runs.End) returns (current: bool)
      requires Shows(e) && s in sessions
      ensures current <==> Runs.Mapped(e, s) && Runs.Open(e, s)
    {
      assert ShowsSession(e, s);
      var cur := roster.Get(sessions[s].nodeID);
      return cur == sessions[s];
    }

    method Perform(a: Runs.Action, ghost e: Runs.End) returns (ghost e': Runs.End)
      requires Shows(e) && (!a.Idle? ==> a.o in sessions)
      modifies roster, if a.Idle? then {} else {sessions[a.o]}
      ensures e' == Runs.Act(e, a) && Shows(e')
    {
      match a {
        case Idle => e' := e;
        case ClearsHook(o) => e' := ClearHook(o, e);
        case Closes(o) => e' := Close(o, e);
        case Removes(o) => e' := Remove(o, e);
      }
    }

    method PerformAndGoOn(s: nat, a: Runs.Action, ph: Runs.Phase, ghost e: Runs.End) returns (ghost e': Runs.End)
      requires Shows(e) && s in sessions && (!a.Idle? ==> a.o in sessions)
      modifies `phases, roster, sessions.Values
      ensures s in Runs.Act(e, a).sessions && e' == Runs.WithPhase(Runs.Act(e, a), s, ph) && Shows(e')
    {
      e' := Perform(a, e);
      e' := SetPhase(s, ph, e');
    }

    /** The session the next action is about is known, as it is in every reachable state
        (`Runs.ActionIsReady`). */
    ghost predicate Ready(e: Runs.End, s: nat)
      reads this
    {
      && s in sessions && s in e.sessions
      && var a := Runs.ActionOf(e.sessions[s].phase, s);
         !a.Idle? ==> a.o in sessions
    }

    /** The next action of the goroutine that installs s. */
    method Proceed(s: nat, ghost e: Runs.End) returns (ghost e': Runs.End)
      requires Shows(e) && Ready(e, s)
      modifies `phases, roster, sessions.Values
      ensures e' == Runs.ProceedStep(e, s) && Shows(e')
    {
      assert ShowsSession(e, s);
      var current := StillCurrent(s, e);
      var a, ph := Runs.ActionOf(phases[s], s), Runs.NextPhase(phases[s], current);
      e' := PerformAndGoOn(s, a, ph, e);
      Runs.ProceedIsAction(e, s);
    }

    /** A heartbeat or a stream fails. */
    method Sicken(s: nat, ghost e: Runs.End) returns (ghost e': Runs.End)
      requires Shows(e) && s in sessions
      modifies sessions[s]
      ensures s in e.sessions && e' == Runs.EndStep(e, Runs.Sicken(s)) && Shows(e')
    {
      assert forall t | t in sessions :: ShowsSession(e, t);
      sessions[s].MarkUnhealthy();
      e' := Runs.EndStep(e, Runs.Sicken(s));
    }

    method FinishClose(s: nat, ghost e: Runs.End) returns (ghost e': Runs.End)
      requires Shows(e) && s in sessions
      requires sessions[s].once == Waiting(true) && sessions[s].running == 0
      modifies sessions[s]
      ensures e' == e.(callbacks := e.callbacks - {s}) && Shows(e')
    {
      assert forall t | t in sessions :: ShowsSession(e, t);
      var fire := sessions[s].EndClose();
      e' := e.(callbacks := e.callbacks - {s});
    }

    /** Close after its wait, and the callback it took. */
    method Callback(s: nat, ghost e: Runs.End) returns (ghost e': Runs.End)
      requires Shows(e) && s in sessions
      requires sessions[s].once == Waiting(true) && sessions[s].running == 0
      modifies roster, sessions[s]
      ensures s in e.callbacks && e' == Runs.EndStep(e, Runs.Callback(s)) && Shows(e')
    {
      assert ShowsSession(e, s);
      e' := Remove(s, e);
      e' := FinishClose(s, e');
    }
  }
}
