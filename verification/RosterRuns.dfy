/** One end's sessions under every interleaving of installs, activations, failures and close
    callbacks. Each step is one lock-protected action of the source. */
module RosterRuns {
  import opened Bytes
  import opened Rosters

  type Sid = nat

  /** Where the goroutine that installs a session stands. */
  datatype Phase =
    | Fresh                     // built, Install not yet run
    | Refused                   // Install refused it
    | RefusedQuiet              // ... and its callback is cleared
    | Displacing(prev: Sid)      // Install put it in place of prev
    | DisplacingQuiet(prev: Sid) // ... and prev's callback is cleared
    | Activating                // about to check that it is still current
    | Serving                   // serving, about to check once more
    | Discarding                // a check failed
    | DiscardingQuiet           // ... and its callback is cleared
    | DiscardingGone            // ... and it is out of the map
    | Up                        // installAndActivate returned success
    | Down                      // installAndActivate returned an error

  /** hook: the close callback is set. */
  datatype Sess = Sess(info: Info, hook: bool, phase: Phase)

  /** callbacks: sessions whose Close has taken the callback but not run it yet. */
  datatype End = End(me: NodeId, sessions: map<Sid, Sess>, roster: map<NodeId, Sid>, callbacks: set<Sid>)

  datatype Ev =
    | Create(s: Sid, peer: NodeId, dialer: bool)  // a handshake has completed
    | Install(s: Sid)
    | Proceed(s: Sid)    // the next action of the installing goroutine
    | Quit(s: Sid)       // the manager is shutting down when the goroutine checks
    | Sicken(s: Sid)     // a heartbeat or stream failure marks it unhealthy
    | CloseAny(s: Sid)   // anything else closes it
    | Callback(s: Sid)   // its close callback runs

  predicate Mapped(e: End, s: Sid) {
    s in e.sessions && e.sessions[s].info.peer in e.roster && e.roster[e.sessions[s].info.peer] == s
  }

  predicate Open(e: End, s: Sid) {
    s in e.sessions && !e.sessions[s].info.closed
  }

  function WithPhase(e: End, s: Sid, ph: Phase): End
    requires s in e.sessions
  {
    e.(sessions := e.sessions[s := e.sessions[s].(phase := ph)])
  }

  function ClearHook(e: End, s: Sid): End {
    if s in e.sessions then e.(sessions := e.sessions[s := e.sessions[s].(hook := false)]) else e
  }

  /** The locked part of Close; only the first call has an effect. */
  function Close(e: End, s: Sid): End {
    if !Open(e, s) then e
    else
      var x := e.sessions[s];
      e.(sessions := e.sessions[s := x.(info := x.info.(closed := true, healthy := false), hook := false)],
         callbacks := if x.hook then e.callbacks + {s} else e.callbacks)
  }

  function RemoveIfCurrent(e: End, s: Sid): End {
    if Mapped(e, s) then e.(roster := e.roster - {e.sessions[s].info.peer}) else e
  }

  function CurrentInfo(e: End, peer: NodeId): Option<Info> {
    if peer in e.roster && e.roster[peer] in e.sessions then Some(e.sessions[e.roster[peer]].info) else None
  }

  function InstallStep(e: End, s: Sid): End
    requires s in e.sessions
  {
    var info := e.sessions[s].info;
    var placed := e.(roster := e.roster[info.peer := s]);
    match InstallVerdict(CurrentInfo(e, info.peer), info)
    case Accepted => WithPhase(placed, s, Activating)
    case Replaced => WithPhase(placed, s, Displacing(if info.peer in e.roster then e.roster[info.peer] else s))
    case Rejected => WithPhase(e, s, Refused)
  }

  function ProceedStep(e: End, s: Sid): End
    requires s in e.sessions
  {
    match e.sessions[s].phase
    case Fresh => e
    case Refused => WithPhase(ClearHook(e, s), s, RefusedQuiet)
    case RefusedQuiet => WithPhase(Close(e, s), s, Down)
    case Displacing(prev) => WithPhase(ClearHook(e, prev), s, DisplacingQuiet(prev))
    case DisplacingQuiet(prev) => WithPhase(Close(e, prev), s, Activating)
    case Activating => WithPhase(e, s, if Mapped(e, s) && Open(e, s) then Serving else Discarding)
    case Serving => WithPhase(e, s, if Mapped(e, s) && Open(e, s) then Up else Discarding)
    case Discarding => WithPhase(ClearHook(e, s), s, DiscardingQuiet)
    case DiscardingQuiet => WithPhase(RemoveIfCurrent(e, s), s, DiscardingGone)
    case DiscardingGone => WithPhase(Close(e, s), s, Down)
    case Up => e
    case Down => e
  }

  // What a goroutine does next, as an action on sessions and map and the phase that follows.

  datatype Action = Idle | ClearsHook(o: Sid) | Closes(o: Sid) | Removes(o: Sid)

  function ActionOf(ph: Phase, s: Sid): Action {
    match ph
    case Refused => ClearsHook(s)
    case RefusedQuiet => Closes(s)
    case Displacing(prev) => ClearsHook(prev)
    case DisplacingQuiet(prev) => Closes(prev)
    case Discarding => ClearsHook(s)
    case DiscardingQuiet => Removes(s)
    case DiscardingGone => Closes(s)
    case _ => Idle
  }

  function Act(e: End, a: Action): End {
    match a
    case Idle => e
    case ClearsHook(o) => ClearHook(e, o)
    case Closes(o) => Close(e, o)
    case Removes(o) => RemoveIfCurrent(e, o)
  }

  function NextPhase(ph: Phase, current: bool): Phase {
    match ph
    case Refused => RefusedQuiet
    case RefusedQuiet => Down
    case Displacing(prev) => DisplacingQuiet(prev)
    case DisplacingQuiet(_) => Activating
    case Activating => if current then Serving else Discarding
    case Serving => if current then Up else Discarding
    case Discarding => DiscardingQuiet
    case DiscardingQuiet => DiscardingGone
    case DiscardingGone => Down
    case _ => ph
  }

  lemma ActKeepsSessions(e: End, a: Action)
    ensures Act(e, a).sessions.Keys == e.sessions.Keys
  {
  }

  lemma ProceedIsAction(e: End, s: Sid)
    requires s in e.sessions
    ensures var ph := e.sessions[s].phase;
            && s in Act(e, ActionOf(ph, s)).sessions
            && ProceedStep(e, s) == WithPhase(Act(e, ActionOf(ph, s)), s, NextPhase(ph, Mapped(e, s) && Open(e, s)))
  {
    var ph := e.sessions[s].phase;
    ActKeepsSessions(e, ActionOf(ph, s));
    assert e.sessions[s := e.sessions[s].(phase := ph)] == e.sessions;
  }

  predicate CanHappen(e: End, ev: Ev) {
    match ev
    case Create(s, peer, _) => s !in e.sessions && peer != e.me && peer != ""
    case Install(s) => s in e.sessions && e.sessions[s].phase.Fresh?
    case Proceed(s) => s in e.sessions
    case Quit(s) => s in e.sessions && (e.sessions[s].phase.Activating? || e.sessions[s].phase.Serving?)
    case Sicken(s) => s in e.sessions
    case CloseAny(s) => s in e.sessions
    case Callback(s) => s in e.callbacks
  }

  function EndStep(e: End, ev: Ev): End
    requires CanHappen(e, ev)
  {
    match ev
    case Create(s, peer, dialer) =>
      e.(sessions := e.sessions[s := Sess(Info(peer, e.me, dialer, true, false), true, Fresh)])
    case Install(s) => InstallStep(e, s)
    case Proceed(s) => ProceedStep(e, s)
    case Quit(s) => WithPhase(e, s, Discarding)
    case Sicken(s) =>
      e.(sessions := e.sessions[s := e.sessions[s].(info := e.sessions[s].info.(healthy := false))])
    case CloseAny(s) => Close(e, s)
    case Callback(s) => RemoveIfCurrent(e, s).(callbacks := e.callbacks - {s})
  }

  // ---------------------------------------------------------------- The invariant

  /** t's goroutine still has to close o. */
  predicate Owes(e: End, t: Sid, o: Sid) {
    t in e.sessions && (e.sessions[t].phase == Displacing(o) || e.sessions[t].phase == DisplacingQuiet(o))
  }

  predicate Settling(ph: Phase) {
    ph.Displacing? || ph.DisplacingQuiet? || ph.Activating? || ph.Serving? || ph.Up?
  }

  predicate Leaving(ph: Phase) {
    ph.Refused? || ph.RefusedQuiet? || ph.Discarding? || ph.DiscardingQuiet? || ph.DiscardingGone?
  }

  /** A session in the map is installed, and its closing will be noticed: either its own
      goroutine has yet to check it, or its callback is set or about to run. */
  predicate MappedOk(e: End, n: NodeId) {
    && n in e.roster
    && var s := e.roster[n];
       && s in e.sessions
       && e.sessions[s].info.peer == n
       && (Settling(e.sessions[s].phase) || e.sessions[s].phase.Discarding? || e.sessions[s].phase.DiscardingQuiet?)
       && (e.sessions[s].phase.Up? && !Open(e, s) ==> s in e.callbacks)
       && (Settling(e.sessions[s].phase) && Open(e, s) ==> e.sessions[s].hook)
  }

  ghost predicate Owed(e: End, s: Sid) {
    exists t :: Owes(e, t, s)
  }

  /** An installed session is in the map, closed, or on some goroutine's list to be closed. */
  ghost predicate AccountedFor(e: End, s: Sid)
    requires s in e.sessions
  {
    && (Settling(e.sessions[s].phase) ==> Mapped(e, s) || !Open(e, s) || Owed(e, s))
    && (e.sessions[s].phase.Down? ==> !Open(e, s))
    && (e.sessions[s].phase.Fresh? && Open(e, s) ==> e.sessions[s].hook)
  }

  ghost predicate Sound(e: End) {
    && (forall n | n in e.roster :: MappedOk(e, n))
    && (forall s | s in e.sessions :: AccountedFor(e, s))
    && (forall t, o | Owes(e, t, o) :: o in e.sessions && !Mapped(e, o) && !e.sessions[o].phase.Fresh?)
    && (forall s | s in e.callbacks :: s in e.sessions && !Open(e, s))
  }

  /** A goroutine's next action is always on a session that exists. */
  lemma ActionIsReady(e: End, s: Sid)
    requires Sound(e) && s in e.sessions
    ensures var a := ActionOf(e.sessions[s].phase, s);
            !a.Idle? ==> a.o in e.sessions
  {
    var ph := e.sessions[s].phase;
    assert ph.Displacing? || ph.DisplacingQuiet? ==> Owes(e, s, ph.prev);
  }

  // ---------------------------------------------------------------- Single actions keep it

  /** Debts carry over when every debtor's phase does, or the debt is paid. */
  lemma DebtsCarryOver(e: End, e': End)
    requires Sound(e) && e.sessions.Keys <= e'.sessions.Keys
    requires forall t, o | Owes(e, t, o) :: Owes(e', t, o) || !Open(e', o)
    requires forall s | s in e.sessions && !Open(e, s) :: !Open(e', s)
    requires forall s | s in e.sessions && Mapped(e, s) ::
               Mapped(e', s) || !Open(e', s) || Owed(e', s) || !Settling(e'.sessions[s].phase)
    requires forall s | s in e.sessions && Settling(e'.sessions[s].phase) && !Settling(e.sessions[s].phase) :: Mapped(e', s)
    requires forall s | s in e.sessions && e'.sessions[s].phase.Down? && !e.sessions[s].phase.Down? :: !Open(e', s)
    requires forall s | s in e.sessions && e'.sessions[s].phase.Fresh? && Open(e', s) ::
               e.sessions[s].phase.Fresh? && (e.sessions[s].hook ==> e'.sessions[s].hook)
    ensures forall s | s in e.sessions :: AccountedFor(e', s)
  {
    forall s | s in e.sessions ensures AccountedFor(e', s) {
      assert AccountedFor(e, s);
      if t :| Owes(e, t, s) {
        assert Owes(e', t, s) || !Open(e', s);
      }
    }
  }

  lemma CloseKeepsSound(e: End, s: Sid)
    requires Sound(e)
    ensures Sound(Close(e, s))
  {
    var e' := Close(e, s);
    forall n | n in e'.roster ensures MappedOk(e', n) {
      assert MappedOk(e, n);
    }
    forall t, o | Owes(e', t, o) ensures o in e'.sessions && !Mapped(e', o) && !e'.sessions[o].phase.Fresh? {
      assert Owes(e, t, o);
    }
    DebtsCarryOver(e, e');
  }

  lemma RemoveKeepsSound(e: End, s: Sid)
    requires Sound(e)
    requires Mapped(e, s) ==> !Open(e, s) || !Settling(e.sessions[s].phase)
    ensures Sound(RemoveIfCurrent(e, s))
  {
    var e' := RemoveIfCurrent(e, s);
    forall n | n in e'.roster ensures MappedOk(e', n) {
      assert MappedOk(e, n);
    }
    forall t, o | Owes(e', t, o) ensures o in e'.sessions && !Mapped(e', o) && !e'.sessions[o].phase.Fresh? {
      assert Owes(e, t, o);
    }
    DebtsCarryOver(e, e');
  }

  lemma ClearHookKeepsSound(e: End, s: Sid)
    requires Sound(e)
    requires Mapped(e, s) ==> !Open(e, s) || !Settling(e.sessions[s].phase)
    requires s in e.sessions ==> !e.sessions[s].phase.Fresh?
    ensures Sound(ClearHook(e, s))
  {
    var e' := ClearHook(e, s);
    forall n | n in e'.roster ensures MappedOk(e', n) {
      assert MappedOk(e, n);
    }
    forall t, o | Owes(e', t, o) ensures o in e'.sessions && !Mapped(e', o) && !e'.sessions[o].phase.Fresh? {
      assert Owes(e, t, o);
    }
    DebtsCarryOver(e, e');
  }

  /** A goroutine may move to phase ph when its debts are paid or kept and, if its session is in
      the map, the new phase still looks after it. */
  lemma PhaseKeepsSound(e: End, s: Sid, ph: Phase)
    requires Sound(e) && s in e.sessions && !ph.Fresh?
    requires forall o | Owes(e, s, o) :: Owes(WithPhase(e, s, ph), s, o) || !Open(e, o)
    requires forall o | Owes(WithPhase(e, s, ph), s, o) :: Owes(e, s, o)
    requires Settling(ph) ==> Settling(e.sessions[s].phase)
    requires ph.Down? ==> !Open(e, s)
    requires Mapped(e, s) ==>
               && (Settling(ph) || ph.Discarding? || ph.DiscardingQuiet?)
               && (ph.Up? ==> Open(e, s))
    ensures Sound(WithPhase(e, s, ph))
  {
    var e' := WithPhase(e, s, ph);
    forall n | n in e'.roster ensures MappedOk(e', n) {
      assert MappedOk(e, n);
    }
    forall t, o | Owes(e', t, o) ensures o in e'.sessions && !Mapped(e', o) && !e'.sessions[o].phase.Fresh? {
      assert Owes(e, t, o);
    }
    forall t, o | Owes(e, t, o) ensures Owes(e', t, o) || !Open(e', o) {
      if t != s {
        assert Owes(e', t, o);
      }
    }
    DebtsCarryOver(e, e');
  }

  // ---------------------------------------------------------------- Every step keeps it

  lemma LeavingKeepsSound(e: End, s: Sid)
    requires Sound(e) && s in e.sessions && Leaving(e.sessions[s].phase)
    ensures Sound(ProceedStep(e, s))
  {
    assert Mapped(e, s) ==> MappedOk(e, e.sessions[s].info.peer);
    match e.sessions[s].phase
    case Refused =>
      ClearHookKeepsSound(e, s);
      PhaseKeepsSound(ClearHook(e, s), s, RefusedQuiet);
    case RefusedQuiet =>
      CloseKeepsSound(e, s);
      PhaseKeepsSound(Close(e, s), s, Down);
    case Discarding =>
      ClearHookKeepsSound(e, s);
      PhaseKeepsSound(ClearHook(e, s), s, DiscardingQuiet);
    case DiscardingQuiet =>
      RemoveKeepsSound(e, s);
      PhaseKeepsSound(RemoveIfCurrent(e, s), s, DiscardingGone);
    case DiscardingGone =>
      CloseKeepsSound(e, s);
      PhaseKeepsSound(Close(e, s), s, Down);
  }

  lemma SettlingKeepsSound(e: End, s: Sid)
    requires Sound(e) && s in e.sessions && Settling(e.sessions[s].phase)
    ensures Sound(ProceedStep(e, s))
  {
    match e.sessions[s].phase
    case Displacing(prev) =>
      assert Owes(e, s, prev);
      ClearHookKeepsSound(e, prev);
      PhaseKeepsSound(ClearHook(e, prev), s, DisplacingQuiet(prev));
    case DisplacingQuiet(prev) =>
      assert Owes(e, s, prev);
      CloseKeepsSound(e, prev);
      PhaseKeepsSound(Close(e, prev), s, Activating);
    case Activating =>
      PhaseKeepsSound(e, s, if Mapped(e, s) && Open(e, s) then Serving else Discarding);
    case Serving =>
      PhaseKeepsSound(e, s, if Mapped(e, s) && Open(e, s) then Up else Discarding);
    case Up =>
  }

  /** Taking over a peer's map entry turns the session that held it into a debt. */
  lemma InstallOwes(e: End, s: Sid, t: Sid, o: Sid)
    requires Sound(e) && CanHappen(e, Install(s))
    requires !InstallVerdict(CurrentInfo(e, e.sessions[s].info.peer), e.sessions[s].info).Rejected?
    ensures Owes(InstallStep(e, s), t, o) ==>
              var e' := InstallStep(e, s);
              o in e'.sessions && !Mapped(e', o) && !e'.sessions[o].phase.Fresh?
    ensures Owes(e, t, o) ==> Owes(InstallStep(e, s), t, o)
  {
    var peer := e.sessions[s].info.peer;
    assert peer in e.roster ==> MappedOk(e, peer);
    if Owes(InstallStep(e, s), t, o) && t != s {
      assert Owes(e, t, o);
    }
  }

  lemma InstallAccounts(e: End, s: Sid, x: Sid)
    requires Sound(e) && CanHappen(e, Install(s)) && x in e.sessions
    requires !InstallVerdict(CurrentInfo(e, e.sessions[s].info.peer), e.sessions[s].info).Rejected?
    ensures AccountedFor(InstallStep(e, s), x)
  {
    var e', peer := InstallStep(e, s), e.sessions[s].info.peer;
    assert AccountedFor(e, x);
    if t :| Owes(e, t, x) {
      InstallOwes(e, s, t, x);
    }
    assert x != s && Mapped(e, x) && !Mapped(e', x) ==> Owes(e', s, x);
  }

  lemma InstallCarriesDebts(e: End, s: Sid)
    requires Sound(e) && CanHappen(e, Install(s))
    requires !InstallVerdict(CurrentInfo(e, e.sessions[s].info.peer), e.sessions[s].info).Rejected?
    ensures var e' := InstallStep(e, s);
            && (forall t, o | Owes(e', t, o) :: o in e'.sessions && !Mapped(e', o) && !e'.sessions[o].phase.Fresh?)
            && (forall x | x in e'.sessions :: AccountedFor(e', x))
  {
    var e' := InstallStep(e, s);
    forall t, o | Owes(e', t, o) ensures o in e'.sessions && !Mapped(e', o) && !e'.sessions[o].phase.Fresh? {
      InstallOwes(e, s, t, o);
    }
    forall x | x in e'.sessions ensures AccountedFor(e', x) {
      InstallAccounts(e, s, x);
    }
  }

  lemma InstallKeepsSound(e: End, s: Sid)
    requires Sound(e) && CanHappen(e, Install(s))
    ensures Sound(InstallStep(e, s))
  {
    var e', peer := InstallStep(e, s), e.sessions[s].info.peer;
    assert Mapped(e, s) ==> MappedOk(e, peer);
    if InstallVerdict(CurrentInfo(e, peer), e.sessions[s].info).Rejected? {
      PhaseKeepsSound(e, s, Refused);
    } else {
      assert AccountedFor(e, s);
      forall n | n in e'.roster ensures MappedOk(e', n) {
        if n != peer {
          assert MappedOk(e, n);
        }
      }
      InstallCarriesDebts(e, s);
    }
  }

  lemma CallbackKeepsSound(e: End, s: Sid)
    requires Sound(e) && s in e.callbacks
    ensures Sound(EndStep(e, Callback(s)))
  {
    var mid, e' := RemoveIfCurrent(e, s), EndStep(e, Callback(s));
    RemoveKeepsSound(e, s);
    forall n | n in e'.roster ensures MappedOk(e', n) {
      assert MappedOk(mid, n);
    }
    forall t, o | Owes(e', t, o) ensures o in e'.sessions && !Mapped(e', o) && !e'.sessions[o].phase.Fresh? {
      assert Owes(mid, t, o);
    }
    forall t, o | Owes(mid, t, o) ensures Owes(e', t, o) {
    }
    DebtsCarryOver(mid, e');
  }

  lemma CreateKeepsSound(e: End, ev: Ev)
    requires Sound(e) && CanHappen(e, ev) && ev.Create?
    ensures Sound(EndStep(e, ev))
  {
    var e' := EndStep(e, ev);
    forall n | n in e'.roster ensures MappedOk(e', n) {
      assert MappedOk(e, n);
    }
    forall t, o | Owes(e', t, o) ensures o in e'.sessions && !Mapped(e', o) && !e'.sessions[o].phase.Fresh? {
      assert Owes(e, t, o);
    }
    forall t, o | Owes(e, t, o) ensures Owes(e', t, o) {
    }
    DebtsCarryOver(e, e');
  }

  lemma SickenKeepsSound(e: End, ev: Ev)
    requires Sound(e) && CanHappen(e, ev) && ev.Sicken?
    ensures Sound(EndStep(e, ev))
  {
    var e' := EndStep(e, ev);
    forall n | n in e'.roster ensures MappedOk(e', n) {
      assert MappedOk(e, n);
    }
    forall t, o | Owes(e', t, o) ensures o in e'.sessions && !Mapped(e', o) && !e'.sessions[o].phase.Fresh? {
      assert Owes(e, t, o);
    }
    forall t, o | Owes(e, t, o) ensures Owes(e', t, o) {
    }
    DebtsCarryOver(e, e');
  }

  lemma StepKeepsSound(e: End, ev: Ev)
    requires Sound(e) && CanHappen(e, ev)
    ensures Sound(EndStep(e, ev))
  {
    match ev
    case Create(_, _, _) => CreateKeepsSound(e, ev);
    case Install(s) => InstallKeepsSound(e, s);
    case Proceed(s) =>
      if Leaving(e.sessions[s].phase) {
        LeavingKeepsSound(e, s);
      } else if Settling(e.sessions[s].phase) {
        SettlingKeepsSound(e, s);
      }
    case Quit(s) => PhaseKeepsSound(e, s, Discarding);
    case Sicken(_) => SickenKeepsSound(e, ev);
    case CloseAny(s) => CloseKeepsSound(e, s);
    case Callback(s) => CallbackKeepsSound(e, s);
  }

  // ---------------------------------------------------------------- Whose sessions they are

  /** e' has the sessions of e, each with the same two nodes and the same dialer. */
  ghost predicate SameOwners(e: End, e': End) {
    && e'.me == e.me && e'.sessions.Keys == e.sessions.Keys
    && forall s {:trigger e'.sessions[s]} | s in e.sessions ::
         var i, j := e.sessions[s].info, e'.sessions[s].info;
         i.peer == j.peer && i.local == j.local && i.dialer == j.dialer
  }

  lemma ActKeepsOwners(e: End, a: Action)
    ensures SameOwners(e, Act(e, a))
  {
  }

  lemma PhaseKeepsOwners(e: End, mid: End, s: Sid, ph: Phase)
    requires SameOwners(e, mid) && s in mid.sessions
    ensures SameOwners(e, WithPhase(mid, s, ph))
  {
  }

  lemma ProceedKeepsOwners(e: End, s: Sid)
    requires s in e.sessions
    ensures SameOwners(e, ProceedStep(e, s))
  {
    var ph := e.sessions[s].phase;
    ProceedIsAction(e, s);
    ActKeepsOwners(e, ActionOf(ph, s));
    PhaseKeepsOwners(e, Act(e, ActionOf(ph, s)), s, NextPhase(ph, Mapped(e, s) && Open(e, s)));
  }

  lemma SameSessions(e: End, ev: Ev)
    requires CanHappen(e, ev)
    ensures !ev.Create? ==> SameOwners(e, EndStep(e, ev))
  {
    match ev
    case Proceed(s) => ProceedKeepsOwners(e, s);
    case _ =>
  }

  /** Every session has this end's node as its local side. */
  predicate OwnSessions(e: End) {
    forall s | s in e.sessions :: e.sessions[s].info.local == e.me
  }

  lemma StepKeepsOwn(e: End, ev: Ev)
    requires OwnSessions(e) && CanHappen(e, ev)
    ensures OwnSessions(EndStep(e, ev))
  {
    SameSessions(e, ev);
  }

  // ---------------------------------------------------------------- Whole runs

  ghost predicate IsEndRun(states: seq<End>, events: seq<Ev>) {
    && |states| == |events| + 1
    && forall i {:trigger events[i]} | 0 <= i < |events| ::
         CanHappen(states[i], events[i]) && states[i + 1] == EndStep(states[i], events[i])
  }

  function NewEnd(me: NodeId): End {
    End(me, map[], map[], {})
  }

  lemma {:induction false} RosterIsSound(states: seq<End>, events: seq<Ev>, i: nat)
    requires IsEndRun(states, events) && states[0] == NewEnd(states[0].me)
    requires i < |states|
    ensures Sound(states[i]) && OwnSessions(states[i])
  {
    if i == 0 {
    } else {
      RosterIsSound(states, events, i - 1);
      var ev := events[i - 1];
      StepKeepsSound(states[i - 1], ev);
      StepKeepsOwn(states[i - 1], ev);
    }
  }

  /** No goroutine is in the middle of an install and no callback is waiting to run. */
  predicate Quiet(e: End) {
    && e.callbacks == {}
    && forall s | s in e.sessions :: e.sessions[s].phase.Up? || e.sessions[s].phase.Down?
  }

  /** Whenever things are quiet, the open sessions are exactly the map entries: nothing leaks,
      nothing closed lingers, and no peer has two. */
  lemma QuietRosterIsExact(states: seq<End>, events: seq<Ev>, i: nat)
    requires IsEndRun(states, events) && states[0] == NewEnd(states[0].me)
    requires i < |states| && Quiet(states[i])
    ensures forall s | s in states[i].sessions :: Open(states[i], s) <==> Mapped(states[i], s)
    ensures forall s, t | Open(states[i], s) && Open(states[i], t)
                          && states[i].sessions[s].info.peer == states[i].sessions[t].info.peer :: s == t
  {
    RosterIsSound(states, events, i);
    var e := states[i];
    forall s | s in e.sessions ensures Open(e, s) <==> Mapped(e, s) {
      assert AccountedFor(e, s);
      assert Mapped(e, s) ==> MappedOk(e, e.sessions[s].info.peer);
    }
  }

  // ---------------------------------------------------------------- The preferred connection stays

  /** s is in the map, healthy, and its installing goroutine has not turned away from it. */
  predicate Holds(e: End, s: Sid) {
    Mapped(e, s) && Healthy(e.sessions[s].info) && Settling(e.sessions[s].phase)
  }

  predicate Preferred(info: Info) {
    DialerOf(info) == PreferredDialer(info.local, info.peer)
  }

  /** The event is a failure of s itself. */
  predicate Harms(ev: Ev, s: Sid) {
    ev == Sicken(s) || ev == CloseAny(s) || ev == Quit(s)
  }

  lemma ProceedKeepsPreferred(e: End, t: Sid, s: Sid)
    requires t in e.sessions && Holds(e, s) && !Owes(e, t, s)
    ensures Holds(ProceedStep(e, t), s) && ProceedStep(e, t).sessions[s].info == e.sessions[s].info
  {
  }

  lemma InstallKeepsPreferred(e: End, t: Sid, s: Sid)
    requires Sound(e) && CanHappen(e, Install(t))
    requires Holds(e, s) && Preferred(e.sessions[s].info)
    requires e.sessions[t].info.local == e.sessions[s].info.local
    ensures Holds(InstallStep(e, t), s) && InstallStep(e, t).sessions[s].info == e.sessions[s].info
  {
    assert t != s;
  }

  lemma StepKeepsPreferred(e: End, ev: Ev, s: Sid)
    requires Sound(e) && OwnSessions(e) && CanHappen(e, ev)
    requires Holds(e, s) && Preferred(e.sessions[s].info) && !Harms(ev, s)
    ensures Holds(EndStep(e, ev), s) && EndStep(e, ev).sessions[s].info == e.sessions[s].info
  {
    match ev
    case Proceed(t) => ProceedKeepsPreferred(e, t, s);
    case Install(t) => InstallKeepsPreferred(e, t, s);
    case _ =>
  }

  /** A healthy session dialed by the preferred side is never displaced: over every run, unless
      it fails itself, no other session's install, discard, close or late callback takes it out
      of the map. */
  lemma {:induction false} PreferredStays(states: seq<End>, events: seq<Ev>, i: nat, j: nat, s: Sid)
    requires IsEndRun(states, events) && states[0] == NewEnd(states[0].me)
    requires i <= j < |states|
    requires Holds(states[i], s) && Preferred(states[i].sessions[s].info)
    requires forall k | i <= k < j :: !Harms(events[k], s)
    ensures Holds(states[j], s) && states[j].sessions[s].info == states[i].sessions[s].info
    decreases j - i
  {
    if i == j {
    } else {
      PreferredStays(states, events, i, j - 1, s);
      RosterIsSound(states, events, j - 1);
      var ev := events[j - 1];
      StepKeepsPreferred(states[j - 1], ev, s);
    }
  }

  /** The event takes t's entry out of the map: t's own callback or discard, or an install for
      the same peer that replaces it. */
  predicate Unmaps(e: End, ev: Ev, t: Sid)
    requires CanHappen(e, ev) && Mapped(e, t)
  {
    || ev == Callback(t)
    || (ev == Proceed(t) && e.sessions[t].phase.DiscardingQuiet?)
    || (&& ev.Install? && e.sessions[ev.s].info.peer == e.sessions[t].info.peer
        && InstallVerdict(Some(e.sessions[t].info), e.sessions[ev.s].info).Replaced?)
  }

  /** Only a discard's removal touches the map while a goroutine proceeds. */
  lemma ProceedUnmaps(e: End, s: Sid, t: Sid)
    requires s in e.sessions && Mapped(e, t)
    ensures Mapped(ProceedStep(e, s), t) <==> !(s == t && e.sessions[s].phase.DiscardingQuiet?)
  {
    ProceedKeepsOwners(e, s);
    var e' := ProceedStep(e, s);
    assert e.sessions[t].info.peer == e'.sessions[t].info.peer;
    if e.sessions[s].phase.DiscardingQuiet? {
      assert e'.roster == RemoveIfCurrent(e, s).roster;
    } else {
      assert e'.roster == e.roster;
    }
  }

  lemma InstallUnmaps(e: End, s: Sid, t: Sid)
    requires Sound(e) && CanHappen(e, Install(s)) && Mapped(e, t)
    ensures Mapped(InstallStep(e, s), t) <==> !Unmaps(e, Install(s), t)
  {
    assert MappedOk(e, e.sessions[t].info.peer);
  }

  /** Nothing else does; in particular no callback or discard of another session. */
  lemma OnlyOwnEntryIsRemoved(e: End, ev: Ev, t: Sid)
    requires Sound(e) && CanHappen(e, ev) && Mapped(e, t)
    ensures Mapped(EndStep(e, ev), t) <==> !Unmaps(e, ev, t)
  {
    match ev
    case Install(s) => InstallUnmaps(e, s, t);
    case Proceed(s) => ProceedUnmaps(e, s, t);
    case _ =>
  }

  // ---------------------------------------------------------------- A lone connection

  /** s is the only session this end has with its peer. */
  predicate Lone(e: End, s: Sid) {
    s in e.sessions && forall t | t in e.sessions && e.sessions[t].info.peer == e.sessions[s].info.peer :: t == s
  }

  /** Not yet installed, or in the map and being looked after. */
  predicate Kept(e: End, s: Sid) {
    s in e.sessions && Healthy(e.sessions[s].info) && (e.sessions[s].phase.Fresh? || Holds(e, s))
  }

  lemma InstallingLoneSucceeds(e: End, s: Sid)
    requires Sound(e) && CanHappen(e, Install(s)) && Lone(e, s) && Kept(e, s) && e.sessions[s].info.peer != ""
    ensures Kept(InstallStep(e, s), s) && Holds(InstallStep(e, s), s)
  {
    assert e.sessions[s].info.peer in e.roster ==> MappedOk(e, e.sessions[s].info.peer);
  }

  lemma OthersKeepFresh(e: End, ev: Ev, s: Sid)
    requires Sound(e) && CanHappen(e, ev)
    requires s in e.sessions && e.sessions[s].phase.Fresh? && !Harms(ev, s) && ev != Install(s)
    ensures EndStep(e, ev).sessions[s].phase.Fresh? && EndStep(e, ev).sessions[s].info == e.sessions[s].info
  {
    if ev.Proceed? && (e.sessions[ev.s].phase.Displacing? || e.sessions[ev.s].phase.DisplacingQuiet?) {
      assert Owes(e, ev.s, e.sessions[ev.s].phase.prev);
    }
  }

  lemma OthersKeepLone(e: End, ev: Ev, s: Sid)
    requires Sound(e) && CanHappen(e, ev) && Lone(e, s) && Holds(e, s) && !Harms(ev, s)
    ensures Holds(EndStep(e, ev), s)
  {
    match ev
    case Proceed(t) => ProceedKeepsPreferred(e, t, s);
    case Install(t) => assert t != s;
    case _ =>
  }

  lemma StepKeepsLone(e: End, ev: Ev, s: Sid)
    requires Sound(e) && CanHappen(e, ev) && Lone(e, s) && Kept(e, s) && !Harms(ev, s) && e.sessions[s].info.peer != ""
    ensures Kept(EndStep(e, ev), s)
    ensures ev == Install(s) ==> Holds(EndStep(e, ev), s)
  {
    if ev == Install(s) {
      InstallingLoneSucceeds(e, s);
    } else if e.sessions[s].phase.Fresh? {
      OthersKeepFresh(e, ev, s);
    } else {
      OthersKeepLone(e, ev, s);
    }
  }

  /** What was a session of some peer stays one, so a session that is alone has always been. */
  lemma AloneBefore(e: End, ev: Ev, s: Sid)
    requires CanHappen(e, ev) && s in e.sessions && Lone(EndStep(e, ev), s)
    ensures Lone(e, s) && EndStep(e, ev).sessions[s].info.peer == e.sessions[s].info.peer
  {
    SameSessions(e, ev);
    var e' := EndStep(e, ev);
    assert e'.sessions[s].info.peer == e.sessions[s].info.peer;
    forall t | t in e.sessions && e.sessions[t].info.peer == e.sessions[s].info.peer ensures t == s {
      assert e'.sessions[t].info.peer == e.sessions[t].info.peer;
    }
  }

  lemma {:induction false} NotInstalledBefore(states: seq<End>, events: seq<Ev>, i: nat, s: Sid)
    requires IsEndRun(states, events) && i < |states| && s !in states[i].sessions
    ensures Install(s) !in events[..i]
    decreases i
  {
    if i == 0 {
    } else {
      var e, ev := states[i - 1], events[i - 1];
      SameSessions(e, ev);
      assert events[..i] == events[..i - 1] + [ev];
      assert ev != Install(s);
      assert s !in e.sessions;
      NotInstalledBefore(states, events, i - 1, s);
    }
  }

  lemma ActKeepsPhases(e: End, a: Action, s: Sid)
    requires s in e.sessions
    ensures s in Act(e, a).sessions && Act(e, a).sessions[s].phase == e.sessions[s].phase
  {
  }

  lemma NeverFreshAgain(e: End, ev: Ev, s: Sid)
    requires CanHappen(e, ev) && s in e.sessions
    ensures s in EndStep(e, ev).sessions
    ensures !e.sessions[s].phase.Fresh? || ev == Install(s) ==> !EndStep(e, ev).sessions[s].phase.Fresh?
  {
    match ev
    case Proceed(t) =>
      ProceedIsAction(e, t);
      ActKeepsPhases(e, ActionOf(e.sessions[t].phase, t), s);
    case _ =>
  }

  /** Nothing takes a session back to where it was before its install. */
  lemma {:induction false} InstalledIsNotFresh(states: seq<End>, events: seq<Ev>, i: nat, s: Sid)
    requires IsEndRun(states, events) && i < |states| && s in states[i].sessions
    ensures Install(s) in events[..i] ==> !states[i].sessions[s].phase.Fresh?
    decreases i
  {
    if i == 0 {
    } else {
      var e, ev := states[i - 1], events[i - 1];
      SameSessions(e, ev);
      assert events[..i] == events[..i - 1] + [ev];
      if s in e.sessions {
        InstalledIsNotFresh(states, events, i - 1, s);
        NeverFreshAgain(e, ev, s);
      } else {
        NotInstalledBefore(states, events, i - 1, s);
      }
    }
  }

  /** A connection that is the only one with its peer and does not fail is in the map from its
      install on, over every run and whichever side dialed it. */
  lemma {:induction false} LoneConnectionIsKept(states: seq<End>, events: seq<Ev>, i: nat, s: Sid)
    requires IsEndRun(states, events) && states[0] == NewEnd(states[0].me) && i < |states|
    requires Lone(states[i], s)
    requires forall k | 0 <= k < i :: !Harms(events[k], s)
    ensures Kept(states[i], s) && states[i].sessions[s].info.peer != ""
    ensures Install(s) in events[..i] ==> Mapped(states[i], s) && Healthy(states[i].sessions[s].info)
  {
    if i == 0 {
    } else {
      var e, ev := states[i - 1], events[i - 1];
      RosterIsSound(states, events, i - 1);
      assert events[..i] == events[..i - 1] + [ev];
      if s in e.sessions {
        AloneBefore(e, ev, s);
        LoneConnectionIsKept(states, events, i - 1, s);
        StepKeepsLone(e, ev, s);
        InstalledIsNotFresh(states, events, i, s);
      } else {
        NotInstalledBefore(states, events, i - 1, s);
      }
    }
  }

  // ---------------------------------------------------------------- A failed connection makes room

  /** Once its session has failed, a peer's entry goes to the next session that is installed. */
  lemma FailedIsReplaced(e: End, s: Sid, t: Sid, sick: bool)
    requires Sound(e) && s in e.sessions && Mapped(e, s)
    requires t in e.sessions && e.sessions[t].phase.Fresh? && e.sessions[t].info.peer == e.sessions[s].info.peer != ""
    ensures var failed := EndStep(e, if sick then Sicken(s) else CloseAny(s));
            CanHappen(failed, Install(t)) && Mapped(EndStep(failed, Install(t)), t)
  {
    assert MappedOk(e, e.sessions[s].info.peer);
  }
}
