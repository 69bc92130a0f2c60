/** Two nodes dial each other at the same time. Connection X is dialed by the node with the
    smaller ID, Y by the other; each end has a session for each, and the ends run freely. */
module SimultaneousDial {
  import opened Lww
  import opened Rosters
  import opened RosterRuns

  const X: Sid := 0
  const Y: Sid := 1

  datatype Pair = Pair(small: End, large: End)

  datatype PairEv = AtSmall(ev: Ev) | AtLarge(ev: Ev)

  /** One end only ever has sessions for X and Y, and X itself never fails. */
  predicate Allowed(ev: Ev, peer: NodeId, dialsX: bool) {
    && (ev.s == X || ev.s == Y)
    && (ev.Create? ==> ev.peer == peer && ev.dialer == (if ev.s == X then dialsX else !dialsX))
    && !Harms(ev, X)
  }

  predicate PairCanHappen(p: Pair, ev: PairEv) {
    match ev
    case AtSmall(e) => CanHappen(p.small, e) && Allowed(e, p.large.me, true)
    case AtLarge(e) => CanHappen(p.large, e) && Allowed(e, p.small.me, false)
  }

  function PairStep(p: Pair, ev: PairEv): Pair
    requires PairCanHappen(p, ev)
  {
    match ev
    case AtSmall(e) => p.(small := EndStep(p.small, e))
    case AtLarge(e) => p.(large := EndStep(p.large, e))
  }

  ghost predicate IsPairRun(states: seq<Pair>, events: seq<PairEv>) {
    && |states| == |events| + 1
    && forall i {:trigger events[i]} | 0 <= i < |events| ::
         PairCanHappen(states[i], events[i]) && states[i + 1] == PairStep(states[i], events[i])
  }

  /** The end's sessions are the two it should have, and X is in the map from its install on. */
  predicate XIsKept(e: End, peer: NodeId, dialsX: bool) {
    && (forall s | s in e.sessions ::
          && (s == X || s == Y)
          && e.sessions[s].info.local == e.me && e.sessions[s].info.peer == peer
          && e.sessions[s].info.dialer == (if s == X then dialsX else !dialsX))
    && (X in e.sessions ==>
          && Healthy(e.sessions[X].info)
          && (e.sessions[X].phase.Fresh? || Holds(e, X)))
  }

  /** X's dialer is the preferred one at either end, and Y's is not. */
  predicate PrefersX(me: NodeId, peer: NodeId, dialsX: bool) {
    && me != "" && peer != "" && me != peer
    && PreferredDialer(me, peer) == (if dialsX then me else peer)
  }

  lemma InstallingXSucceeds(e: End, peer: NodeId, dialsX: bool)
    requires Sound(e) && XIsKept(e, peer, dialsX) && PrefersX(e.me, peer, dialsX)
    requires CanHappen(e, Install(X))
    ensures XIsKept(InstallStep(e, X), peer, dialsX)
  {
    assert peer in e.roster ==> MappedOk(e, peer);
  }

  lemma EndKeepsX(e: End, ev: Ev, peer: NodeId, dialsX: bool)
    requires Sound(e) && XIsKept(e, peer, dialsX) && PrefersX(e.me, peer, dialsX)
    requires CanHappen(e, ev) && Allowed(ev, peer, dialsX)
    ensures XIsKept(EndStep(e, ev), peer, dialsX)
  {
    if ev == Install(X) {
      InstallingXSucceeds(e, peer, dialsX);
    } else {
      SameSessions(e, ev);
      if X in e.sessions && Holds(e, X) {
        StepKeepsPreferred(e, ev, X);
      } else if X in e.sessions {
        OthersKeepFresh(e, ev, X);
      }
    }
  }

  // ---------------------------------------------------------------- Both ends

  lemma {:induction false} BothKeepX(states: seq<Pair>, events: seq<PairEv>, i: nat)
    requires IsPairRun(states, events) && i < |states|
    requires states[0] == Pair(NewEnd(states[0].small.me), NewEnd(states[0].large.me))
    requires states[0].small.me != "" && StringBelow(states[0].small.me, states[0].large.me)
    ensures var p := states[i];
            && p.small.me == states[0].small.me && p.large.me == states[0].large.me
            && Sound(p.small) && Sound(p.large)
            && PrefersX(p.small.me, p.large.me, true) && PrefersX(p.large.me, p.small.me, false)
            && XIsKept(p.small, p.large.me, true) && XIsKept(p.large, p.small.me, false)
  {
    CompareStringsMeans(states[0].small.me, states[0].large.me);
    CompareStringsMeans(states[0].large.me, states[0].small.me);
    if i == 0 {
    } else {
      BothKeepX(states, events, i - 1);
      var p, ev := states[i - 1], events[i - 1];
      match ev
      case AtSmall(e) =>
        StepKeepsSound(p.small, e);
        SameSessions(p.small, e);
        EndKeepsX(p.small, e, p.large.me, true);
      case AtLarge(e) =>
        StepKeepsSound(p.large, e);
        SameSessions(p.large, e);
        EndKeepsX(p.large, e, p.small.me, false);
    }
  }

  /** Whatever order the two ends run in: X's handshake is never refused, X is each end's map
      entry from its install on, Y is refused where X is held, and once both ends are quiet with
      X installed, Y is closed at both. */
  lemma SmallerIdWins(states: seq<Pair>, events: seq<PairEv>, i: nat)
    requires IsPairRun(states, events) && i < |states|
    requires states[0] == Pair(NewEnd(states[0].small.me), NewEnd(states[0].large.me))
    requires states[0].small.me != "" && StringBelow(states[0].small.me, states[0].large.me)
    ensures var a, b := states[i].small, states[i].large;
            && DecideInbound(b.me, a.me, CurrentInfo(b, a.me))
            && (X in a.sessions && !a.sessions[X].phase.Fresh? ==>
                  Mapped(a, X) && Healthy(a.sessions[X].info) && !DecideInbound(a.me, b.me, CurrentInfo(a, b.me)))
            && (X in b.sessions && !b.sessions[X].phase.Fresh? ==> Mapped(b, X) && Healthy(b.sessions[X].info))
            && (X in a.sessions && X in b.sessions && Quiet(a) && Quiet(b) ==> !Open(a, Y) && !Open(b, Y))
  {
    BothKeepX(states, events, i);
    var a, b := states[i].small, states[i].large;
    if X in a.sessions && X in b.sessions && Quiet(a) && Quiet(b) {
      assert Y in a.sessions ==> AccountedFor(a, Y);
      assert Y in b.sessions ==> AccountedFor(b, Y);
    }
  }
}
