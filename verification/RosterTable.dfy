/** The roster object: the map of peers to their one session. */
module RosterTable {
  import opened Bytes
  import opened Rosters
  import opened Sessions

  ghost predicate Consistent(s: Session)
    reads s
  {
    s.closed <==> !s.once.Unused?
  }

  class Roster {
    var sessions: map<NodeId, Session>

    constructor ()
      ensures sessions == map[]
    {
      sessions := map[];
    }

    /** Every session is stored under its peer, and close flags agree with Close's progress. */
    ghost predicate Valid()
      reads this, sessions.Values
    {
      forall id | id in sessions :: sessions[id].nodeID == id && Consistent(sessions[id])
    }

    ghost function InfoAt(id: NodeId): Option<Info>
      reads this, sessions.Values
    {
      if id in sessions then Some(sessions[id].Info()) else None
    }

    method Get(nodeID: NodeId) returns (s: Session?)
      ensures s == if nodeID in sessions && !sessions[nodeID].closed then sessions[nodeID] else null
    {
      if nodeID !in sessions || sessions[nodeID].closed {
        return null;
      }
      return sessions[nodeID];
    }

    method Install(sess: Session) returns (verdict: Verdict, prev: Session?)
      modifies `sessions
      ensures verdict == InstallVerdict(old(InfoAt(sess.nodeID)), sess.Info())
      ensures sessions == if verdict.Rejected? then old(sessions) else old(sessions)[sess.nodeID := sess]
      ensures prev == if verdict.Replaced? then old(sessions)[sess.nodeID] else null
    {
      if sess.nodeID == "" {
        return Rejected, null;
      }
      var id := sess.nodeID;
      if id !in sessions {
        sessions := sessions[id := sess];
        return Accepted, null;
      }
      var cur := sessions[id];
      if cur.closed || !Healthy(cur.Info()) || PreferNew(sess.Info(), cur.Info()) {
        sessions := sessions[id := sess];
        return Replaced, cur;
      }
      return Rejected, null;
    }

    method RemoveIfCurrent(sess: Session) returns (removed: bool)
      modifies `sessions
      ensures removed <==> sess.nodeID in old(sessions) && old(sessions)[sess.nodeID] == sess
      ensures sessions == if removed then old(sessions) - {sess.nodeID} else old(sessions)
    {
      if sess.nodeID in sessions && sessions[sess.nodeID] == sess {
        sessions := sessions - {sess.nodeID};
        return true;
      }
      return false;
    }

    method Discard(sess: Session)
      requires Valid() && Consistent(sess)
      modifies this, sess
      ensures Valid() && sess.closed && sess !in sessions.Values
      ensures sessions == if sess.nodeID in old(sessions) && old(sessions)[sess.nodeID] == sess
                          then old(sessions) - {sess.nodeID} else old(sessions)
    {
      sess.SetOnClose(false);
      var removed := RemoveIfCurrent(sess);
      sess.BeginClose();
    }

    /** The manager's install, with at most a shutdown and the session's own death going on beside
        it: it succeeds exactly if Install takes an open session and neither happens. On success the
        session is its peer's open entry and whatever it displaced is closed; on failure it is closed
        and not in the map, which is as it was apart from a session it displaced. */
    method InstallAndActivate(sess: Session, shuttingDown: bool, diesAtOnce: bool) returns (ok: bool)
      requires Valid() && Consistent(sess) && sess !in sessions.Values
      modifies this, sess, sessions.Values
      ensures Valid()
      ensures ok <==> && !InstallVerdict(old(InfoAt(sess.nodeID)), old(sess.Info())).Rejected?
                      && !old(sess.closed) && !shuttingDown && !diesAtOnce
      ensures ok ==> sess.nodeID in sessions && sessions[sess.nodeID] == sess && !sess.closed
      ensures !ok ==> sess.closed && sess !in sessions.Values
      ensures forall id | id in old(sessions) ::
                if id in sessions && sessions[id] == old(sessions)[id]
                then old(sessions)[id].Info() == old(sessions[id].Info())
                else id == sess.nodeID && old(sessions)[id].closed
      ensures forall id | id in sessions && id != sess.nodeID :: id in old(sessions)
    {
      var verdict, prev := Install(sess);
      if verdict.Rejected? {
        sess.SetOnClose(false);
        sess.BeginClose();
        return false;
      }
      if prev != null {
        prev.SetOnClose(false);
        prev.BeginClose();
      }
      ok := ActivateIfCurrent(sess, shuttingDown, diesAtOnce);
    }

    /** Checks before and after the serve loop starts; the loop may close the session at once. */
    method ActivateIfCurrent(sess: Session, shuttingDown: bool, diesAtOnce: bool) returns (ok: bool)
      requires Valid() && Consistent(sess)
      modifies this, sess
      ensures Valid()
      ensures ok <==> && sess.nodeID in old(sessions) && old(sessions)[sess.nodeID] == sess
                      && !old(sess.closed) && !shuttingDown && !diesAtOnce
      ensures ok ==> sessions == old(sessions) && !sess.closed
      ensures !ok ==> sess.closed && sess !in sessions.Values
      ensures !ok ==> sessions == if sess.nodeID in old(sessions) && old(sessions)[sess.nodeID] == sess
                                  then old(sessions) - {sess.nodeID} else old(sessions)
    {
      var cur := Get(sess.nodeID);
      if cur != sess || shuttingDown {
        Discard(sess);
        return false;
      }
      if diesAtOnce {
        sess.BeginClose();
      }
      cur := Get(sess.nodeID);
      if cur != sess {
        Discard(sess);
        return false;
      }
      return true;
    }
  }
}
