/** Which of two connections to the same peer survives. */
module Rosters {
  import opened Bytes
  import opened Lww

  type NodeId = string

  /** What the roster looks at in a session. */
  datatype Info = Info(peer: NodeId, local: NodeId, dialer: bool, healthy: bool, closed: bool)

  predicate Healthy(s: Info) {
    s.healthy && !s.closed
  }

  /** The lexicographically smaller of the two node IDs. */
  function PreferredDialer(localID: NodeId, remoteID: NodeId): NodeId {
    if CompareStrings(remoteID, localID) < 0 then remoteID else localID
  }

  /** Both ends name the same side, and it is the smaller one. */
  lemma PreferredIsSmaller(a: NodeId, b: NodeId)
    ensures PreferredDialer(a, b) == PreferredDialer(b, a)
    ensures a != b ==> StringBelow(PreferredDialer(a, b), if PreferredDialer(a, b) == a then b else a)
  {
    CompareStringsMeans(a, b);
    CompareStringsMeans(b, a);
  }

  function DialerOf(s: Info): NodeId {
    if s.dialer then s.local else s.peer
  }

  predicate PreferNew(new_: Info, cur: Info) {
    && new_.local != "" && new_.peer != ""
    && DialerOf(new_) == PreferredDialer(new_.local, new_.peer)
    && DialerOf(cur) != PreferredDialer(new_.local, new_.peer)
  }

  datatype Verdict = Accepted | Replaced | Rejected

  function InstallVerdict(cur: Option<Info>, new_: Info): Verdict {
    if new_.peer == "" then Rejected
    else if cur.None? then Accepted
    else if cur.value.closed then Replaced
    else if !Healthy(cur.value) then Replaced
    else if PreferNew(new_, cur.value) then Replaced
    else Rejected
  }

  /** The advisory check on an inbound handshake. */
  function DecideInbound(me: NodeId, remote: NodeId, cur: Option<Info>): bool {
    cur.None? || cur.value.closed || !Healthy(cur.value) || PreferredDialer(me, remote) == remote
  }

  // ---------------------------------------------------------------- What the verdicts mean

  function OtherThanDialer(s: Info): NodeId {
    if s.dialer then s.peer else s.local
  }

  predicate DialedBySmaller(s: Info) {
    CompareStrings(DialerOf(s), OtherThanDialer(s)) < 0
  }

  predicate DialedByLarger(s: Info) {
    CompareStrings(OtherThanDialer(s), DialerOf(s)) < 0
  }

  /** A first session is accepted, whoever dialed it. A session with a peer is refused exactly when
      the peer's entry is open and healthy, unless the smaller ID dialed the new session and the
      larger the present one. Every other session takes the place of the entry. */
  lemma InstallVerdictMeans(cur: Option<Info>, new_: Info)
    requires cur.Some? ==> cur.value.local == new_.local && cur.value.peer == new_.peer
    requires new_.local != "" && new_.peer != ""
    ensures InstallVerdict(cur, new_).Accepted? <==> cur.None?
    ensures InstallVerdict(cur, new_).Rejected? <==>
              cur.Some? && cur.value.healthy && !cur.value.closed && !(DialedBySmaller(new_) && DialedByLarger(cur.value))
  {
    CompareStringsMeans(new_.local, new_.peer);
    CompareStringsMeans(new_.peer, new_.local);
    StringBelowIsStrict(new_.local, new_.peer, new_.local);
  }

  /** The two predicates in terms of the string order. */
  lemma DialedMeans(s: Info)
    ensures var d, o := if s.dialer then s.local else s.peer, if s.dialer then s.peer else s.local;
            && (DialedBySmaller(s) <==> StringBelow(d, o))
            && (DialedByLarger(s) <==> StringBelow(o, d))
  {
    CompareStringsMeans(DialerOf(s), OtherThanDialer(s));
    CompareStringsMeans(OtherThanDialer(s), DialerOf(s));
  }

  /** An inbound handshake goes on exactly if there is no open and healthy session yet or the
      remote ID is not the larger one. */
  lemma DecideInboundMeans(me: NodeId, remote: NodeId, cur: Option<Info>)
    ensures DecideInbound(me, remote, cur) <==>
              !(cur.Some? && cur.value.healthy && !cur.value.closed) || !StringBelow(me, remote)
  {
    CompareStringsMeans(remote, me);
    StringBelowIsStrict(me, remote, me);
  }
}
