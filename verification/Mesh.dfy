/** Any number of nodes that announce entries to each other over an unreliable, reordering,
    duplicating network. Each node is charged with the set of entries that have reached it. */
module Mesh {
  import opened Bytes
  import opened Lww
  import opened Replica
  import opened ReplicaSteps
  import opened Nodes

  type Id = string

  /** An announced entry, with the entries its sender had combined into it. */
  datatype Msg = Msg(entry: Entry, support: set<Entry>)

  datatype Mesh = Mesh(nodes: map<Id, Node>, known: map<Id, set<Entry>>, sent: set<Msg>)

  datatype MeshEvent =
    | Local(id: Id, ev: Event)
    | Announce(id: Id, path: Path)
    | Deliver(id: Id, msg: Msg)
    | Complete(id: Id, msg: Msg, useDelta: bool, replies: Replies, now: Time)

  function About(es: set<Entry>, p: Path): set<Entry> {
    set e | e in es && e.path == p
  }

  // ---------------------------------------------------------------- Which entries have reached a node

  /** The node has dealt with re without a transfer: it covers re, or nothing unscanned made it
      hold back. */
  predicate Handled(s: Slot, re: Entry) {
    && (re.deleted || re.hash != "")
    && match Decide(s, re)
       case Noop => true
       case Tombstone => true
       case DeleteLive => !Unsynced(s)
       case MetaOnly => !Unsynced(s)
       case Content(_) => false
  }

  predicate CommitHandled(s: Slot, re: Entry) {
    (s.entry.Some? && !Wins(s.entry.value, re)) || !Unsynced(s)
  }

  /** What a scan adds to the entries a node knows. */
  function Discovered(sha: Sha, n: Node, now: Time): set<Entry> {
    set p | p in n.index.Keys + n.disk.Keys && ScanChange(sha, At(n, p), p, now).Some?
      :: ScanChange(sha, At(n, p), p, now).value
  }

  function MeshStep(sha: Sha, m: Mesh, ev: MeshEvent): Mesh
    requires MeshEnabled(m, ev)
  {
    var n := m.nodes[ev.id];
    match ev
    case Local(id, e) =>
      m.(nodes := m.nodes[id := Step(sha, n, e)],
         known := if e.Rescan? then m.known[id := m.known[id] + Discovered(sha, n, e.now)] else m.known)
    case Announce(id, p) =>
      m.(sent := m.sent + {Msg(n.index[p], About(m.known[id], p))})
    case Deliver(id, msg) =>
      m.(nodes := m.nodes[id := Step(sha, n, Hear(msg.entry))],
         known := if Handled(At(n, msg.entry.path), msg.entry) then m.known[id := m.known[id] + msg.support] else m.known)
    case Complete(id, msg, useDelta, r, now) =>
      m.(nodes := m.nodes[id := Step(sha, n, Fetch(msg.entry, useDelta, r, now))],
         known := if PullAndVerify(sha, msg.entry.hash, useDelta, r).Ok? && CommitHandled(At(n, msg.entry.path), msg.entry)
                  then m.known[id := m.known[id] + msg.support] else m.known)
  }

  /** Files have a time and some permission; nothing collects tombstones. */
  predicate MeshEnabled(m: Mesh, ev: MeshEvent) {
    && ev.id in m.nodes && ev.id in m.known
    && match ev
       case Local(id, e) =>
         && Enabled(m.nodes[id], e)
         && (e.Write? || e.Remove? || (e.Rescan? && e.ttl <= 0))
         && (e.Write? ==> GoodFile(e.file))
       case Announce(id, p) => p in m.nodes[id].index
       case Deliver(_, msg) => msg in m.sent
       case Complete(_, msg, _, _, now) => msg in m.sent && !msg.entry.deleted && ZERO_TIME < now
  }

  // ---------------------------------------------------------------- The invariant

  predicate GoodFile(f: File) {
    f.mtime != ZERO_TIME && f.perm != 0
  }

  /** A well-formed entry: plain non-zero mode, known times. */
  predicate GoodEntry(e: Entry) {
    0 < e.mode < 512 && e.modTime != ZERO_TIME && e.updatedAt != ZERO_TIME
  }

  predicate GoodSlot(s: Slot, p: Path) {
    && (s.entry.Some? ==> s.entry.value.path == p && GoodEntry(s.entry.value))
    && (s.file.Some? ==> GoodFile(s.file.value))
  }

  /** e stands for the set: it has the key of one of them, which is as late as any, to the second. */
  ghost predicate Reflects(e: Option<Entry>, es: set<Entry>) {
    && (e.None? <==> es == {})
    && (e.Some? ==>
          && (exists k :: k in es && KeyOf(k) == KeyOf(e.value))
          && (forall k | k in es :: AtMost(CoarseKey(k), CoarseKey(e.value))))
  }

  ghost predicate GoodNode(n: Node, known: set<Entry>) {
    forall p :: GoodSlot(At(n, p), p) && Reflects(At(n, p).entry, About(known, p))
  }

  ghost predicate GoodMsg(msg: Msg) {
    && GoodEntry(msg.entry)
    && Reflects(Some(msg.entry), msg.support)
    && forall k | k in msg.support :: k.path == msg.entry.path
  }

  ghost predicate GoodMesh(sha: Sha, m: Mesh) {
    && m.nodes.Keys == m.known.Keys
    && (forall id | id in m.nodes :: GoodNode(m.nodes[id], m.known[id]) && AllCachesAgree(sha, m.nodes[id]))
    && (forall msg | msg in m.sent :: GoodMsg(msg))
  }

  // ---------------------------------------------------------------- Steps on one path

  /** after is before or has the key of re, whichever is later, to the second. */
  ghost predicate Merges(before: Option<Entry>, re: Entry, after: Option<Entry>) {
    && after.Some?
    && AtMost(CoarseKey(re), CoarseKey(after.value))
    && (before.Some? ==> AtMost(CoarseKey(before.value), CoarseKey(after.value)))
    && (KeyOf(after.value) == KeyOf(re) || after == before)
  }

  lemma MergeReflects(before: Option<Entry>, es: set<Entry>, re: Entry, support: set<Entry>, after: Option<Entry>)
    requires Reflects(before, es) && Reflects(Some(re), support)
    requires Merges(before, re, after)
    ensures Reflects(after, es + support)
  {
    forall k | k in es + support ensures AtMost(CoarseKey(k), CoarseKey(after.value)) {
      if k in es {
        AtMostTransitive(CoarseKey(k), CoarseKey(before.value), CoarseKey(after.value));
      } else {
        AtMostTransitive(CoarseKey(k), CoarseKey(re), CoarseKey(after.value));
      }
    }
    if after == before {
      var k :| k in es && KeyOf(k) == KeyOf(before.value);
      assert k in es + support;
    } else {
      var k :| k in support && KeyOf(k) == KeyOf(re);
      assert k in es + support;
    }
  }

  /** The later of two entries, by the full order, is the later one to the second. */
  lemma LaterMerges(cur: Entry, re: Entry)
    ensures Merges(Some(cur), re, Some(if Wins(cur, re) then re else cur))
  {
    WinsIsBelow(cur, re);
    LosesIsAtMost(cur, re);
    if Wins(cur, re) {
      CoarseIsMonotone(cur, re);
    } else {
      CoarseIsMonotone(re, cur);
    }
  }

  lemma ReceiveMerges(s: Slot, re: Entry)
    requires GoodEntry(re) && Handled(s, re)
    ensures Merges(s.entry, re, Receive(s, re).entry)
  {
    if s.entry.Some? {
      LaterMerges(s.entry.value, re);
    }
  }

  lemma CommitMerges(s: Slot, re: Entry, data: seq<Byte>, now: Time)
    requires GoodEntry(re) && !re.deleted && ZERO_TIME < now
    requires CommitHandled(s, re)
    ensures Merges(s.entry, re, CommitContent(s, re, data, re.hash, now).entry)
  {
    if s.entry.Some? {
      LaterMerges(s.entry.value, re);
    }
  }

  lemma ChangeReflects(sha: Sha, s: Slot, p: Path, es: set<Entry>, now: Time)
    requires Reflects(s.entry, es) && ZERO_TIME < now
    requires ScanChange(sha, s, p, now).Some?
    ensures Reflects(ScanApply(sha, s, p, now).entry, es + {ScanChange(sha, s, p, now).value})
  {
    var c := ScanChange(sha, s, p, now).value;
    ScanChangeWins(sha, s, p, now);
    assert c in es + {c};
    forall k | k in es ensures AtMost(CoarseKey(k), CoarseKey(c)) {
      assert Below(CoarseKey(s.entry.value), CoarseKey(c));
      AtMostTransitive(CoarseKey(k), CoarseKey(s.entry.value), CoarseKey(c));
    }
  }

  // ---------------------------------------------------------------- Steps on one node

  lemma AboutSupport(es: set<Entry>, msg: Msg, p: Path)
    requires GoodMsg(msg)
    ensures About(es + msg.support, p) == About(es, p) + (if p == msg.entry.path then msg.support else {})
  {
  }

  lemma ReceiveKeepsSlot(s: Slot, re: Entry)
    requires GoodSlot(s, re.path) && GoodEntry(re)
    ensures GoodSlot(Receive(s, re), re.path)
    ensures !Handled(s, re) ==> Receive(s, re).entry == s.entry
  {
  }

  lemma DeliverKeepsGood(sha: Sha, n: Node, known: set<Entry>, msg: Msg)
    requires GoodNode(n, known) && GoodMsg(msg)
    ensures GoodNode(Step(sha, n, Hear(msg.entry)),
                     if Handled(At(n, msg.entry.path), msg.entry) then known + msg.support else known)
  {
    var re := msg.entry;
    var knows := if Handled(At(n, re.path), re) then known + msg.support else known;
    forall p
      ensures GoodSlot(At(Step(sha, n, Hear(re)), p), p) && Reflects(At(Step(sha, n, Hear(re)), p).entry, About(knows, p))
    {
      StepAt(sha, n, Hear(re), p);
      AboutSupport(known, msg, p);
      assert GoodSlot(At(n, p), p);
      if p == re.path {
        ReceiveKeepsSlot(At(n, p), re);
        if Handled(At(n, p), re) {
          ReceiveMerges(At(n, p), re);
          MergeReflects(At(n, p).entry, About(known, p), re, msg.support, Receive(At(n, p), re).entry);
        }
      }
    }
  }

  lemma CompleteKeepsGood(sha: Sha, n: Node, known: set<Entry>, msg: Msg, useDelta: bool, r: Replies, now: Time)
    requires GoodNode(n, known) && GoodMsg(msg) && !msg.entry.deleted && ZERO_TIME < now
    ensures GoodNode(Step(sha, n, Fetch(msg.entry, useDelta, r, now)),
                     if PullAndVerify(sha, msg.entry.hash, useDelta, r).Ok? && CommitHandled(At(n, msg.entry.path), msg.entry)
                     then known + msg.support else known)
  {
    var re := msg.entry;
    var got := PullAndVerify(sha, re.hash, useDelta, r);
    var handled := got.Ok? && CommitHandled(At(n, re.path), re);
    forall p
      ensures var s := At(Step(sha, n, Fetch(re, useDelta, r, now)), p);
              GoodSlot(s, p) && Reflects(s.entry, About(if handled then known + msg.support else known, p))
    {
      StepAt(sha, n, Fetch(re, useDelta, r, now), p);
      AboutSupport(known, msg, p);
      assert GoodSlot(At(n, p), p);
      if p == re.path && handled {
        CommitMerges(At(n, p), re, got.value, now);
        MergeReflects(At(n, p).entry, About(known, p), re, msg.support,
                      CommitContent(At(n, p), re, got.value, re.hash, now).entry);
      }
    }
  }

  lemma ChangePath(sha: Sha, s: Slot, p: Path, now: Time)
    requires GoodSlot(s, p) && ScanChange(sha, s, p, now).Some?
    ensures ScanChange(sha, s, p, now).value.path == p
  {
  }

  lemma AboutDiscovered(sha: Sha, n: Node, known: set<Entry>, now: Time, p: Path)
    requires GoodNode(n, known)
    ensures var c := ScanChange(sha, At(n, p), p, now);
            About(known + Discovered(sha, n, now), p) == About(known, p) + (if c.Some? then {c.value} else {})
  {
    forall e | e in Discovered(sha, n, now) && e.path == p ensures ScanChange(sha, At(n, p), p, now) == Some(e) {
      var q :| q in n.index.Keys + n.disk.Keys && ScanChange(sha, At(n, q), q, now) == Some(e);
      ChangePath(sha, At(n, q), q, now);
    }
    var c := ScanChange(sha, At(n, p), p, now);
    if c.Some? {
      ChangePath(sha, At(n, p), p, now);
      assert p in n.index.Keys + n.disk.Keys;
    }
  }

  lemma ScanKeepsSlot(sha: Sha, s: Slot, p: Path, es: set<Entry>, now: Time)
    requires GoodSlot(s, p) && Reflects(s.entry, es) && ZERO_TIME < now
    ensures var c := ScanChange(sha, s, p, now);
            && GoodSlot(ScanApply(sha, s, p, now), p)
            && Reflects(ScanApply(sha, s, p, now).entry, es + if c.Some? then {c.value} else {})
  {
    if ScanChange(sha, s, p, now).Some? {
      ChangeReflects(sha, s, p, es, now);
    } else {
      assert es + {} == es;
    }
  }

  lemma RescanKeepsGood(sha: Sha, n: Node, known: set<Entry>, now: Time, gcNow: Time, ttl: int)
    requires GoodNode(n, known) && ZERO_TIME < now && ttl <= 0
    ensures GoodNode(Step(sha, n, Rescan(now, gcNow, ttl)), known + Discovered(sha, n, now))
  {
    forall p
      ensures var s := At(Step(sha, n, Rescan(now, gcNow, ttl)), p);
              GoodSlot(s, p) && Reflects(s.entry, About(known + Discovered(sha, n, now), p))
    {
      StepAt(sha, n, Rescan(now, gcNow, ttl), p);
      AboutDiscovered(sha, n, known, now, p);
      ScanKeepsSlot(sha, At(n, p), p, About(known, p), now);
    }
  }

  lemma EditKeepsGood(sha: Sha, n: Node, known: set<Entry>, ev: Event)
    requires GoodNode(n, known)
    requires (ev.Write? && GoodFile(ev.file)) || ev.Remove?
    ensures GoodNode(Step(sha, n, ev), known)
  {
    forall p ensures GoodSlot(At(Step(sha, n, ev), p), p) && Reflects(At(Step(sha, n, ev), p).entry, About(known, p)) {
      StepAt(sha, n, ev, p);
      assert GoodSlot(At(n, p), p);
    }
  }

  // ---------------------------------------------------------------- The whole mesh

  lemma MeshStepKeepsGood(sha: Sha, m: Mesh, ev: MeshEvent)
    requires GoodMesh(sha, m) && MeshEnabled(m, ev)
    ensures GoodMesh(sha, MeshStep(sha, m, ev))
  {
    var n, known := m.nodes[ev.id], m.known[ev.id];
    match ev
    case Local(id, e) =>
      StepKeepsCaches(sha, n, e);
      if e.Rescan? {
        RescanKeepsGood(sha, n, known, e.now, e.gcNow, e.ttl);
      } else {
        EditKeepsGood(sha, n, known, e);
      }
    case Announce(id, p) =>
      assert GoodSlot(At(n, p), p) && Reflects(At(n, p).entry, About(known, p));
    case Deliver(id, msg) =>
      StepKeepsCaches(sha, n, Hear(msg.entry));
      DeliverKeepsGood(sha, n, known, msg);
    case Complete(id, msg, useDelta, r, now) =>
      StepKeepsCaches(sha, n, Fetch(msg.entry, useDelta, r, now));
      CompleteKeepsGood(sha, n, known, msg, useDelta, r, now);
  }

  ghost predicate IsMeshStep(sha: Sha, m: Mesh, ev: MeshEvent, m': Mesh) {
    MeshEnabled(m, ev) && m' == MeshStep(sha, m, ev)
  }

  ghost predicate IsMeshRun(sha: Sha, states: seq<Mesh>, events: seq<MeshEvent>) {
    && |states| == |events| + 1
    && forall i {:trigger events[i]} | 0 <= i < |events| ::
         IsMeshStep(sha, states[i], events[i], states[i + 1])
  }

  lemma RunsConcatenate(sha: Sha, states: seq<Mesh>, events: seq<MeshEvent>, states': seq<Mesh>, events': seq<MeshEvent>)
    requires IsMeshRun(sha, states, events) && IsMeshRun(sha, states', events')
    requires states[|events|] == states'[0]
    ensures IsMeshRun(sha, states + states'[1..], events + events')
    ensures (states + states'[1..])[0] == states[0]
    ensures (states + states'[1..])[|events + events'|] == states'[|events'|]
  {
    var ss, es := states + states'[1..], events + events';
    forall i | 0 <= i < |es| ensures IsMeshStep(sha, ss[i], es[i], ss[i + 1]) {
      if i < |events| {
        assert IsMeshStep(sha, states[i], events[i], states[i + 1]);
      } else {
        var k := i - |events|;
        assert IsMeshStep(sha, states'[k], events'[k], states'[k + 1]);
      }
    }
  }

  /** A fresh mesh: every node knows its own entries and nothing is under way. */
  ghost predicate Fresh(sha: Sha, m: Mesh) {
    && m.nodes.Keys == m.known.Keys
    && m.sent == {}
    && forall id | id in m.nodes ::
         && m.known[id] == m.nodes[id].index.Values
         && AllCachesAgree(sha, m.nodes[id])
         && forall p :: GoodSlot(At(m.nodes[id], p), p)
  }

  lemma FreshIsGood(sha: Sha, m: Mesh)
    requires Fresh(sha, m)
    ensures GoodMesh(sha, m)
  {
    forall id | id in m.nodes ensures GoodNode(m.nodes[id], m.known[id]) {
      var n := m.nodes[id];
      forall p ensures GoodSlot(At(n, p), p) && Reflects(At(n, p).entry, About(m.known[id], p)) {
        forall e | e in About(n.index.Values, p) ensures p in n.index && n.index[p] == e {
          var q :| q in n.index && n.index[q] == e;
          assert GoodSlot(At(n, q), q);
        }
        assert GoodSlot(At(n, p), p);
        assert About(n.index.Values, p) == if p in n.index then {n.index[p]} else {};
      }
    }
  }

  /** Over every run, from any fresh mesh and through edits, scans, lost, repeated, reordered
      and relayed announcements and interleaved transfers, each node's entry for a path is the
      maximum of all the entries that have reached it, to the second. */
  lemma {:induction false} EntriesReflectKnowledge(sha: Sha, states: seq<Mesh>, events: seq<MeshEvent>, i: nat)
    requires IsMeshRun(sha, states, events) && Fresh(sha, states[0])
    requires i < |states|
    ensures GoodMesh(sha, states[i])
  {
    if i == 0 {
      FreshIsGood(sha, states[0]);
    } else {
      EntriesReflectKnowledge(sha, states, events, i - 1);
      var ev := events[i - 1];
      MeshStepKeepsGood(sha, states[i - 1], ev);
    }
  }
}
