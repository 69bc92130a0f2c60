/** What the nodes of a mesh come to agree on: entries and files after the same entries have
    reached them, and after one round of exchanges over a hub. */
module Convergence {
  import opened Bytes
  import opened Lww
  import opened Replica
  import opened ReplicaSteps
  import opened Nodes
  import opened Mesh

  // ---------------------------------------------------------------- One undisturbed pull

  /** Hearing an entry and, if bytes are needed, fetching them successfully. */
  function Pull(sha: Sha, s: Slot, re: Entry, r: Replies, now: Time): Slot {
    match Decide(s, re)
    case Content(useDelta) => Finish(sha, s, re, useDelta, r, now)
    case _ => Receive(s, re)
  }

  /** Unless an unscanned file is in the way nothing is held back: a successful pull leaves the later
      of the two entries, to the second, and a settled slot settled. A winner that is not exempt is
      adopted in full: a tombstone as it came and no file, a live entry with its whole key and a file
      that it describes in every respect. */
  lemma PullInstalls(sha: Sha, s: Slot, re: Entry, r: Replies, now: Time)
    requires !Unsynced(s) && CacheAgrees(sha, s)
    requires GoodEntry(re) && (re.deleted || re.hash != "") && ZERO_TIME < now
    requires Decide(s, re).Content? ==> PullAndVerify(sha, re.hash, Decide(s, re).useDelta, r).Ok?
    ensures var after := Pull(sha, s, re, r, now);
            && (Settled(s) ==> Settled(after))
            && Merges(s.entry, re, after.entry)
            && (s.entry.None? || (Wins(s.entry.value, re) && !Exempt(s.entry.value, re)) ==>
                  if re.deleted then after == Slot(Some(re), None)
                  else Exact(sha, after) && Live(after) && KeyOf(after.entry.value) == KeyOf(re))
  {
    if s.entry.Some? {
      IgnoredWinners(s.entry.value, re, s.file.Some?);
    }
    match Decide(s, re)
    case Content(useDelta) => CommitMerges(s, re, PullAndVerify(sha, re.hash, useDelta, r).value, now);
    case _ => ReceiveMerges(s, re);
  }

  /** What an entry leaves open is filled in: permissions 0644, the time of the write or, if the
      bytes stay, of the file, and the clock for a missing update time of new content. */
  lemma PullFillsIn(sha: Sha, s: Slot, re: Entry, r: Replies, now: Time)
    requires !Unsynced(s) && CacheAgrees(sha, s) && ZERO_TIME < now
    requires !re.deleted && re.hash != "" && re.mode < 512
    requires s.entry.Some? ==> Wins(s.entry.value, re) && !Exempt(s.entry.value, re)
    requires Decide(s, re).Content? ==> PullAndVerify(sha, re.hash, Decide(s, re).useDelta, r).Ok?
    ensures var after := Pull(sha, s, re, r, now);
            var keeps := s.file.Some? && s.entry.value.hash == re.hash;
            && Exact(sha, after) && Live(after)
            && (keeps ==> after.file.value.bytes == s.file.value.bytes)
            && KeyOf(after.entry.value)
               == Key(if re.updatedAt == ZERO_TIME && !keeps then now else re.updatedAt,
                      false,
                      re.hash,
                      if re.mode == 0 then 420 else re.mode,
                      if re.modTime != ZERO_TIME then re.modTime else if keeps then s.file.value.mtime else now)
  {
    if s.entry.Some? {
      IgnoredWinners(s.entry.value, re, s.file.Some?);
    }
  }

  // ---------------------------------------------------------------- Settled paths over runs

  /** The user of node id edits the file at p. */
  predicate EditsAt(ev: MeshEvent, id: Id, p: Path) {
    ev.Local? && ev.id == id && Edits(ev.ev, p)
  }

  lemma MeshStepKeepsSettled(sha: Sha, m: Mesh, ev: MeshEvent, id: Id, p: Path)
    requires GoodMesh(sha, m) && MeshEnabled(m, ev) && id in m.nodes
    requires Settled(At(m.nodes[id], p)) && !EditsAt(ev, id, p)
    ensures Settled(At(MeshStep(sha, m, ev).nodes[id], p))
  {
    if ev.id == id && !ev.Announce? {
      var e := match ev
               case Local(_, e) => e
               case Deliver(_, msg) => Hear(msg.entry)
               case Complete(_, msg, useDelta, r, now) => Fetch(msg.entry, useDelta, r, now);
      assert CacheAgrees(sha, At(m.nodes[id], p));
      StepKeepsSettled(sha, m.nodes[id], e, p);
    }
  }

  /** The path was settled at k and has not been edited on that node from k to i. */
  ghost predicate SettledSince(states: seq<Mesh>, events: seq<MeshEvent>, k: nat, i: nat, id: Id, p: Path)
    requires i < |states| == |events| + 1
  {
    && k <= i && id in states[k].nodes && Settled(At(states[k].nodes[id], p))
    && forall j | k <= j < i :: !EditsAt(events[j], id, p)
  }

  /** Deliveries, transfers and scans, however they interleave, leave a settled path settled. */
  lemma {:induction false} StaysSettled(sha: Sha, states: seq<Mesh>, events: seq<MeshEvent>, k: nat, i: nat, id: Id, p: Path)
    requires IsMeshRun(sha, states, events) && Fresh(sha, states[0]) && i < |states|
    requires SettledSince(states, events, k, i, id, p)
    ensures id in states[i].nodes && Settled(At(states[i].nodes[id], p))
    decreases i - k
  {
    if i == k {
    } else {
      StaysSettled(sha, states, events, k, i - 1, id, p);
      EntriesReflectKnowledge(sha, states, events, i - 1);
      var ev := events[i - 1];
      MeshStepKeepsSettled(sha, states[i - 1], ev, id, p);
    }
  }

  /** A scan settles every path, whatever was edited before. */
  lemma RescanSettles(sha: Sha, n: Node, now: Time, gcNow: Time, ttl: int, p: Path)
    requires AllCachesAgree(sha, n) && ZERO_TIME < now
    ensures Settled(At(Step(sha, n, Rescan(now, gcNow, ttl)), p))
  {
    StepAt(sha, n, Rescan(now, gcNow, ttl), p);
    assert CacheAgrees(sha, At(n, p));
    ReconcileIsExact(sha, At(n, p), p, now, gcNow, ttl, now);
  }

  // ---------------------------------------------------------------- Same knowledge, same files

  lemma ReflectsIsUnique(a: Option<Entry>, b: Option<Entry>, es: set<Entry>)
    requires Reflects(a, es) && Reflects(b, es)
    ensures SameCoarseKeys(a, b)
  {
    if a.Some? {
      AtMostAntisymmetric(CoarseKey(a.value), CoarseKey(b.value));
    }
  }

  predicate SameCoarseKeys(a: Option<Entry>, b: Option<Entry>) {
    (a.Some? <==> b.Some?) && (a.Some? ==> CoarseKey(a.value) == CoarseKey(b.value))
  }

  predicate SameFiles(a: Option<File>, b: Option<File>) {
    (a.Some? <==> b.Some?) && (a.Some? ==> a.value.bytes == b.value.bytes)
  }

  /** SHA-256 does not collide on the two files. */
  predicate Distinguishes(sha: Sha, a: Option<File>, b: Option<File>) {
    a.Some? && b.Some? && sha(a.value.bytes) == sha(b.value.bytes) ==> a.value.bytes == b.value.bytes
  }

  lemma SameKeysSameFiles(sha: Sha, s: Slot, t: Slot)
    requires SameCoarseKeys(s.entry, t.entry)
    requires Settled(s) && Settled(t) && CacheAgrees(sha, s) && CacheAgrees(sha, t)
    requires Distinguishes(sha, s.file, t.file)
    ensures SameFiles(s.file, t.file)
  {
  }

  predicate SameKeys(a: Option<Entry>, b: Option<Entry>) {
    (a.Some? <==> b.Some?) && (a.Some? ==> KeyOf(a.value) == KeyOf(b.value))
  }

  /** k is one of the latest of es, to the second. */
  ghost predicate IsLatestOf(k: Entry, es: set<Entry>) {
    k in es && forall j | j in es :: AtMost(CoarseKey(j), CoarseKey(k))
  }

  /** The latest of es, to the second, all have the same full key. */
  ghost predicate OneLatestKey(es: set<Entry>) {
    forall j, k | IsLatestOf(j, es) && IsLatestOf(k, es) :: KeyOf(j) == KeyOf(k)
  }

  /** What can stand against that: live entries alike but for a modification time within one second. */
  lemma AmbiguityIsSubsecond(j: Entry, k: Entry, es: set<Entry>)
    requires IsLatestOf(j, es) && IsLatestOf(k, es) && KeyOf(j) != KeyOf(k)
    ensures SameButTime(j, k) && j.modTime != k.modTime && j.modTime / SECOND == k.modTime / SECOND
  {
    AtMostAntisymmetric(CoarseKey(j), CoarseKey(k));
  }

  lemma ReflectedIsLatest(e: Entry, es: set<Entry>) returns (k: Entry)
    requires Reflects(Some(e), es)
    ensures IsLatestOf(k, es) && KeyOf(k) == KeyOf(e)
  {
    k :| k in es && KeyOf(k) == KeyOf(e);
    assert CoarseKey(k) == CoarseKey(e);
  }

  /** Nodes that the same entries have reached agree to the second, and in full where those
      entries have one latest key. */
  lemma SameKnowledgeSameEntries(sha: Sha, m: Mesh, a: Id, b: Id, p: Path)
    requires GoodMesh(sha, m) && a in m.nodes && b in m.nodes
    requires About(m.known[a], p) == About(m.known[b], p)
    ensures SameCoarseKeys(At(m.nodes[a], p).entry, At(m.nodes[b], p).entry)
    ensures OneLatestKey(About(m.known[a], p)) ==> SameKeys(At(m.nodes[a], p).entry, At(m.nodes[b], p).entry)
  {
    var s, t, es := At(m.nodes[a], p).entry, At(m.nodes[b], p).entry, About(m.known[a], p);
    assert GoodNode(m.nodes[a], m.known[a]) && GoodNode(m.nodes[b], m.known[b]);
    ReflectsIsUnique(s, t, es);
    if s.Some? {
      var j := ReflectedIsLatest(s.value, es);
      var k := ReflectedIsLatest(t.value, es);
    }
  }

  /** Over every run, nodes that the same entries have reached agree on the entry to the second,
      on its full key where those entries have one latest key, and on the file's absence or its very bytes, if at some time before, the start of the run
      or each node's last scan, the path was settled and it was not edited since. */
  lemma SameKnowledgeSameFiles(sha: Sha, states: seq<Mesh>, events: seq<MeshEvent>, i: nat, a: Id, b: Id, p: Path,
                               ka: nat, kb: nat)
    requires IsMeshRun(sha, states, events) && Fresh(sha, states[0]) && i < |states|
    requires SettledSince(states, events, ka, i, a, p) && SettledSince(states, events, kb, i, b, p)
    requires a in states[i].nodes && b in states[i].nodes && a in states[i].known && b in states[i].known
    requires About(states[i].known[a], p) == About(states[i].known[b], p)
    requires Distinguishes(sha, At(states[i].nodes[a], p).file, At(states[i].nodes[b], p).file)
    ensures SameCoarseKeys(At(states[i].nodes[a], p).entry, At(states[i].nodes[b], p).entry)
    ensures OneLatestKey(About(states[i].known[a], p)) ==>
              SameKeys(At(states[i].nodes[a], p).entry, At(states[i].nodes[b], p).entry)
    ensures SameFiles(At(states[i].nodes[a], p).file, At(states[i].nodes[b], p).file)
  {
    EntriesReflectKnowledge(sha, states, events, i);
    StaysSettled(sha, states, events, ka, i, a, p);
    StaysSettled(sha, states, events, kb, i, b, p);
    SameKnowledgeSameEntries(sha, states[i], a, b, p);
    var s, t := At(states[i].nodes[a], p), At(states[i].nodes[b], p);
    assert CacheAgrees(sha, s) && CacheAgrees(sha, t);
    SameKeysSameFiles(sha, s, t);
  }

  /** When no node has anything left to do about any other node's entries, all nodes agree on
      the entry to the second and, where settled, on the file. */
  lemma QuietMeansAgreed(sha: Sha, m: Mesh, a: Id, b: Id, p: Path)
    requires GoodMesh(sha, m) && a in m.nodes && b in m.nodes
    requires forall x, y | x in m.nodes && y in m.nodes && p in m.nodes[y].index ::
               var re := m.nodes[y].index[p];
               Handled(At(m.nodes[x], p), re) && Receive(At(m.nodes[x], p), re).entry == At(m.nodes[x], p).entry
    ensures SameCoarseKeys(At(m.nodes[a], p).entry, At(m.nodes[b], p).entry)
    ensures Settled(At(m.nodes[a], p)) && Settled(At(m.nodes[b], p))
            && Distinguishes(sha, At(m.nodes[a], p).file, At(m.nodes[b], p).file)
            ==> SameFiles(At(m.nodes[a], p).file, At(m.nodes[b], p).file)
  {
    forall x, y | x in m.nodes && y in m.nodes && p in m.nodes[y].index
      ensures p in m.nodes[x].index && AtMost(CoarseKey(m.nodes[y].index[p]), CoarseKey(m.nodes[x].index[p]))
    {
      assert GoodNode(m.nodes[y], m.known[y]);
      assert GoodSlot(At(m.nodes[y], p), p);
      ReceiveMerges(At(m.nodes[x], p), m.nodes[y].index[p]);
    }
    if p in m.nodes[a].index {
      AtMostAntisymmetric(CoarseKey(m.nodes[a].index[p]), CoarseKey(m.nodes[b].index[p]));
    }
    var s, t := At(m.nodes[a], p), At(m.nodes[b], p);
    assert CacheAgrees(sha, s) && CacheAgrees(sha, t);
    if Settled(s) && Settled(t) && Distinguishes(sha, s.file, t.file) {
      SameKeysSameFiles(sha, s, t);
    }
  }

  // ---------------------------------------------------------------- Knowledge over runs

  /** Nodes stay, and what has reached a node stays with it. */
  lemma {:induction false} KnowledgeGrows(sha: Sha, states: seq<Mesh>, events: seq<MeshEvent>, i: nat, j: nat, id: Id)
    requires IsMeshRun(sha, states, events) && i <= j < |states|
    requires id in states[i].nodes && id in states[i].known
    ensures id in states[j].nodes && id in states[j].known
    ensures states[i].known[id] <= states[j].known[id]
    decreases j - i
  {
    if i == j {
    } else {
      KnowledgeGrows(sha, states, events, i, j - 1, id);
      var ev := events[j - 1];
    }
  }

  /** Where one exchange stands in a run: the sender announces, the receiver hears and, if it
      needs bytes, fetches them. */
  datatype Exchange = Exchange(announced: nat, heard: nat, fetched: nat)

  /** Between lo and hi what y has about p is passed on to x, other steps interleaving freely. */
  ghost predicate IsExchange(sha: Sha, states: seq<Mesh>, events: seq<MeshEvent>, lo: nat, hi: nat,
                             x: Id, y: Id, p: Path, ex: Exchange)
    requires hi < |states| == |events| + 1
  {
    && lo <= ex.announced <= hi
    && y in states[ex.announced].nodes && y in states[ex.announced].known
    && (|| p !in states[ex.announced].nodes[y].index
        || (&& ex.announced < ex.heard < hi
            && events[ex.announced] == Announce(y, p)
            && var msg := Msg(states[ex.announced].nodes[y].index[p], About(states[ex.announced].known[y], p));
               && events[ex.heard] == Deliver(x, msg)
               && x in states[ex.heard].nodes
               && (Decide(At(states[ex.heard].nodes[x], p), msg.entry).Content? ==>
                     && ex.heard < ex.fetched < hi
                     && Fetches(sha, events[ex.fetched], x, msg))))
  }

  /** The transfer completes with bytes of the wanted hash. */
  predicate Fetches(sha: Sha, ev: MeshEvent, x: Id, msg: Msg) {
    && ev.Complete? && ev.id == x && ev.msg == msg
    && PullAndVerify(sha, msg.entry.hash, ev.useDelta, ev.replies).Ok?
  }

  ghost predicate NeverEmpty(sha: Sha) {
    forall data :: sha(data) != ""
  }

  /** A settled receiver takes in all the announced knowledge, with the message or with the bytes. */
  lemma HearingTeaches(sha: Sha, m: Mesh, ev: MeshEvent, msg: Msg)
    requires GoodMesh(sha, m) && MeshEnabled(m, ev) && GoodMsg(msg)
    requires Settled(At(m.nodes[ev.id], msg.entry.path))
    requires msg.entry.deleted || msg.entry.hash != ""
    requires || (ev == Deliver(ev.id, msg) && !Decide(At(m.nodes[ev.id], msg.entry.path), msg.entry).Content?)
             || Fetches(sha, ev, ev.id, msg)
    ensures MeshStep(sha, m, ev).known[ev.id] == m.known[ev.id] + msg.support
  {
  }

  lemma AnnouncementIsGood(sha: Sha, m: Mesh, y: Id, p: Path)
    requires GoodMesh(sha, m) && NeverEmpty(sha) && y in m.nodes && p in m.nodes[y].index
    requires Settled(At(m.nodes[y], p))
    ensures var msg := Msg(m.nodes[y].index[p], About(m.known[y], p));
            GoodMsg(msg) && msg.entry.path == p && (msg.entry.deleted || msg.entry.hash != "")
  {
    var s := At(m.nodes[y], p);
    assert GoodNode(m.nodes[y], m.known[y]) && GoodSlot(s, p);
    assert CacheAgrees(sha, s);
  }

  /** Delivering to a settled node: it learns at once, or it needs bytes and waits for them. */
  lemma DeliverTeachesOrWaits(sha: Sha, m: Mesh, x: Id, msg: Msg)
    requires GoodMesh(sha, m) && MeshEnabled(m, Deliver(x, msg)) && GoodMsg(msg)
    requires Settled(At(m.nodes[x], msg.entry.path)) && (msg.entry.deleted || msg.entry.hash != "")
    ensures var after := MeshStep(sha, m, Deliver(x, msg));
            && GoodMesh(sha, after) && after.sent == m.sent && Settled(At(after.nodes[x], msg.entry.path))
            && if Decide(At(m.nodes[x], msg.entry.path), msg.entry).Content?
               then after.known == m.known && !msg.entry.deleted
               else after.known[x] == m.known[x] + msg.support
  {
    MeshStepKeepsGood(sha, m, Deliver(x, msg));
    MeshStepKeepsSettled(sha, m, Deliver(x, msg), x, msg.entry.path);
  }

  lemma FetchTeaches(sha: Sha, m: Mesh, x: Id, msg: Msg, useDelta: bool, r: Replies, now: Time)
    requires var fetch := Complete(x, msg, useDelta, r, now);
             GoodMesh(sha, m) && MeshEnabled(m, fetch) && GoodMsg(msg) && Fetches(sha, fetch, x, msg)
    requires Settled(At(m.nodes[x], msg.entry.path)) && msg.entry.hash != ""
    ensures var after := MeshStep(sha, m, Complete(x, msg, useDelta, r, now));
            after.known[x] == m.known[x] + msg.support && Settled(At(after.nodes[x], msg.entry.path))
  {
    var fetch := Complete(x, msg, useDelta, r, now);
    HearingTeaches(sha, m, fetch, msg);
    MeshStepKeepsSettled(sha, m, fetch, x, msg.entry.path);
  }

  /** A message can be heard out by a settled node whenever someone has the bytes it stands for. */
  lemma HearingIsPossible(sha: Sha, m: Mesh, x: Id, msg: Msg, data: seq<Byte>) returns (states: seq<Mesh>, events: seq<MeshEvent>)
    requires GoodMesh(sha, m) && x in m.nodes && msg in m.sent && Settled(At(m.nodes[x], msg.entry.path))
    requires msg.entry.deleted || (msg.entry.hash == sha(data) && msg.entry.hash != "")
    ensures IsMeshRun(sha, states, events) && states[0] == m
    ensures forall i | 0 <= i < |events| :: !events[i].Local?
    ensures var end := states[|events|];
            && x in end.nodes && x in end.known
            && end.known[x] == m.known[x] + msg.support
            && Settled(At(end.nodes[x], msg.entry.path))
  {
    DeliverTeachesOrWaits(sha, m, x, msg);
    var deliver := Deliver(x, msg);
    var heard := MeshStep(sha, m, deliver);
    if Decide(At(m.nodes[x], msg.entry.path), msg.entry).Content? {
      var r := Replies(Data(data), Data(data), Data(data));
      FetchTeaches(sha, heard, x, msg, false, r, 1);
      var fetch := Complete(x, msg, false, r, 1);
      states, events := [m, heard, MeshStep(sha, heard, fetch)], [deliver, fetch];
    } else {
      states, events := [m, heard], [deliver];
    }
  }

  /** An exchange is always possible between nodes with settled disks, and does what it should:
      without further edits or scans the receiver comes to know exactly what it knew and what the
      sender knew about p, and is settled again. */
  lemma ExchangeIsPossible(sha: Sha, m: Mesh, x: Id, y: Id, p: Path) returns (states: seq<Mesh>, events: seq<MeshEvent>)
    requires GoodMesh(sha, m) && NeverEmpty(sha) && x in m.nodes && y in m.nodes && p in m.nodes[y].index
    requires Settled(At(m.nodes[x], p)) && Settled(At(m.nodes[y], p))
    ensures IsMeshRun(sha, states, events) && states[0] == m
    ensures forall i | 0 <= i < |events| :: !events[i].Local?
    ensures var end := states[|events|];
            && x in end.nodes && x in end.known
            && end.known[x] == m.known[x] + About(m.known[y], p)
            && Settled(At(end.nodes[x], p))
  {
    var msg := Msg(m.nodes[y].index[p], About(m.known[y], p));
    AnnouncementIsGood(sha, m, y, p);
    assert CacheAgrees(sha, At(m.nodes[y], p));
    var data := if msg.entry.deleted then [] else m.nodes[y].disk[p].bytes;
    var announced := MeshStep(sha, m, Announce(y, p));
    MeshStepKeepsGood(sha, m, Announce(y, p));
    var first := [m, announced];
    var rest, more := HearingIsPossible(sha, announced, x, msg, data);
    RunsConcatenate(sha, first, [Announce(y, p)], rest, more);
    states, events := first + rest[1..], [Announce(y, p)] + more;
  }

  /** ... and keeps it. */
  lemma HeardStays(sha: Sha, states: seq<Mesh>, events: seq<MeshEvent>, lo: nat, k: nat, hi: nat, x: Id, msg: Msg)
    requires IsMeshRun(sha, states, events) && Fresh(sha, states[0])
    requires lo <= k < hi < |states| && SettledSince(states, events, lo, k, x, msg.entry.path)
    requires GoodMsg(msg) && (msg.entry.deleted || msg.entry.hash != "") && x in states[k].nodes
    requires || (events[k] == Deliver(x, msg) && !Decide(At(states[k].nodes[x], msg.entry.path), msg.entry).Content?)
             || Fetches(sha, events[k], x, msg)
    ensures x in states[hi].known && msg.support <= states[hi].known[x]
  {
    EntriesReflectKnowledge(sha, states, events, k);
    StaysSettled(sha, states, events, lo, k, x, msg.entry.path);
    var ev := events[k];
    HearingTeaches(sha, states[k], ev, msg);
    KnowledgeGrows(sha, states, events, k + 1, hi, x);
  }

  lemma UnindexedIsUnknown(sha: Sha, states: seq<Mesh>, events: seq<MeshEvent>, k: nat, y: Id, p: Path)
    requires IsMeshRun(sha, states, events) && Fresh(sha, states[0]) && k < |states|
    requires y in states[k].nodes && y in states[k].known && p !in states[k].nodes[y].index
    ensures About(states[k].known[y], p) == {}
  {
    EntriesReflectKnowledge(sha, states, events, k);
    assert GoodNode(states[k].nodes[y], states[k].known[y]);
    assert Reflects(At(states[k].nodes[y], p).entry, About(states[k].known[y], p));
  }

  lemma AnnouncedIsGood(sha: Sha, states: seq<Mesh>, events: seq<MeshEvent>, lo: nat, k: nat, y: Id, p: Path)
    requires IsMeshRun(sha, states, events) && Fresh(sha, states[0]) && NeverEmpty(sha)
    requires lo <= k < |states| && SettledSince(states, events, lo, k, y, p)
    requires y in states[k].nodes && y in states[k].known && p in states[k].nodes[y].index
    ensures var msg := Msg(states[k].nodes[y].index[p], About(states[k].known[y], p));
            GoodMsg(msg) && msg.entry.path == p && (msg.entry.deleted || msg.entry.hash != "")
  {
    StaysSettled(sha, states, events, lo, k, y, p);
    EntriesReflectKnowledge(sha, states, events, k);
    AnnouncementIsGood(sha, states[k], y, p);
  }

  /** After an exchange the receiver knows everything the sender knew before it. */
  lemma ExchangeTeaches(sha: Sha, states: seq<Mesh>, events: seq<MeshEvent>, lo: nat, hi: nat,
                        x: Id, y: Id, p: Path, ex: Exchange)
    requires IsMeshRun(sha, states, events) && Fresh(sha, states[0]) && NeverEmpty(sha)
    requires lo <= hi < |states| && IsExchange(sha, states, events, lo, hi, x, y, p, ex)
    requires SettledSince(states, events, lo, hi, x, p) && SettledSince(states, events, lo, hi, y, p)
    requires x in states[lo].known && y in states[lo].known
    ensures x in states[hi].known && About(states[lo].known[y], p) <= states[hi].known[x]
  {
    var a, h := ex.announced, ex.heard;
    KnowledgeGrows(sha, states, events, lo, a, y);
    KnowledgeGrows(sha, states, events, lo, hi, x);
    assert About(states[lo].known[y], p) <= About(states[a].known[y], p);
    if p !in states[a].nodes[y].index {
      UnindexedIsUnknown(sha, states, events, a, y, p);
    } else {
      var msg := Msg(states[a].nodes[y].index[p], About(states[a].known[y], p));
      AnnouncedIsGood(sha, states, events, lo, a, y, p);
      if Decide(At(states[h].nodes[x], p), msg.entry).Content? {
        HeardStays(sha, states, events, lo, ex.fetched, hi, x, msg);
      } else {
        HeardStays(sha, states, events, lo, h, hi, x, msg);
      }
    }
  }

  // ---------------------------------------------------------------- Nothing new without an edit

  /** Every entry about p that has reached some node. */
  ghost function AllKnown(m: Mesh, p: Path): set<Entry> {
    set id, e | id in m.known && e in m.known[id] && e.path == p :: e
  }

  ghost predicate KnowsOnly(m: Mesh, p: Path, all: set<Entry>) {
    && (forall id | id in m.known :: About(m.known[id], p) <= all)
    && (forall msg | msg in m.sent :: About(msg.support, p) <= all)
  }

  /** What a message carries is known to its sender for good. */
  ghost predicate SentIsKnown(m: Mesh) {
    forall msg | msg in m.sent :: exists id :: id in m.known && msg.support <= m.known[id]
  }

  lemma {:induction false} SentIsKnownAlways(sha: Sha, states: seq<Mesh>, events: seq<MeshEvent>, i: nat)
    requires IsMeshRun(sha, states, events) && Fresh(sha, states[0]) && i < |states|
    ensures SentIsKnown(states[i])
  {
    if i == 0 {
    } else {
      SentIsKnownAlways(sha, states, events, i - 1);
      var m, ev := states[i - 1], events[i - 1];
      forall msg | msg in states[i].sent ensures exists id :: id in states[i].known && msg.support <= states[i].known[id] {
        if msg in m.sent {
          var id :| id in m.known && msg.support <= m.known[id];
          assert id in states[i].known && m.known[id] <= states[i].known[id];
        } else {
          assert ev.id in states[i].known && msg.support <= states[i].known[ev.id];
        }
      }
    }
  }

  /** Without edits of the path, well-formed entries keep the index exact for it. */
  lemma StepKeepsExact(sha: Sha, n: Node, ev: Event, p: Path)
    requires Enabled(n, ev) && Exact(sha, At(n, p)) && !Edits(ev, p)
    requires ev.Hear? || ev.Fetch? ==> GoodEntry(ev.re)
    ensures Exact(sha, At(Step(sha, n, ev), p))
  {
    StepAt(sha, n, ev, p);
    if ev.Rescan? {
      ReconcileIsExact(sha, At(n, p), p, ev.now, ev.gcNow, ev.ttl, ev.now);
    }
  }

  /** The user of any node edits the file at p. */
  predicate EditsPath(ev: MeshEvent, p: Path) {
    ev.Local? && Edits(ev.ev, p)
  }

  ghost predicate AllExact(sha: Sha, m: Mesh, p: Path) {
    forall id | id in m.nodes :: Exact(sha, At(m.nodes[id], p))
  }

  lemma MeshStepKeepsExact(sha: Sha, m: Mesh, ev: MeshEvent, p: Path)
    requires GoodMesh(sha, m) && MeshEnabled(m, ev)
    requires AllExact(sha, m, p) && !EditsPath(ev, p)
    ensures AllExact(sha, MeshStep(sha, m, ev), p)
  {
    if !ev.Announce? {
      var e := match ev
               case Local(_, e) => e
               case Deliver(_, msg) => Hear(msg.entry)
               case Complete(_, msg, useDelta, r, now) => Fetch(msg.entry, useDelta, r, now);
      StepKeepsExact(sha, m.nodes[ev.id], e, p);
    }
  }

  lemma MeshStepLearnsNothingNew(sha: Sha, m: Mesh, ev: MeshEvent, p: Path, all: set<Entry>)
    requires GoodMesh(sha, m) && MeshEnabled(m, ev)
    requires AllExact(sha, m, p) && KnowsOnly(m, p, all)
    ensures KnowsOnly(MeshStep(sha, m, ev), p, all)
  {
    if ev.Local? && ev.ev.Rescan? {
      AboutDiscovered(sha, m.nodes[ev.id], m.known[ev.id], ev.ev.now, p);
    }
  }

  /** While nobody edits the path, scans find nothing and no entry appears that no node knew. */
  lemma {:induction false} NothingNew(sha: Sha, states: seq<Mesh>, events: seq<MeshEvent>, lo: nat, i: nat, p: Path)
    requires IsMeshRun(sha, states, events) && Fresh(sha, states[0]) && lo <= i < |states|
    requires AllExact(sha, states[lo], p)
    requires forall j | lo <= j < i :: !EditsPath(events[j], p)
    ensures AllExact(sha, states[i], p)
    ensures KnowsOnly(states[i], p, AllKnown(states[lo], p))
    ensures states[i].nodes.Keys == states[lo].nodes.Keys
    decreases i - lo
  {
    if i == lo {
      SentIsKnownAlways(sha, states, events, lo);
    } else {
      NothingNew(sha, states, events, lo, i - 1, p);
      EntriesReflectKnowledge(sha, states, events, i - 1);
      var ev := events[i - 1];
      MeshStepKeepsExact(sha, states[i - 1], ev, p);
      MeshStepLearnsNothingNew(sha, states[i - 1], ev, p, AllKnown(states[lo], p));
    }
  }

  // ---------------------------------------------------------------- Relays

  /** Node x hears from node y, completely, between lo and hi. */
  ghost predicate Exchanged(sha: Sha, states: seq<Mesh>, events: seq<MeshEvent>, lo: nat, hi: nat, x: Id, y: Id, p: Path)
    requires hi < |states| == |events| + 1
  {
    x == y || exists ex :: IsExchange(sha, states, events, lo, hi, x, y, p, ex)
  }

  ghost predicate Unedited(events: seq<MeshEvent>, lo: nat, hi: nat, p: Path)
    requires hi <= |events|
  {
    forall j | lo <= j < hi :: !EditsPath(events[j], p)
  }

  lemma ExchangedTeaches(sha: Sha, states: seq<Mesh>, events: seq<MeshEvent>, lo: nat, hi: nat, x: Id, y: Id, p: Path)
    requires IsMeshRun(sha, states, events) && Fresh(sha, states[0]) && NeverEmpty(sha)
    requires lo <= hi < |states| && AllExact(sha, states[lo], p) && Unedited(events, lo, hi, p)
    requires x in states[lo].nodes && y in states[lo].nodes
    requires Exchanged(sha, states, events, lo, hi, x, y, p)
    ensures x in states[hi].known && y in states[lo].known
    ensures About(states[lo].known[y], p) <= About(states[hi].known[x], p)
  {
    EntriesReflectKnowledge(sha, states, events, lo);
    if x == y {
      KnowledgeGrows(sha, states, events, lo, hi, x);
    } else {
      var ex :| IsExchange(sha, states, events, lo, hi, x, y, p, ex);
      assert Exact(sha, At(states[lo].nodes[x], p)) && Exact(sha, At(states[lo].nodes[y], p));
      ExchangeTeaches(sha, states, events, lo, hi, x, y, p, ex);
    }
  }

  /** Between times t and u, from y to x. */
  ghost predicate IsLink(sha: Sha, states: seq<Mesh>, events: seq<MeshEvent>, t: nat, u: nat, y: Id, x: Id, p: Path) {
    t <= u < |states| == |events| + 1 && Exchanged(sha, states, events, t, u, x, y, p)
  }

  /** A relay: at times[k] node ids[k] has what is passed on, and by times[k + 1] its successor
      has heard from it. */
  ghost predicate IsRelay(sha: Sha, states: seq<Mesh>, events: seq<MeshEvent>, lo: nat, hi: nat,
                          ids: seq<Id>, times: seq<nat>, p: Path)
    requires lo < |states|
  {
    && 0 < |ids| == |times|
    && lo <= times[0]
    && (forall k | 0 <= k < |times| :: times[k] <= hi && ids[k] in states[lo].nodes)
    && (forall k | 0 <= k < |ids| - 1 :: IsLink(sha, states, events, times[k], times[k + 1], ids[k], ids[k + 1], p))
  }

  lemma RelayPrefix(sha: Sha, states: seq<Mesh>, events: seq<MeshEvent>, lo: nat, hi: nat,
                    ids: seq<Id>, times: seq<nat>, p: Path)
    requires lo < |states| && IsRelay(sha, states, events, lo, hi, ids, times, p) && 1 < |ids|
    ensures IsRelay(sha, states, events, lo, hi, ids[..|ids| - 1], times[..|ids| - 1], p)
  {
    var init, ts := ids[..|ids| - 1], times[..|ids| - 1];
    forall k | 0 <= k < |init| - 1 ensures IsLink(sha, states, events, ts[k], ts[k + 1], init[k], init[k + 1], p) {
      assert IsLink(sha, states, events, times[k], times[k + 1], ids[k], ids[k + 1], p);
    }
  }

  /** One more link: what y had at t, its successor x has at u. */
  lemma PassOn(sha: Sha, states: seq<Mesh>, events: seq<MeshEvent>, lo: nat, t: nat, u: nat, x: Id, y: Id, p: Path)
    requires IsMeshRun(sha, states, events) && Fresh(sha, states[0]) && NeverEmpty(sha)
    requires lo <= t <= u < |states| && AllExact(sha, states[lo], p) && Unedited(events, lo, u, p)
    requires x in states[lo].nodes && y in states[lo].nodes
    requires Exchanged(sha, states, events, t, u, x, y, p)
    ensures x in states[u].known && y in states[t].known
    ensures About(states[t].known[y], p) <= About(states[u].known[x], p)
  {
    NothingNew(sha, states, events, lo, t, p);
    ExchangedTeaches(sha, states, events, t, u, x, y, p);
  }

  /** What the first node of a relay knew in the beginning, its last one knows in the end. */
  lemma {:induction false} RelayTeaches(sha: Sha, states: seq<Mesh>, events: seq<MeshEvent>, lo: nat, hi: nat,
                                        ids: seq<Id>, times: seq<nat>, p: Path)
    requires IsMeshRun(sha, states, events) && Fresh(sha, states[0]) && NeverEmpty(sha)
    requires lo <= hi < |states| && AllExact(sha, states[lo], p) && Unedited(events, lo, hi, p)
    requires IsRelay(sha, states, events, lo, hi, ids, times, p)
    ensures var t := times[|times| - 1];
            && lo <= t <= hi && ids[0] in states[lo].known && ids[|ids| - 1] in states[t].known
            && About(states[lo].known[ids[0]], p) <= About(states[t].known[ids[|ids| - 1]], p)
    decreases |ids|
  {
    var n := |ids| - 1;
    var x := ids[n];
    if n == 0 {
      EntriesReflectKnowledge(sha, states, events, lo);
      KnowledgeGrows(sha, states, events, lo, times[0], x);
    } else {
      RelayPrefix(sha, states, events, lo, hi, ids, times, p);
      RelayTeaches(sha, states, events, lo, hi, ids[..n], times[..n], p);
      var y := ids[n - 1];
      assert IsLink(sha, states, events, times[n - 1], times[n - 1 + 1], y, ids[n - 1 + 1], p);
      PassOn(sha, states, events, lo, times[n - 1], times[n], x, y, p);
    }
  }

  /** Some relay between lo and hi leads from y to x. */
  ghost predicate Reaches(sha: Sha, states: seq<Mesh>, events: seq<MeshEvent>, lo: nat, hi: nat, y: Id, x: Id, p: Path)
    requires lo < |states|
  {
    exists ids, times :: IsRelay(sha, states, events, lo, hi, ids, times, p) && ids[0] == y && ids[|ids| - 1] == x
  }

  lemma ReachingTeaches(sha: Sha, states: seq<Mesh>, events: seq<MeshEvent>, lo: nat, hi: nat, y: Id, x: Id, p: Path)
    requires IsMeshRun(sha, states, events) && Fresh(sha, states[0]) && NeverEmpty(sha)
    requires lo <= hi < |states| && AllExact(sha, states[lo], p) && Unedited(events, lo, hi, p)
    requires Reaches(sha, states, events, lo, hi, y, x, p)
    ensures y in states[lo].known && x in states[hi].known
    ensures About(states[lo].known[y], p) <= About(states[hi].known[x], p)
  {
    var ids, times :| IsRelay(sha, states, events, lo, hi, ids, times, p) && ids[0] == y && ids[|ids| - 1] == x;
    RelayTeaches(sha, states, events, lo, hi, ids, times, p);
    NothingNew(sha, states, events, lo, times[|times| - 1], p);
    KnowledgeGrows(sha, states, events, times[|times| - 1], hi, x);
  }

  // ---------------------------------------------------------------- Convergence

  /** All nodes of m have the same view of p, and it is the best view of what es offers: they know
      exactly es, have its latest entry to the second and in full where there is one latest key,
      describe their files exactly, and have the same bytes or no file. */
  ghost predicate Converged(sha: Sha, m: Mesh, p: Path, es: set<Entry>)
    requires m.nodes.Keys == m.known.Keys
  {
    && (forall x | x in m.nodes ::
          && About(m.known[x], p) == es
          && Reflects(At(m.nodes[x], p).entry, es)
          && Exact(sha, At(m.nodes[x], p)))
    && (forall x, y | x in m.nodes && y in m.nodes ::
          && (OneLatestKey(es) ==> SameKeys(At(m.nodes[x], p).entry, At(m.nodes[y], p).entry))
          && (Distinguishes(sha, At(m.nodes[x], p).file, At(m.nodes[y], p).file) ==>
                SameFiles(At(m.nodes[x], p).file, At(m.nodes[y], p).file)))
  }

  lemma SameKnowledgeConverges(sha: Sha, m: Mesh, p: Path, es: set<Entry>)
    requires GoodMesh(sha, m) && AllExact(sha, m, p)
    requires forall x | x in m.nodes :: About(m.known[x], p) == es
    ensures Converged(sha, m, p, es)
  {
    forall x | x in m.nodes ensures Reflects(At(m.nodes[x], p).entry, es) {
      assert GoodNode(m.nodes[x], m.known[x]);
    }
    forall x, y | x in m.nodes && y in m.nodes
      ensures OneLatestKey(es) ==> SameKeys(At(m.nodes[x], p).entry, At(m.nodes[y], p).entry)
      ensures Distinguishes(sha, At(m.nodes[x], p).file, At(m.nodes[y], p).file) ==>
                SameFiles(At(m.nodes[x], p).file, At(m.nodes[y], p).file)
    {
      SameKnowledgeSameEntries(sha, m, x, y, p);
      if Distinguishes(sha, At(m.nodes[x], p).file, At(m.nodes[y], p).file) {
        SameKeysSameFiles(sha, At(m.nodes[x], p), At(m.nodes[y], p));
      }
    }
  }

  /** Convergence: from any reachable state in which every node's index is exact for a path, let
      each node's knowledge reach each other node along some relay of exchanges, with any other
      deliveries, transfers and scans in between and no edit of the path. Then all nodes have
      converged on all that any of them knew. */
  lemma RelaysConverge(sha: Sha, states: seq<Mesh>, events: seq<MeshEvent>, lo: nat, hi: nat, p: Path)
    requires IsMeshRun(sha, states, events) && Fresh(sha, states[0]) && NeverEmpty(sha)
    requires lo <= hi < |states| && AllExact(sha, states[lo], p) && Unedited(events, lo, hi, p)
    requires forall x, y | x in states[lo].nodes && y in states[lo].nodes :: Reaches(sha, states, events, lo, hi, y, x, p)
    ensures states[hi].nodes.Keys == states[lo].nodes.Keys == states[hi].known.Keys
    ensures Converged(sha, states[hi], p, AllKnown(states[lo], p))
  {
    EntriesReflectKnowledge(sha, states, events, lo);
    EntriesReflectKnowledge(sha, states, events, hi);
    NothingNew(sha, states, events, lo, hi, p);
    var m, all := states[hi], AllKnown(states[lo], p);
    forall x | x in m.nodes ensures About(m.known[x], p) == all {
      forall e | e in all ensures e in About(m.known[x], p) {
        var y :| y in states[lo].known && e in states[lo].known[y];
        ReachingTeaches(sha, states, events, lo, hi, y, x, p);
        assert e in About(states[lo].known[y], p);
      }
    }
    SameKnowledgeConverges(sha, m, p, all);
  }

  /** One round over a hub is enough: it hears from all others, and then all others from it. */
  lemma RoundConverges(sha: Sha, states: seq<Mesh>, events: seq<MeshEvent>, lo: nat, mid: nat, hi: nat, hub: Id, p: Path)
    requires IsMeshRun(sha, states, events) && Fresh(sha, states[0]) && NeverEmpty(sha)
    requires lo <= mid <= hi < |states| && AllExact(sha, states[lo], p) && Unedited(events, lo, hi, p)
    requires hub in states[lo].nodes
    requires forall y | y in states[lo].nodes :: Exchanged(sha, states, events, lo, mid, hub, y, p)
    requires forall x | x in states[lo].nodes :: Exchanged(sha, states, events, mid, hi, x, hub, p)
    ensures states[hi].nodes.Keys == states[lo].nodes.Keys == states[hi].known.Keys
    ensures Converged(sha, states[hi], p, AllKnown(states[lo], p))
  {
    forall x, y | x in states[lo].nodes && y in states[lo].nodes ensures Reaches(sha, states, events, lo, hi, y, x, p) {
      var ids, times: seq<nat> := [y, hub, x], [lo, mid, hi];
      assert IsLink(sha, states, events, lo, mid, y, hub, p) && IsLink(sha, states, events, mid, hi, hub, x, p);
      assert IsRelay(sha, states, events, lo, hi, ids, times, p);
    }
    RelaysConverge(sha, states, events, lo, hi, p);
  }
}
