/** A node as a state machine: its index, its disk, and every atomic step of the daemon and of
    its user. Transfers run between steps, so a Fetch may follow its Hear at any distance. */
module Nodes {
  import opened Bytes
  import opened Lww
  import opened FileIndex
  import opened Replica
  import opened ReplicaSteps

  datatype Node = Node(index: Files, disk: map<Path, File>)

  function At(n: Node, p: Path): Slot {
    Slot(if p in n.index then Some(n.index[p]) else None, if p in n.disk then Some(n.disk[p]) else None)
  }

  function With(n: Node, p: Path, s: Slot): Node {
    Node(if s.entry.Some? then n.index[p := s.entry.value] else n.index - {p},
         if s.file.Some? then n.disk[p := s.file.value] else n.disk - {p})
  }

  /** The index after a reconcile of every path. */
  function ReconciledIndex(sha: Sha, n: Node, now: Time, gcNow: Time, ttl: int): Files {
    map p | p in n.index.Keys + n.disk.Keys && Reconcile(sha, At(n, p), p, now, gcNow, ttl).entry.Some?
      :: Reconcile(sha, At(n, p), p, now, gcNow, ttl).entry.value
  }

  datatype Event =
    | Write(path: Path, file: File)                                        // the user creates or changes a file
    | Remove(path: Path)                                                   // the user deletes a file
    | Hear(re: Entry)                                                      // applyRemote up to the transfer
    | Fetch(re: Entry, useDelta: bool, replies: Replies, now: Time)        // applyRemote after the transfer
    | Rescan(now: Time, gcNow: Time, ttl: int)                             // reconcile

  function Step(sha: Sha, n: Node, ev: Event): Node {
    match ev
    case Write(p, f) => n.(disk := n.disk[p := f])
    case Remove(p) => n.(disk := n.disk - {p})
    case Hear(re) => With(n, re.path, Receive(At(n, re.path), re))
    case Fetch(re, useDelta, r, now) => With(n, re.path, Finish(sha, At(n, re.path), re, useDelta, r, now))
    case Rescan(now, gcNow, ttl) => n.(index := ReconciledIndex(sha, n, now, gcNow, ttl))
  }

  /** The same step, seen from one path. */
  function SlotStep(sha: Sha, s: Slot, ev: Event, p: Path): Slot {
    match ev
    case Write(q, f) => if q == p then s.(file := Some(f)) else s
    case Remove(q) => if q == p then s.(file := None) else s
    case Hear(re) => if re.path == p then Receive(s, re) else s
    case Fetch(re, useDelta, r, now) => if re.path == p then Finish(sha, s, re, useDelta, r, now) else s
    case Rescan(now, gcNow, ttl) => Reconcile(sha, s, p, now, gcNow, ttl)
  }

  lemma StepAt(sha: Sha, n: Node, ev: Event, p: Path)
    ensures At(Step(sha, n, ev), p) == SlotStep(sha, At(n, p), ev, p)
  {
  }

  /** What is asked of the environment: an edit that changes bytes leaves a size or time other
      than the live entry's, only live entries are fetched, and the clock is past the zero time. */
  predicate Enabled(n: Node, ev: Event) {
    match ev
    case Write(p, f) =>
      var s := At(n, p);
      || !(s.entry.Some? && Tracks(s.entry.value, f))
      || (s.file.Some? && s.file.value.bytes == f.bytes && s.file.value.mtime == f.mtime)
    case Remove(_) => true
    case Hear(_) => true
    case Fetch(re, _, _, now) => !re.deleted && ZERO_TIME < now
    case Rescan(now, _, _) => ZERO_TIME < now
  }

  ghost predicate IsRun(sha: Sha, states: seq<Node>, events: seq<Event>) {
    && |states| == |events| + 1
    && forall i {:trigger events[i]} | 0 <= i < |events| ::
         Enabled(states[i], events[i]) && states[i + 1] == Step(sha, states[i], events[i])
  }

  // ---------------------------------------------------------------- The hash cache, over all runs

  ghost predicate AllCachesAgree(sha: Sha, n: Node) {
    forall p :: CacheAgrees(sha, At(n, p))
  }

  lemma StepKeepsCaches(sha: Sha, n: Node, ev: Event)
    requires AllCachesAgree(sha, n) && Enabled(n, ev)
    ensures AllCachesAgree(sha, Step(sha, n, ev))
  {
    forall p ensures CacheAgrees(sha, At(Step(sha, n, ev), p)) {
      StepAt(sha, n, ev, p);
      assert CacheAgrees(sha, At(n, p));
    }
  }

  /** In every reachable state a live entry that matches the disk in size and time carries the
      hash of the bytes, whatever entries, bytes or deltas peers send. */
  lemma {:induction false} CachesAgreeAlways(sha: Sha, states: seq<Node>, events: seq<Event>, i: nat)
    requires IsRun(sha, states, events) && AllCachesAgree(sha, states[0])
    requires i < |states|
    ensures AllCachesAgree(sha, states[i])
  {
    if i == 0 {
    } else {
      CachesAgreeAlways(sha, states, events, i - 1);
      var ev := events[i - 1];
      StepKeepsCaches(sha, states[i - 1], ev);
    }
  }

  // ---------------------------------------------------------------- Keys, over all runs

  /** A mode that is to be written to a file survives being written. */
  predicate PlainMode(ev: Event) {
    && (ev.Hear? ==> ev.re.deleted || ev.re.hash == "" || KeepsMode(ev.re))
    && (ev.Fetch? ==> KeepsMode(ev.re) || ev.re.updatedAt == ZERO_TIME)
  }

  /** The reconcile drops the path's entry: a tombstone that has expired. */
  predicate Collects(sha: Sha, n: Node, ev: Event, p: Path) {
    && ev.Rescan? && 0 < ev.ttl
    && var mid := ScanApply(sha, At(n, p), p, ev.now).entry;
       mid.Some? && Expired(mid.value, ev.gcNow - ev.ttl)
  }

  /** One step keeps or raises the key of a path exactly unless it collects its tombstone; and up to
      the collection even then. */
  lemma StepGrows(sha: Sha, n: Node, ev: Event, p: Path)
    requires Enabled(n, ev) && PlainMode(ev)
    ensures Grows(At(n, p).entry, At(Step(sha, n, ev), p).entry) <==> !(p in n.index && Collects(sha, n, ev, p))
    ensures Collects(sha, n, ev, p) ==> Grows(At(n, p).entry, ScanApply(sha, At(n, p), p, ev.now).entry)
  {
    StepAt(sha, n, ev, p);
    var s := At(n, p);
    match ev
    case Write(_, _) =>
    case Remove(_) =>
    case Hear(re) => ReceiveGrows(s, re);
    case Fetch(re, useDelta, r, now) =>
      var got := PullAndVerify(sha, re.hash, useDelta, r);
      if got.Ok? {
        CommitGrows(s, re, got.value, now);
      }
    case Rescan(now, gcNow, ttl) => ScanGrows(sha, s, p, now);
  }

  /** Over any run a path's key neither decreases nor vanishes, unless a reconcile on the way
      collected an expired tombstone of that path. */
  lemma {:induction false} KeysNeverDecrease(sha: Sha, states: seq<Node>, events: seq<Event>, i: nat, j: nat, p: Path)
    requires IsRun(sha, states, events) && i <= j < |states|
    requires forall k | i <= k < j :: PlainMode(events[k])
    ensures Grows(At(states[i], p).entry, At(states[j], p).entry)
         || exists k | i <= k < j :: Collects(sha, states[k], events[k], p)
    decreases j - i
  {
    if i == j {
    } else {
      KeysNeverDecrease(sha, states, events, i, j - 1, p);
      var ev := events[j - 1];
      StepGrows(sha, states[j - 1], ev, p);
      var a, b, c := At(states[i], p).entry, At(states[j - 1], p).entry, At(states[j], p).entry;
      if a.Some? && Grows(a, b) && Grows(b, c) {
        AtMostTransitive(KeyOf(a.value), KeyOf(b.value), KeyOf(c.value));
      }
    }
  }

  /** A collected tombstone is forgotten for good: an entry that it had beaten, fetched after the
      reconcile, brings the file back under a key below the tombstone's. */
  lemma CollectedTombstonesForget(sha: Sha, n: Node, re: Entry, r: Replies, now: Time, gcNow: Time, ttl: int, later: Time)
    requires re.path in n.index && re.path !in n.disk
    requires 0 < ttl && Expired(n.index[re.path], gcNow - ttl)
    requires Wins(re, n.index[re.path]) && !re.deleted && 0 < re.mode < 512
    requires re.modTime != ZERO_TIME && re.updatedAt != ZERO_TIME && ZERO_TIME < now && ZERO_TIME < later
    requires PullAndVerify(sha, re.hash, false, r).Ok?
    ensures var scan, fetch := Rescan(now, gcNow, ttl), Fetch(re, false, r, later);
            var mid := Step(sha, n, scan);
            var end := Step(sha, mid, fetch);
            && IsRun(sha, [n, mid, end], [scan, fetch])
            && re.path !in mid.index
            && re.path in end.index && !end.index[re.path].deleted && re.path in end.disk
            && Below(KeyOf(end.index[re.path]), KeyOf(n.index[re.path]))
  {
    var scan, fetch := Rescan(now, gcNow, ttl), Fetch(re, false, r, later);
    var mid := Step(sha, n, scan);
    StepAt(sha, n, scan, re.path);
    StepAt(sha, mid, fetch, re.path);
    assert At(mid, re.path) == Slot(None, None);
    WinsIsBelow(re, n.index[re.path]);
    assert KeyOf(At(Step(sha, mid, fetch), re.path).entry.value) == KeyOf(re);
  }

  /** A live entry leaves the index in one case only: its file is gone, and the reconcile that
      buries it takes longer than tombstones are kept. */
  lemma LiveEntriesStay(sha: Sha, n: Node, ev: Event, p: Path)
    requires Enabled(n, ev) && Live(At(n, p))
    ensures p !in Step(sha, n, ev).index
       <==> ev.Rescan? && p !in n.disk && 0 < ev.ttl && ev.now < ev.gcNow - ev.ttl
  {
    StepAt(sha, n, ev, p);
    assert p in Step(sha, n, ev).index <==> SlotStep(sha, At(n, p), ev, p).entry.Some?;
  }

  /** In every reachable state the modes of live entries were read back from files. */
  ghost predicate AllModesPlain(n: Node) {
    forall p :: PlainLiveMode(At(n, p))
  }

  lemma StepKeepsModes(sha: Sha, n: Node, ev: Event)
    requires AllModesPlain(n) && Enabled(n, ev)
    ensures AllModesPlain(Step(sha, n, ev))
  {
    forall p ensures PlainLiveMode(At(Step(sha, n, ev), p)) {
      StepAt(sha, n, ev, p);
      assert PlainLiveMode(At(n, p));
    }
  }

  lemma {:induction false} ModesStayPlain(sha: Sha, states: seq<Node>, events: seq<Event>, i: nat)
    requires IsRun(sha, states, events) && AllModesPlain(states[0])
    requires i < |states|
    ensures AllModesPlain(states[i])
  {
    if i == 0 {
    } else {
      ModesStayPlain(sha, states, events, i - 1);
      var ev := events[i - 1];
      StepKeepsModes(sha, states[i - 1], ev);
    }
  }

  /** A tombstone of a path without a file is dropped exactly when collection is on and the
      deletion, or the last update where no deletion time is known, is longer ago than tombstones
      are kept. */
  lemma TombstonesAge(sha: Sha, n: Node, p: Path, now: Time, gcNow: Time, ttl: int)
    requires p in n.index && n.index[p].deleted && p !in n.disk
    ensures var e := n.index[p];
            var since := if e.deletedAt != ZERO_TIME then e.deletedAt else e.updatedAt;
            p !in Step(sha, n, Rescan(now, gcNow, ttl)).index <==> 0 < ttl && since != ZERO_TIME && gcNow - since > ttl
  {
    StepAt(sha, n, Rescan(now, gcNow, ttl), p);
    var after := Step(sha, n, Rescan(now, gcNow, ttl));
    assert p in after.index <==> At(after, p).entry.Some?;
  }

  // ---------------------------------------------------------------- Unscanned edits survive

  /** The user creates, changes or deletes the file at p. */
  predicate Edits(ev: Event, p: Path) {
    (ev.Write? || ev.Remove?) && ev.path == p
  }

  /** A step by a peer, or by the user on another path. */
  predicate LeavesToPeers(ev: Event, p: Path) {
    !Edits(ev, p) && !ev.Rescan?
  }

  lemma UnsyncedStays(sha: Sha, n: Node, ev: Event, p: Path)
    requires Unsynced(At(n, p)) && LeavesToPeers(ev, p)
    ensures Unsynced(At(Step(sha, n, ev), p))
    ensures Step(sha, n, ev).disk[p] == n.disk[p]
    ensures PrevUpdated(At(n, p)) <= PrevUpdated(At(Step(sha, n, ev), p)) || p !in n.index
    ensures p in n.index ==> p in Step(sha, n, ev).index
  {
    StepAt(sha, n, ev, p);
    match ev
    case Hear(re) =>
      UnsyncedHoldsBack(sha, At(n, p), re, false, Replies(Logical, Logical, Logical), ZERO_TIME);
    case Fetch(re, useDelta, r, now) => UnsyncedHoldsBack(sha, At(n, p), re, useDelta, r, now);
    case _ =>
  }

  lemma {:induction false} UnsyncedFileIsKept(sha: Sha, states: seq<Node>, events: seq<Event>, i: nat, j: nat, p: Path)
    requires IsRun(sha, states, events) && i <= j < |states|
    requires Unsynced(At(states[0], p))
    requires forall k | 0 <= k < |events| :: LeavesToPeers(events[k], p)
    ensures Unsynced(At(states[j], p)) && Unsynced(At(states[i], p))
    ensures states[j].disk[p] == states[0].disk[p]
    ensures p in states[i].index ==>
              p in states[j].index && states[i].index[p].updatedAt <= states[j].index[p].updatedAt
    decreases j
  {
    if j == 0 {
    } else if i < j {
      UnsyncedFileIsKept(sha, states, events, i, j - 1, p);
      var ev := events[j - 1];
      UnsyncedStays(sha, states[j - 1], ev, p);
    } else {
      UnsyncedFileIsKept(sha, states, events, j - 1, j - 1, p);
      var ev := events[j - 1];
      UnsyncedStays(sha, states[j - 1], ev, p);
    }
  }

  /** No unscanned create or edit is lost: however peers' steps interleave, the file is still
      there, and the next reconcile records its own hash, later than anything peers installed. */
  lemma UnscannedEditsSurvive(sha: Sha, states: seq<Node>, events: seq<Event>, p: Path, now: Time, gcNow: Time, ttl: int)
    requires IsRun(sha, states, events)
    requires Unsynced(At(states[0], p)) && ZERO_TIME < now
    requires forall k | 0 <= k < |events| :: LeavesToPeers(events[k], p)
    ensures var end := Step(sha, states[|events|], Rescan(now, gcNow, ttl));
            && p in end.disk && end.disk[p] == states[0].disk[p]
            && p in end.index && !end.index[p].deleted
            && end.index[p].hash == sha(states[0].disk[p].bytes)
            && forall i | 0 <= i < |states| && p in states[i].index ::
                 states[i].index[p].updatedAt < end.index[p].updatedAt
  {
    var last := |events|;
    var s := At(states[last], p);
    StepAt(sha, states[last], Rescan(now, gcNow, ttl), p);
    UnsyncedFileIsKept(sha, states, events, last, last, p);
    ScanChangeWins(sha, s, p, now);
    forall i | 0 <= i < |states| && p in states[i].index
      ensures p in states[last].index && states[i].index[p].updatedAt <= states[last].index[p].updatedAt
    {
      UnsyncedFileIsKept(sha, states, events, i, last, p);
    }
  }

  /** ... for every edit that leaves another size or time than the index has, or a file where the
      index has none: the run starts with the write itself. */
  lemma AnyEditSurvives(sha: Sha, states: seq<Node>, events: seq<Event>, p: Path, f: File, now: Time, gcNow: Time, ttl: int)
    requires IsRun(sha, states, events) && 0 < |events| && events[0] == Write(p, f) && ZERO_TIME < now
    requires p in states[0].index && !states[0].index[p].deleted ==>
               states[0].index[p].size != |f.bytes| || states[0].index[p].modTime != f.mtime
    requires forall k | 1 <= k < |events| :: LeavesToPeers(events[k], p)
    ensures var end := Step(sha, states[|events|], Rescan(now, gcNow, ttl));
            && p in end.disk && end.disk[p] == f
            && p in end.index && !end.index[p].deleted && end.index[p].hash == sha(f.bytes)
  {
    StepAt(sha, states[0], events[0], p);
    assert IsRun(sha, states[1..], events[1..]) by {
      forall i {:trigger events[1..][i]} | 0 <= i < |events[1..]|
        ensures Enabled(states[1..][i], events[1..][i]) && states[1..][i + 1] == Step(sha, states[1..][i], events[1..][i])
      {
        assert events[1..][i] == events[i + 1];
      }
    }
    UnscannedEditsSurvive(sha, states[1..], events[1..], p, now, gcNow, ttl);
  }

  // ---------------------------------------------------------------- Reconcile, over all paths

  /** After a reconcile the live index lists exactly the files on disk, with their size, mode,
      time and hash; the disk is untouched and a further scan finds nothing anywhere. */
  lemma RescanIsExact(sha: Sha, n: Node, now: Time, gcNow: Time, ttl: int, later: Time)
    requires AllCachesAgree(sha, n) && ZERO_TIME < now
    ensures var end := Step(sha, n, Rescan(now, gcNow, ttl));
            && end.disk == n.disk
            && (set p | p in end.index && !end.index[p].deleted) == end.disk.Keys
            && forall p :: Exact(sha, At(end, p)) && ScanChange(sha, At(end, p), p, later).None?
  {
    var end := Step(sha, n, Rescan(now, gcNow, ttl));
    forall p
      ensures Exact(sha, At(end, p)) && ScanChange(sha, At(end, p), p, later).None?
      ensures p in end.disk <==> p in end.index && !end.index[p].deleted
    {
      StepAt(sha, n, Rescan(now, gcNow, ttl), p);
      assert CacheAgrees(sha, At(n, p));
      ReconcileIsExact(sha, At(n, p), p, now, gcNow, ttl, later);
      assert Exact(sha, At(end, p));
    }
  }

  /** A settled path stays settled through every step but an edit of it. */
  lemma StepKeepsSettled(sha: Sha, n: Node, ev: Event, p: Path)
    requires Enabled(n, ev) && CacheAgrees(sha, At(n, p))
    requires Settled(At(n, p)) && !Edits(ev, p)
    ensures Settled(At(Step(sha, n, ev), p))
  {
    StepAt(sha, n, ev, p);
    if ev.Rescan? {
      ReconcileIsExact(sha, At(n, p), p, ev.now, ev.gcNow, ev.ttl, ev.now);
    }
  }

  // ---------------------------------------------------------------- Notifies that are ignored

  predicate AlreadyHaveAll(files: Files, hints: seq<Entry>) {
    forall h | h in hints :: h.path in files && !Wins(files[h.path], h)
  }

  /** A covered hint leads to no transfer, and neither hearing it nor bytes fetched for it, whatever
      they are, change anything. */
  lemma CoveredIsInert(sha: Sha, n: Node, e: Entry)
    requires e.path in n.index && !Wins(n.index[e.path], e)
    ensures !Decide(At(n, e.path), e).Content?
    ensures Step(sha, n, Hear(e)) == n
    ensures forall useDelta, r, now :: Step(sha, n, Fetch(e, useDelta, r, now)) == n
  {
    assert With(n, e.path, At(n, e.path)) == n;
    assert Receive(At(n, e.path), e) == At(n, e.path);
  }

  function RunAll(sha: Sha, n: Node, evs: seq<Event>): Node
    decreases |evs|
  {
    if evs == [] then n else RunAll(sha, Step(sha, n, evs[0]), evs[1..])
  }

  /** Ignoring a notify is safe: if a node covers all its hints, none of them asks for a transfer, and
      hearing and fetching them, in any order, mix and number, changes nothing. */
  lemma {:induction false} IgnoringIsSafe(sha: Sha, n: Node, hints: seq<Entry>, evs: seq<Event>)
    requires AlreadyHaveAll(n.index, hints)
    requires forall ev | ev in evs :: (ev.Hear? || ev.Fetch?) && ev.re in hints
    ensures forall h | h in hints :: !Decide(At(n, h.path), h).Content?
    ensures RunAll(sha, n, evs) == n
    decreases |evs|
  {
    forall h | h in hints ensures !Decide(At(n, h.path), h).Content? {
      CoveredIsInert(sha, n, h);
    }
    if evs == [] {
    } else {
      var ev := evs[0];
      assert ev in evs;
      CoveredIsInert(sha, n, ev.re);
      IgnoringIsSafe(sha, n, hints, evs[1..]);
    }
  }

  lemma {:induction false} PutAllUnchanged(files: Files, hints: seq<Entry>)
    requires AlreadyHaveAll(files, hints)
    ensures PutAll(files, hints) == files
  {
    if hints == [] {
    } else {
      PutAllUnchanged(files, hints[..|hints| - 1]);
      assert hints[|hints| - 1] in hints;
    }
  }

  /** The test is exact for the index: it holds just when offering the hints changes nothing. */
  lemma {:induction false} AlreadyHaveAllIsExact(files: Files, hints: seq<Entry>)
    ensures AlreadyHaveAll(files, hints) <==> PutAll(files, hints) == files
  {
    if AlreadyHaveAll(files, hints) {
      PutAllUnchanged(files, hints);
    } else if PutAll(files, hints) == files {
      var h :| h in hints && !(h.path in files && !Wins(files[h.path], h));
      PutAllKeepsLatest(files, hints, h.path);
      assert h in Offered(files, EntriesOf(hints), h.path);
      LosesIsAtMost(files[h.path], h);
    }
  }
}
