/** The daemon object: its index and sync directory, updated in place by the reconcile and
    apply operations. Each method is one critical section of the source. */
module Daemons {
  import opened Bytes
  import opened Lww
  import opened FileIndex
  import opened Replica
  import opened ReplicaSteps
  import opened Nodes

  // ---------------------------------------------------------------- Applying a list of changes

  predicate DistinctPaths(es: seq<Entry>) {
    forall i, j | 0 <= i < j < |es| :: es[i].path != es[j].path
  }

  /** Offering entries with distinct paths decides each path on its own. */
  lemma {:induction false} PutAllAt(files: Files, es: seq<Entry>, p: Path)
    requires DistinctPaths(es)
    ensures (forall e | e in es :: e.path != p) ==>
              (p in PutAll(files, es) <==> p in files) && (p in files ==> PutAll(files, es)[p] == files[p])
    ensures forall e | e in es && e.path == p ::
              p in PutAll(files, es)
              && PutAll(files, es)[p] == if p in files && !Wins(files[p], e) then files[p] else e
  {
    if es == [] {
    } else {
      var init, last := es[..|es| - 1], es[|es| - 1];
      PutAllAt(files, init, p);
      assert forall e :: e in es <==> e in init || e == last;
    }
  }

  predicate WinsIn(files: Files, e: Entry) {
    e.path !in files || Wins(files[e.path], e)
  }

  /** The entries that win when es are offered one after another, in order. */
  function Winners(files: Files, es: seq<Entry>): seq<Entry> {
    if es == [] then []
    else
      var init, last := es[..|es| - 1], es[|es| - 1];
      Winners(files, init) + if WinsIn(PutAll(files, init), last) then [last] else []
  }

  /** With distinct paths, entries that win against files all win. */
  lemma {:induction false} AllWinnersWin(files: Files, es: seq<Entry>)
    requires DistinctPaths(es) && forall e | e in es :: WinsIn(files, e)
    ensures Winners(files, es) == es
  {
    if es == [] {
    } else {
      var init, last := es[..|es| - 1], es[|es| - 1];
      AllWinnersWin(files, init);
      PutAllAt(files, init, last.path);
      assert last in es;
      assert init + [last] == es;
    }
  }

  /** changes holds the scan's change for each path in done that has one, and nothing else. */
  ghost predicate ScannedSoFar(sha: Sha, n: Node, now: Time, changes: seq<Entry>, done: set<Path>) {
    && DistinctPaths(changes)
    && (forall e {:trigger e in changes} | e in changes ::
          e.path in done && ScanChange(sha, At(n, e.path), e.path, now) == Some(e))
    && (forall p {:trigger p in done} | p in done && ScanChange(sha, At(n, p), p, now).Some? ::
          ScanChange(sha, At(n, p), p, now).value in changes)
  }

  /** changes is what a scan of n reports: one entry for each path that has a change. */
  ghost predicate IsScan(sha: Sha, n: Node, now: Time, changes: seq<Entry>) {
    ScannedSoFar(sha, n, now, changes, n.index.Keys + n.disk.Keys)
  }

  predicate PathsMatch(files: Files) {
    forall p | p in files :: files[p].path == p
  }

  lemma ScanOneMore(sha: Sha, n: Node, now: Time, changes: seq<Entry>, done: set<Path>, p: Path)
    requires ScannedSoFar(sha, n, now, changes, done) && p !in done && PathsMatch(n.index)
    ensures var c := ScanChange(sha, At(n, p), p, now);
            ScannedSoFar(sha, n, now, if c.Some? then changes + [c.value] else changes, done + {p})
  {
    var c := ScanChange(sha, At(n, p), p, now);
    if c.Some? {
      assert c.value.path == p;
      forall i | 0 <= i < |changes| ensures changes[i].path != p {
        assert changes[i] in changes;
      }
    }
  }

  function EntryAt(files: Files, p: Path): Option<Entry> {
    if p in files then Some(files[p]) else None
  }

  lemma ScannedPut(sha: Sha, n: Node, changes: seq<Entry>, now: Time, p: Path)
    requires IsScan(sha, n, now, changes) && PathsMatch(n.index)
    ensures EntryAt(PutAll(n.index, changes), p) == ScanApply(sha, At(n, p), p, now).entry
  {
    PutAllAt(n.index, changes, p);
    var c := ScanChange(sha, At(n, p), p, now);
    if c.Some? {
      assert p in n.index.Keys + n.disk.Keys;
      assert c.value in changes && c.value.path == p;
    } else {
      assert forall e | e in changes :: e.path != p;
    }
  }

  lemma SameEntries(a: Files, b: Files)
    requires forall p :: EntryAt(a, p) == EntryAt(b, p)
    ensures a == b
  {
    assert forall p :: p in a <==> EntryAt(a, p).Some?;
    assert forall p :: p in b <==> EntryAt(b, p).Some?;
    assert forall p | p in a :: EntryAt(a, p) == Some(a[p]) && EntryAt(b, p) == Some(b[p]);
  }

  lemma CollectedAt(files: Files, gcNow: Time, ttl: int, p: Path, file: Option<File>)
    ensures EntryAt(DropExpired(files, gcNow, ttl), p) == DropTombstone(Slot(EntryAt(files, p), file), gcNow, ttl).entry
  {
  }

  lemma ReconciledAt(sha: Sha, n: Node, now: Time, gcNow: Time, ttl: int, p: Path)
    ensures EntryAt(ReconciledIndex(sha, n, now, gcNow, ttl), p) == Reconcile(sha, At(n, p), p, now, gcNow, ttl).entry
  {
    StepAt(sha, n, Rescan(now, gcNow, ttl), p);
  }

  /** Scanning, offering the changes and collecting gives the index of the atomic step. */
  lemma ScanApplyCollect(sha: Sha, n: Node, changes: seq<Entry>, now: Time, gcNow: Time, ttl: int)
    requires IsScan(sha, n, now, changes) && PathsMatch(n.index)
    ensures DropExpired(PutAll(n.index, changes), gcNow, ttl) == ReconciledIndex(sha, n, now, gcNow, ttl)
  {
    var put := PutAll(n.index, changes);
    forall p ensures EntryAt(DropExpired(put, gcNow, ttl), p) == EntryAt(ReconciledIndex(sha, n, now, gcNow, ttl), p) {
      ScannedPut(sha, n, changes, now, p);
      CollectedAt(put, gcNow, ttl, p, ScanApply(sha, At(n, p), p, now).file);
      ReconciledAt(sha, n, now, gcNow, ttl, p);
    }
    SameEntries(DropExpired(put, gcNow, ttl), ReconciledIndex(sha, n, now, gcNow, ttl));
  }

  lemma AllChangesWin(sha: Sha, n: Node, changes: seq<Entry>, now: Time)
    requires IsScan(sha, n, now, changes) && ZERO_TIME < now
    ensures forall e | e in changes :: WinsIn(n.index, e)
  {
    forall e | e in changes ensures WinsIn(n.index, e) {
      ScanChangeWins(sha, At(n, e.path), e.path, now);
    }
  }

  lemma ReconciledPathsMatch(sha: Sha, n: Node, now: Time, gcNow: Time, ttl: int)
    requires PathsMatch(n.index)
    ensures PathsMatch(ReconciledIndex(sha, n, now, gcNow, ttl))
  {
  }

  class Daemon {
    const idx: Index
    const sha: Sha
    var disk: map<Path, File>

    constructor (idx: Index, sha: Sha, disk: map<Path, File>)
      ensures this.idx == idx && this.sha == sha && this.disk == disk
    {
      this.idx, this.sha, this.disk := idx, sha, disk;
    }

    ghost function View(): Node
      reads this, idx
    {
      Node(idx.files, disk)
    }

    /** Every entry is stored under its own path. */
    ghost predicate Valid()
      reads idx
    {
      PathsMatch(idx.files)
    }

    method DiskUnsynced(rel: Path, cur: Entry, hasLive: bool) returns (unsynced: bool)
      ensures unsynced <==> Unsynced(Slot(if hasLive then Some(cur.(deleted := false)) else None, At(View(), rel).file))
    {
      if rel !in disk {
        return false;
      }
      var fi := disk[rel];
      if !hasLive {
        return true;
      }
      return |fi.bytes| != cur.size || fi.mtime != cur.modTime;
    }

    method ExecDeleteLive(re: Entry) returns (changed: bool)
      requires Valid()
      modifies this`disk, idx
      ensures Valid()
      ensures View() == With(old(View()), re.path, Replica.ExecDeleteLive(old(At(View(), re.path)), re))
      ensures !changed ==> View() == old(View())
    {
      var cur := idx.Get(re.path);
      if cur.Some? && !Wins(cur.value, re) {
        return false;
      }
      var hasLive := cur.Some? && !cur.value.deleted;
      var unsynced := DiskUnsynced(re.path, if cur.Some? then cur.value else re, hasLive);
      if unsynced {
        return false;
      }
      disk := disk - {re.path};
      changed := idx.SetIfWins(re);
    }

    method ExecMetaOnly(local: Entry, re: Entry) returns (changed: bool)
      requires Valid()
      requires re.path in idx.files && idx.files[re.path] == local && !local.deleted
      requires re.path in disk
      modifies this`disk, idx
      ensures Valid()
      ensures View() == With(old(View()), re.path, Replica.ExecMetaOnly(old(At(View(), re.path)), re))
      ensures !changed ==> View() == old(View())
    {
      var unsynced := DiskUnsynced(re.path, local, true);
      if unsynced {
        return false;
      }
      var mode := FileMode(re.mode);
      if re.modTime != ZERO_TIME {
        disk := disk[re.path := disk[re.path].(mtime := re.modTime)];
      }
      disk := disk[re.path := disk[re.path].(perm := mode % 512)];
      var (actualMode, actualMT) := DiskMeta(disk[re.path], mode, re.modTime, local.modTime);
      var _ := idx.Set(local.(updatedAt := re.updatedAt, modTime := actualMT, mode := actualMode));
      return true;
    }

    method CommitContent(re: Entry, data: seq<Byte>, got: string, now: Time) returns (changed: bool)
      requires Valid()
      modifies this`disk, idx
      ensures Valid()
      ensures View() == With(old(View()), re.path, Replica.CommitContent(old(At(View(), re.path)), re, data, got, now))
      ensures !changed ==> View() == old(View())
    {
      var cur := idx.Get(re.path);
      if cur.Some? && !Wins(cur.value, re) {
        return false;
      }
      var hasLive := cur.Some? && !cur.value.deleted;
      var unsynced := DiskUnsynced(re.path, if cur.Some? then cur.value else re, hasLive);
      if unsynced {
        return false;
      }
      var mode := FileMode(re.mode);
      disk := disk[re.path := File(data, now, mode % 512)];
      if re.modTime != ZERO_TIME {
        disk := disk[re.path := disk[re.path].(mtime := re.modTime)];
      }
      var fallbackMT := if re.modTime == ZERO_TIME && hasLive then cur.value.modTime else re.modTime;
      var (actualMode, actualMT) := DiskMeta(disk[re.path], mode, re.modTime, fallbackMT);
      var entry := re.(hash := got, size := |data|, mode := actualMode, modTime := actualMT);
      if entry.updatedAt == ZERO_TIME {
        entry := entry.(updatedAt := now);
      }
      var _ := idx.Set(entry);
      return true;
    }

    /** applyRemote up to the unlock; pull says whether bytes must be fetched, and how. */
    method ApplyRemote(re: Entry) returns (changed: bool, pull: Option<bool>)
      requires Valid()
      modifies this`disk, idx
      ensures Valid()
      ensures View() == Step(sha, old(View()), Hear(re))
      ensures !changed ==> View() == old(View())
      ensures pull.Some? <==> (re.deleted || re.hash != "") && Decide(old(At(View(), re.path)), re).Content?
      ensures pull.Some? ==> pull.value == Decide(old(At(View(), re.path)), re).useDelta
    {
      changed, pull := false, None;
      assert With(View(), re.path, At(View(), re.path)) == View();
      if !re.deleted && re.hash == "" {
        return;
      }
      var local := idx.Get(re.path);
      var diskPresent := local.Some? && !local.value.deleted && !re.deleted && local.value.hash == re.hash && re.path in disk;
      var decision := DecideApply(local, re, diskPresent);
      match decision {
        case Noop =>
        case Tombstone =>
          changed := idx.SetIfWins(re);
        case DeleteLive =>
          changed := ExecDeleteLive(re);
        case MetaOnly =>
          changed := ExecMetaOnly(local.value, re);
        case Content(useDelta) =>
          pull := Some(useDelta);
      }
    }

    /** applyRemote from the transfer on. */
    method FinishRemote(re: Entry, useDelta: bool, replies: Replies, now: Time) returns (changed: bool)
      requires Valid()
      modifies this`disk, idx
      ensures Valid()
      ensures View() == Step(sha, old(View()), Fetch(re, useDelta, replies, now))
      ensures !changed ==> View() == old(View())
    {
      assert With(View(), re.path, At(View(), re.path)) == View();
      var got := PullAndVerify(sha, re.hash, useDelta, replies);
      if got.Err? {
        return false;
      }
      changed := CommitContent(re, got.value, sha(got.value), now);
    }

    /** The walk: every file on disk as the entry a scan would record for it. */
    method Walk(now: Time) returns (seen: Files)
      ensures seen.Keys == disk.Keys
      ensures forall p | p in seen :: seen[p] == ScannedEntry(sha, At(View(), p), p, now)
    {
      seen := map[];
      var todo := disk.Keys;
      while todo != {}
        invariant todo <= disk.Keys
        invariant seen.Keys == disk.Keys - todo
        invariant forall p | p in seen :: seen[p] == ScannedEntry(sha, At(View(), p), p, now)
        decreases todo
      {
        var rel :| rel in todo;
        var fi := disk[rel];
        var prev := idx.Get(rel);
        var hash;
        if prev.Some? && !prev.value.deleted && prev.value.size == |fi.bytes| && prev.value.modTime == fi.mtime
           && prev.value.hash != "" {
          hash := prev.value.hash;
        } else {
          hash := sha(fi.bytes);
        }
        var prevUpdated := if prev.Some? then prev.value.updatedAt else ZERO_TIME;
        seen := seen[rel := Entry(rel, |fi.bytes|, fi.mtime, fi.perm, hash, false, ZERO_TIME,
                                  Stamp(now, fi.mtime, prevUpdated))];
        todo := todo - {rel};
      }
    }

    /** Live entries without a file become tombstones. */
    method ScanDeletions(now: Time, seen: set<Path>, changes0: seq<Entry>) returns (changes: seq<Entry>)
      requires Valid() && seen == disk.Keys
      requires ScannedSoFar(sha, View(), now, changes0, seen)
      ensures IsScan(sha, View(), now, changes)
    {
      changes := changes0;
      var todo := idx.files.Keys - seen;
      ghost var done := seen;
      while todo != {}
        invariant todo <= idx.files.Keys - seen && done == seen + idx.files.Keys - todo
        invariant ScannedSoFar(sha, View(), now, changes, done)
        decreases todo
      {
        var path :| path in todo;
        var prev := idx.files[path];
        ScanOneMore(sha, View(), now, changes, done, path);
        if !prev.deleted {
          changes := changes + [prev.(deleted := true, deletedAt := now, updatedAt := Stamp(now, ZERO_TIME, prev.updatedAt),
                                      size := 0, hash := "")];
        }
        todo, done := todo - {path}, done + {path};
      }
      assert done == idx.files.Keys + disk.Keys;
    }

    /** Compares the walk with the index: additions and modifications, then deletions. */
    method Scan(now: Time) returns (changes: seq<Entry>)
      requires Valid()
      ensures IsScan(sha, View(), now, changes)
    {
      var seen := Walk(now);
      changes := [];
      var todo := seen.Keys;
      ghost var done: set<Path> := {};
      while todo != {}
        invariant todo <= seen.Keys && done == seen.Keys - todo
        invariant ScannedSoFar(sha, View(), now, changes, done)
        decreases todo
      {
        var path :| path in todo;
        var de := seen[path];
        var prev := idx.Get(path);
        ScanOneMore(sha, View(), now, changes, done, path);
        if prev.None? || prev.value.deleted
           || prev.value.hash != de.hash || prev.value.size != de.size
           || prev.value.mode != de.mode || prev.value.modTime != de.modTime {
          changes := changes + [de];
        }
        todo, done := todo - {path}, done + {path};
      }
      assert done == seen.Keys;
      changes := ScanDeletions(now, seen.Keys, changes);
    }

    /** Offers the changes one by one and returns those that won. */
    method Apply(changes: seq<Entry>) returns (applied: seq<Entry>)
      modifies idx
      ensures idx.files == PutAll(old(idx.files), changes)
      ensures applied == Winners(old(idx.files), changes)
    {
      applied := [];
      ghost var before := idx.files;
      for i := 0 to |changes|
        invariant idx.files == PutAll(before, changes[..i])
        invariant applied == Winners(before, changes[..i])
      {
        assert changes[..i + 1][..i] == changes[..i];
        var won := idx.SetIfWins(changes[i]);
        if won {
          applied := applied + [changes[i]];
        }
      }
      assert changes[..|changes|] == changes;
    }

    /** Scan, apply and collect under one lock: exactly the atomic step of the state machine.
        The hints for peers are all the changes the scan found. */
    method Reconcile(now: Time, gcNow: Time, ttl: int) returns (changed: bool, hints: seq<Entry>)
      requires Valid()
      modifies idx
      ensures Valid()
      ensures View() == Step(sha, old(View()), Rescan(now, gcNow, ttl))
      ensures changed <==> hints != []
      ensures ZERO_TIME < now ==> IsScan(sha, old(View()), now, hints)
    {
      var changes := Scan(now);
      ghost var n := View();
      hints := Apply(changes);
      changed := |hints| > 0;
      var removed := idx.GCTombstones(gcNow, ttl);
      ScanApplyCollect(sha, n, changes, now, gcNow, ttl);
      ReconciledPathsMatch(sha, n, now, gcNow, ttl);
      if ZERO_TIME < now {
        AllChangesWin(sha, n, changes, now);
        AllWinnersWin(n.index, changes);
      }
    }
  }
}
