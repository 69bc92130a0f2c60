/** What every single step on a path keeps. */
module ReplicaSteps {
  import opened Bytes
  import opened Lww
  import opened Replica

  /** Whenever size and time match the disk, the recorded hash is the hash of the bytes. */
  predicate CacheAgrees(sha: Sha, s: Slot) {
    s.entry.Some? && s.file.Some? && Tracks(s.entry.value, s.file.value) ==> s.entry.value.hash == sha(s.file.value.bytes)
  }

  /** The file on disk is the one the index lists, or both say there is none. */
  predicate Settled(s: Slot) {
    !Unsynced(s) && (Live(s) ==> s.file.Some?)
  }

  // ---------------------------------------------------------------- The stored key never decreases

  ghost predicate Grows(a: Option<Entry>, b: Option<Entry>) {
    a.Some? ==> b.Some? && AtMost(KeyOf(a.value), KeyOf(b.value))
  }

  lemma OfferGrows(s: Slot, e: Entry)
    ensures Grows(s.entry, Offer(s, e).entry)
  {
    if s.entry.Some? {
      WinsIsBelow(s.entry.value, e);
    }
  }

  /** The mode recorded after a write is at least the mode that won. */
  predicate KeepsMode(re: Entry) {
    re.mode < 512 || re.mode % 512 == 0
  }

  /** A live entry has a mode that was read back from a file. */
  predicate PlainLiveMode(s: Slot) {
    Live(s) ==> KeepsMode(s.entry.value)
  }

  lemma ReceiveGrows(s: Slot, re: Entry)
    requires re.deleted || re.hash == "" || KeepsMode(re)
    ensures Grows(s.entry, Receive(s, re).entry)
  {
    OfferGrows(s, re);
    OfferGrows(s.(file := None), re);
    if s.entry.Some? {
      WinsIsBelow(s.entry.value, re);
    }
  }

  /** For an entry whose hash some bytes have, a metadata adopt can lower the key of a slot as it
      may occur, with a true hash and a mode once read back, just when the winning mode has bits besides the permissions and some permission
      bits too: the permissions alone are recorded. */
  lemma ReceiveGrowsExactly(sha: Sha, re: Entry, data: seq<Byte>)
    requires re.hash == sha(data)
    ensures (forall s: Slot | CacheAgrees(sha, s) && PlainLiveMode(s) :: Grows(s.entry, Receive(s, re).entry))
       <==> re.deleted || re.hash == "" || KeepsMode(re)
  {
    if re.deleted || re.hash == "" || KeepsMode(re) {
      forall s: Slot | CacheAgrees(sha, s) && PlainLiveMode(s) ensures Grows(s.entry, Receive(s, re).entry) {
        ReceiveGrows(s, re);
      }
    } else {
      var cur := re.(mode := re.mode - re.mode % 512, size := |data|);
      var s := Slot(Some(cur), Some(File(data, cur.modTime, 0)));
      WinsIsBelow(cur, re);
      var after := Receive(s, re).entry.value;
      assert after.mode == re.mode % 512 < cur.mode;
      BelowIsStrictTotal(KeyOf(cur), KeyOf(after), KeyOf(cur));
      assert CacheAgrees(sha, s) && PlainLiveMode(s) && !Grows(s.entry, Receive(s, re).entry);
    }
  }

  lemma CommitGrows(s: Slot, re: Entry, data: seq<Byte>, now: Time)
    requires !re.deleted && ZERO_TIME < now
    requires KeepsMode(re) || re.updatedAt == ZERO_TIME
    ensures Grows(s.entry, CommitContent(s, re, data, re.hash, now).entry)
  {
    if s.entry.Some? && Wins(s.entry.value, re) && !Unsynced(s) {
      WinsIsBelow(s.entry.value, re);
      var after := WrittenEntry(s, re, data, re.hash, now);
      assert AtMost(KeyOf(re), KeyOf(after));
      AtMostTransitive(KeyOf(s.entry.value), KeyOf(re), KeyOf(after));
    }
  }

  /** A content commit can lower the key of a slot as it may occur just when the remote mode has bits besides the permissions
      and some permission bits too: the permissions alone are recorded. */
  lemma CommitGrowsExactly(re: Entry, data: seq<Byte>, now: Time)
    requires !re.deleted && ZERO_TIME < now
    ensures (forall s: Slot | PlainLiveMode(s) :: Grows(s.entry, CommitContent(s, re, data, re.hash, now).entry))
       <==> KeepsMode(re) || re.updatedAt == ZERO_TIME
  {
    if KeepsMode(re) || re.updatedAt == ZERO_TIME {
      forall s: Slot | PlainLiveMode(s) ensures Grows(s.entry, CommitContent(s, re, data, re.hash, now).entry) {
        CommitGrows(s, re, data, now);
      }
    } else {
      var cur := re.(mode := re.mode - re.mode % 512);
      var s := Slot(Some(cur), None);
      WinsIsBelow(cur, re);
      var after := CommitContent(s, re, data, re.hash, now).entry.value;
      assert after.mode == re.mode % 512 < cur.mode;
      BelowIsStrictTotal(KeyOf(cur), KeyOf(after), KeyOf(cur));
      assert PlainLiveMode(s) && !Grows(s.entry, CommitContent(s, re, data, re.hash, now).entry);
    }
  }

  lemma ScanGrows(sha: Sha, s: Slot, p: Path, now: Time)
    ensures Grows(s.entry, ScanApply(sha, s, p, now).entry)
  {
    var c := ScanChange(sha, s, p, now);
    if c.Some? {
      OfferGrows(s, c.value);
    }
  }

  // ---------------------------------------------------------------- Winners that are ignored

  predicate SameButTime(a: Entry, b: Entry) {
    !a.deleted && !b.deleted && a.hash == b.hash && a.mode == b.mode && a.updatedAt == b.updatedAt
  }

  /** b differs from a in nothing but a later time that is unset or within the same second. */
  predicate Exempt(a: Entry, b: Entry) {
    && SameButTime(a, b)
    && a.modTime < b.modTime
    && (b.modTime == ZERO_TIME || (a.modTime != ZERO_TIME && a.modTime / SECOND == b.modTime / SECOND))
  }

  /** The decision departs from the order in one case only: live entries that differ in nothing
      but a modification time that is unset or within the same second. */
  lemma IgnoredWinners(local: Entry, re: Entry, diskPresent: bool)
    ensures Wins(local, re) && DecideApply(Some(local), re, diskPresent).Noop? <==> Exempt(local, re)
  {
    CompareStringsMeans(re.hash, local.hash);
  }

  /** So two nodes that differ only below the second keep that difference, whoever hears whom. */
  lemma SubsecondTimesStay(s: Slot, t: Slot)
    requires Live(s) && Live(t) && SameButTime(s.entry.value, t.entry.value)
    requires s.entry.value.modTime != ZERO_TIME && t.entry.value.modTime != ZERO_TIME
    requires s.entry.value.modTime / SECOND == t.entry.value.modTime / SECOND
    ensures Decide(s, t.entry.value).Noop? && Decide(t, s.entry.value).Noop?
    ensures Receive(s, t.entry.value) == s && Receive(t, s.entry.value) == t
  {
  }

  // ---------------------------------------------------------------- Reconcile is exact

  /** The live entry describes the file in every recorded respect, or neither exists. */
  predicate Exact(sha: Sha, s: Slot) {
    if s.file.None? then !Live(s)
    else
      && Live(s)
      && s.entry.value.size == |s.file.value.bytes|
      && s.entry.value.modTime == s.file.value.mtime
      && s.entry.value.mode == s.file.value.perm
      && s.entry.value.hash == sha(s.file.value.bytes)
  }

  /** Every change a scan reports wins against the entry it was found from. */
  lemma ScanChangeWins(sha: Sha, s: Slot, p: Path, now: Time)
    requires ZERO_TIME < now
    ensures var c := ScanChange(sha, s, p, now);
            c.Some? ==> PrevUpdated(s) < c.value.updatedAt && Offer(s, c.value).entry == c
  {
  }

  /** t is not before the clock or the file's time and is after the last stamp, if there is one. */
  predicate MayStamp(s: Slot, now: Time, t: Time) {
    && now <= t
    && (s.file.Some? ==> s.file.value.mtime <= t)
    && (s.entry.Some? && s.entry.value.updatedAt != ZERO_TIME ==> s.entry.value.updatedAt < t)
  }

  /** What a scan reports for a path. It is silent exactly when the entry describes the file in
      every respect or neither is there. Otherwise it reports the file as it is, or the entry
      turned into a tombstone of this moment, under the least stamp that may be given. */
  lemma ScanReports(sha: Sha, s: Slot, p: Path, now: Time)
    requires CacheAgrees(sha, s) && ZERO_TIME < now
    ensures ScanChange(sha, s, p, now).None? <==> Exact(sha, s)
    ensures ScanChange(sha, s, p, now).Some? ==>
              var c := ScanChange(sha, s, p, now).value;
              && MayStamp(s, now, c.updatedAt)
              && (forall t | MayStamp(s, now, t) :: c.updatedAt <= t)
              && if s.file.Some? then
                   var f := s.file.value;
                   c == Entry(p, |f.bytes|, f.mtime, f.perm, sha(f.bytes), false, ZERO_TIME, c.updatedAt)
                 else
                   var e := s.entry.value;
                   c == Entry(e.path, 0, e.modTime, e.mode, "", true, now, c.updatedAt)
  {
  }

  /** After a reconcile the live index is the disk, and scanning again reports nothing. */
  lemma ReconcileIsExact(sha: Sha, s: Slot, p: Path, now: Time, gcNow: Time, ttl: int, later: Time)
    requires ZERO_TIME < now && CacheAgrees(sha, s)
    ensures var end := Reconcile(sha, s, p, now, gcNow, ttl);
            end.file == s.file && Exact(sha, end) && ScanChange(sha, end, p, later).None?
  {
    ScanChangeWins(sha, s, p, now);
  }

  /** A scan after a commit that wrote reports nothing, exactly when the remote mode is not
      made of non-permission bits only. */
  lemma ScanAfterCommit(sha: Sha, s: Slot, re: Entry, data: seq<Byte>, now: Time, p: Path, later: Time)
    requires !re.deleted && sha(data) == re.hash && ZERO_TIME < now
    requires !(s.entry.Some? && !Wins(s.entry.value, re)) && !Unsynced(s)
    ensures ScanChange(sha, CommitContent(s, re, data, re.hash, now), p, later).None?
       <==> re.mode < 512 || re.mode % 512 != 0
  {
  }

  lemma ScanAfterMetaOnly(sha: Sha, s: Slot, re: Entry, p: Path, later: Time)
    requires CacheAgrees(sha, s) && Decide(s, re).MetaOnly? && !Unsynced(s)
    ensures ScanChange(sha, ExecMetaOnly(s, re), p, later).None?
       <==> re.mode < 512 || re.mode % 512 != 0
  {
  }

  // ---------------------------------------------------------------- Which files peers can touch

  /** With an unscanned file in the way nothing is written or removed, and at most a tombstone
      that wins is recorded. */
  lemma UnsyncedHoldsBack(sha: Sha, s: Slot, re: Entry, useDelta: bool, r: Replies, now: Time)
    requires Unsynced(s)
    ensures Finish(sha, s, re, useDelta, r, now) == s
    ensures Receive(s, re).file == s.file
    ensures Receive(s, re) != s ==>
              && re.deleted && Receive(s, re).entry == Some(re)
              && (s.entry.Some? ==> Wins(s.entry.value, re))
  {
  }

  /** A file is safe from everything peers may send exactly when it is unsynced. One that the
      index knows by size and time is not, even if its mode was changed since. */
  lemma OnlyUnsyncedIsSafe(sha: Sha, s: Slot)
    requires s.file.Some?
    ensures (forall re :: Receive(s, re).file == s.file)
            && (forall re, useDelta, r, now :: Finish(sha, s, re, useDelta, r, now).file == s.file)
       <==> Unsynced(s)
  {
    if Unsynced(s) {
      forall re ensures Receive(s, re).file == s.file {
        UnsyncedHoldsBack(sha, s, re, false, Replies(Logical, Logical, Logical), ZERO_TIME);
      }
      forall re, useDelta, r, now ensures Finish(sha, s, re, useDelta, r, now).file == s.file {
        UnsyncedHoldsBack(sha, s, re, useDelta, r, now);
      }
    } else {
      var later := s.entry.value.(deleted := true, updatedAt := s.entry.value.updatedAt + 1);
      assert Receive(s, later).file == None;
    }
  }

  // ---------------------------------------------------------------- Deltas

  /** On a settled slot a delta is asked for exactly when a winning live entry has content other
      than the bytes on disk, which are then its basis. */
  lemma DeltaHasBasis(sha: Sha, s: Slot, re: Entry)
    requires Settled(s) && CacheAgrees(sha, s)
    ensures Decide(s, re) == Content(true)
       <==> s.file.Some? && !re.deleted && Wins(s.entry.value, re) && sha(s.file.value.bytes) != re.hash
  {
  }
}
