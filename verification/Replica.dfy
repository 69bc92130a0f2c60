/** One path of one node: its index entry and its file, and every step that may change them.
    SHA-256 (in hexadecimal) is a parameter. The file system is exact: a mode or time that was
    written is read back unchanged. */
module Replica {
  import opened Bytes
  import opened Lww
  import opened FileIndex

  type Sha = seq<Byte> -> string

  type Perm = m: nat | m < 512

  datatype File = File(bytes: seq<Byte>, mtime: Time, perm: Perm)

  datatype Slot = Slot(entry: Option<Entry>, file: Option<File>)

  const DEFAULT_MODE := 420  // 0o644

  predicate Live(s: Slot) {
    s.entry.Some? && !s.entry.value.deleted
  }

  /** Size and modification time of the file are those of the live entry. */
  predicate Tracks(e: Entry, f: File) {
    !e.deleted && e.size == |f.bytes| && e.modTime == f.mtime
  }

  /** There is a file that the index does not know in its present state. */
  predicate Unsynced(s: Slot) {
    s.file.Some? && !(s.entry.Some? && Tracks(s.entry.value, s.file.value))
  }

  // ---------------------------------------------------------------- Deciding about a remote entry

  datatype Decision = Noop | Tombstone | DeleteLive | MetaOnly | Content(useDelta: bool)

  predicate MtimesDiffer(a: Time, b: Time) {
    a != b && !(a != ZERO_TIME && b != ZERO_TIME && a / SECOND == b / SECOND)
  }

  function DecideApply(local: Option<Entry>, remote: Entry, diskPresent: bool): Decision {
    if remote.deleted then
      if local.None? || local.value.deleted then Tombstone
      else if !Wins(local.value, remote) then Noop
      else DeleteLive
    else if local.Some? && !local.value.deleted && local.value.hash == remote.hash then
      var mtimeDiffers := remote.modTime != ZERO_TIME && MtimesDiffer(remote.modTime, local.value.modTime);
      var metaDiffers := remote.mode != local.value.mode || mtimeDiffers || remote.updatedAt > local.value.updatedAt;
      if !(metaDiffers && Wins(local.value, remote)) then Noop
      else if !diskPresent then Content(false)
      else MetaOnly
    else if local.Some? && !Wins(local.value, remote) then Noop
    else Content(local.Some? && !local.value.deleted)
  }

  /** The decision of applyRemote; the disk is looked at only for entries of equal hash. */
  function Decide(s: Slot, re: Entry): Decision {
    DecideApply(s.entry, re, Live(s) && !re.deleted && s.entry.value.hash == re.hash && s.file.Some?)
  }

  // ---------------------------------------------------------------- Carrying a decision out

  function Offer(s: Slot, e: Entry): Slot {
    if s.entry.Some? && !Wins(s.entry.value, e) then s else s.(entry := Some(e))
  }

  function FileMode(mode: nat): nat {
    if mode == 0 then DEFAULT_MODE else mode
  }

  /** The mode and time recorded after a write, as read back from the file. */
  function DiskMeta(f: File, modeWant: nat, remoteMT: Time, fallbackMT: Time): (nat, Time) {
    (if f.perm == 0 then modeWant else f.perm,
     if remoteMT == ZERO_TIME && f.mtime == ZERO_TIME && fallbackMT != ZERO_TIME then fallbackMT else f.mtime)
  }

  function ExecDeleteLive(s: Slot, re: Entry): Slot {
    if s.entry.Some? && !Wins(s.entry.value, re) then s
    else if Unsynced(s) then s
    else Offer(s.(file := None), re)
  }

  function ExecMetaOnly(s: Slot, re: Entry): Slot
    requires Live(s) && s.file.Some?
  {
    if Unsynced(s) then s
    else
      var local, mode := s.entry.value, FileMode(re.mode);
      var f := s.file.value.(mtime := if re.modTime != ZERO_TIME then re.modTime else s.file.value.mtime,
                             perm := mode % 512);
      var (actualMode, actualMT) := DiskMeta(f, mode, re.modTime, local.modTime);
      Slot(Some(local.(updatedAt := re.updatedAt, modTime := actualMT, mode := actualMode)), Some(f))
  }

  /** What a content commit writes at time now. */
  function WrittenFile(re: Entry, data: seq<Byte>, now: Time): File {
    File(data, if re.modTime != ZERO_TIME then re.modTime else now, FileMode(re.mode) % 512)
  }

  function WrittenEntry(s: Slot, re: Entry, data: seq<Byte>, got: string, now: Time): Entry {
    var fallbackMT := if re.modTime == ZERO_TIME && Live(s) then s.entry.value.modTime else re.modTime;
    var (actualMode, actualMT) := DiskMeta(WrittenFile(re, data, now), FileMode(re.mode), re.modTime, fallbackMT);
    re.(hash := got, size := |data|, mode := actualMode, modTime := actualMT,
        updatedAt := if re.updatedAt == ZERO_TIME then now else re.updatedAt)
  }

  /** Re-checks the order and the disk after the transfer, then writes file and entry. */
  function CommitContent(s: Slot, re: Entry, data: seq<Byte>, got: string, now: Time): Slot {
    if s.entry.Some? && !Wins(s.entry.value, re) then s
    else if Unsynced(s) then s
    else Slot(Some(WrittenEntry(s, re, data, got, now)), Some(WrittenFile(re, data, now)))
  }

  /** applyRemote up to the transfer: decide, and carry out everything that needs no bytes.
      A live entry without a hash is refused. */
  function Receive(s: Slot, re: Entry): Slot {
    if !re.deleted && re.hash == "" then s
    else
      match Decide(s, re)
      case Noop => s
      case Tombstone => Offer(s, re)
      case DeleteLive => ExecDeleteLive(s, re)
      case MetaOnly => ExecMetaOnly(s, re)
      case Content(_) => s
  }

  // ---------------------------------------------------------------- Fetching bytes

  /** What a peer answers to one request. */
  datatype Reply = Data(bytes: seq<Byte>) | Logical | Transport

  datatype Replies = Replies(delta: Reply, full: Reply, retry: Reply)

  /** A failed delta falls back to a full pull unless the connection is gone. */
  function PullContent(useDelta: bool, r: Replies): Reply {
    if useDelta && !r.delta.Logical? then r.delta else r.full
  }

  predicate Right(sha: Sha, want: string, reply: Reply) {
    reply.Data? && sha(reply.bytes) == want
  }

  /** The verified bytes of a reply, or an error. */
  function IfRight(sha: Sha, want: string, reply: Reply): (out: Result<seq<Byte>>)
    ensures out.Ok? <==> reply.Data? && sha(reply.bytes) == want
    ensures out.Ok? ==> out.value == reply.bytes
  {
    if Right(sha, want, reply) then Ok(reply.bytes) else Err
  }

  /** Whatever the peer answers, bytes that come out have the wanted hash. Without a delta all
      depends on the full pull. With one, a failed connection is final, right bytes are taken, a
      refusal leaves it to the full pull, and wrong bytes from either to one more full pull. */
  function PullAndVerify(sha: Sha, want: string, useDelta: bool, r: Replies): (out: Result<seq<Byte>>)
    ensures out.Ok? ==> sha(out.value) == want
    ensures !useDelta ==> out == IfRight(sha, want, r.full)
    ensures useDelta ==>
              match r.delta
              case Transport => out == Err
              case Data(_) => out == if Right(sha, want, r.delta) then Ok(r.delta.bytes) else IfRight(sha, want, r.retry)
              case Logical =>
                match r.full
                case Data(_) => out == if Right(sha, want, r.full) then Ok(r.full.bytes) else IfRight(sha, want, r.retry)
                case _ => out == Err
  {
    var first := PullContent(useDelta, r);
    if !first.Data? then Err
    else if sha(first.bytes) == want then Ok(first.bytes)
    else if useDelta && r.retry.Data? && sha(r.retry.bytes) == want then Ok(r.retry.bytes)
    else Err
  }

  /** The second half of applyRemote, when the bytes have arrived. */
  function Finish(sha: Sha, s: Slot, re: Entry, useDelta: bool, r: Replies, now: Time): Slot {
    match PullAndVerify(sha, re.hash, useDelta, r)
    case Ok(data) => CommitContent(s, re, data, sha(data), now)
    case Err => s
  }

  // ---------------------------------------------------------------- The local scan

  function Stamp(now: Time, modTime: Time, prevUpdated: Time): (t: Time)
    ensures now <= t && modTime <= t
    ensures prevUpdated != ZERO_TIME || ZERO_TIME < now ==> prevUpdated < t
    ensures t == now || t == modTime || t == prevUpdated + 1
  {
    var t := if modTime > now then modTime else now;
    if prevUpdated != ZERO_TIME && t < prevUpdated + 1 then prevUpdated + 1 else t
  }

  /** The hash a scan records: reused when size and time are those of a live entry. */
  function ScanHash(sha: Sha, s: Slot): string
    requires s.file.Some?
  {
    if s.entry.Some? && Tracks(s.entry.value, s.file.value) && s.entry.value.hash != "" then s.entry.value.hash
    else sha(s.file.value.bytes)
  }

  function PrevUpdated(s: Slot): Time {
    if s.entry.Some? then s.entry.value.updatedAt else ZERO_TIME
  }

  function ScannedEntry(sha: Sha, s: Slot, p: Path, now: Time): Entry
    requires s.file.Some?
  {
    var f := s.file.value;
    Entry(p, |f.bytes|, f.mtime, f.perm, ScanHash(sha, s), false, ZERO_TIME, Stamp(now, f.mtime, PrevUpdated(s)))
  }

  function Buried(e: Entry, now: Time): Entry {
    e.(deleted := true, deletedAt := now, updatedAt := Stamp(now, ZERO_TIME, e.updatedAt), size := 0, hash := "")
  }

  /** The change a scan reports for a path, if any. */
  function ScanChange(sha: Sha, s: Slot, p: Path, now: Time): Option<Entry> {
    if s.file.Some? then
      var de := ScannedEntry(sha, s, p, now);
      if !Live(s) then Some(de)
      else
        var prev := s.entry.value;
        if prev.hash != de.hash || prev.size != de.size || prev.mode != de.mode || prev.modTime != de.modTime
        then Some(de) else None
    else if Live(s) then Some(Buried(s.entry.value, now))
    else None
  }

  function ScanApply(sha: Sha, s: Slot, p: Path, now: Time): Slot {
    match ScanChange(sha, s, p, now)
    case Some(e) => Offer(s, e)
    case None => s
  }

  function DropTombstone(s: Slot, now: Time, ttl: int): Slot {
    if ttl > 0 && s.entry.Some? && Expired(s.entry.value, now - ttl) then s.(entry := None) else s
  }

  /** Scan, apply, collect old tombstones; the clock is read once for each half. */
  function Reconcile(sha: Sha, s: Slot, p: Path, now: Time, gcNow: Time, ttl: int): Slot {
    DropTombstone(ScanApply(sha, s, p, now), gcNow, ttl)
  }
}
