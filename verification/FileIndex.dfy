/** The file index: a map of paths to entries, updated in place. */
module FileIndex {
  import opened Bytes
  import opened Lww

  type Files = map<Path, Entry>

  // ---------------------------------------------------------------- Updates as functions

  function PutIfWins(files: Files, e: Entry): Files {
    if e.path in files && !Wins(files[e.path], e) then files else files[e.path := e]
  }

  function PutAll(files: Files, es: seq<Entry>): Files {
    if es == [] then files else PutIfWins(PutAll(files, es[..|es| - 1]), es[|es| - 1])
  }

  /** A tombstone old enough to drop: its age counts from the deletion, or from the last update
      when no deletion time is known. */
  predicate Expired(e: Entry, cutoff: Time) {
    && e.deleted
    && var t := if e.deletedAt == ZERO_TIME then e.updatedAt else e.deletedAt;
       t != ZERO_TIME && t < cutoff
  }

  function DropExpired(files: Files, now: Time, ttl: int): Files {
    if ttl <= 0 then files
    else map p | p in files && !Expired(files[p], now - ttl) :: files[p]
  }

  // ---------------------------------------------------------------- Order of arrival does not matter

  /** Everything that was ever offered for a path. */
  ghost function Offered(files: Files, es: set<Entry>, p: Path): set<Entry> {
    (if p in files then {files[p]} else {}) + (set e | e in es && e.path == p)
  }

  ghost function EntriesOf(es: seq<Entry>): set<Entry> {
    set e | e in es
  }

  /** e has the greatest key of a set of entries it belongs to. */
  ghost predicate IsLatest(e: Entry, es: set<Entry>) {
    e in es && forall c | c in es :: AtMost(KeyOf(c), KeyOf(e))
  }

  lemma LatestOfTwo(cur: Entry, e: Entry, es: set<Entry>)
    requires IsLatest(cur, es)
    ensures IsLatest(if Wins(cur, e) then e else cur, es + {e})
  {
    LosesIsAtMost(cur, e);
    WinsIsBelow(cur, e);
    if Wins(cur, e) {
      forall c | c in es + {e} ensures AtMost(KeyOf(c), KeyOf(e)) {
        if c in es {
          AtMostTransitive(KeyOf(c), KeyOf(cur), KeyOf(e));
        }
      }
    }
  }

  /** Folding PutIfWins over a list keeps, per path, an offered entry with the greatest key. */
  lemma {:induction false} PutAllKeepsLatest(files: Files, es: seq<Entry>, p: Path)
    ensures p in PutAll(files, es) <==> Offered(files, EntriesOf(es), p) != {}
    ensures p in PutAll(files, es) ==> IsLatest(PutAll(files, es)[p], Offered(files, EntriesOf(es), p))
  {
    if es == [] {
    } else {
      var init, e := es[..|es| - 1], es[|es| - 1];
      PutAllKeepsLatest(files, init, p);
      assert EntriesOf(es) == EntriesOf(init) + {e};
      var before := PutAll(files, init);
      if e.path != p {
        assert Offered(files, EntriesOf(es), p) == Offered(files, EntriesOf(init), p);
      } else {
        assert Offered(files, EntriesOf(es), p) == Offered(files, EntriesOf(init), p) + {e};
        if p in before {
          LatestOfTwo(before[p], e, Offered(files, EntriesOf(init), p));
        }
      }
    }
  }

  /** Two lists with the same entries, in any order and with any repetitions, leave the same
      paths with the same keys. */
  lemma ArrivalOrderIsIrrelevant(files: Files, es: seq<Entry>, es': seq<Entry>)
    requires EntriesOf(es) == EntriesOf(es')
    ensures PutAll(files, es).Keys == PutAll(files, es').Keys
    ensures forall p | p in PutAll(files, es) :: KeyOf(PutAll(files, es)[p]) == KeyOf(PutAll(files, es')[p])
  {
    forall p
      ensures p in PutAll(files, es) <==> p in PutAll(files, es')
      ensures p in PutAll(files, es) ==> KeyOf(PutAll(files, es)[p]) == KeyOf(PutAll(files, es')[p])
    {
      PutAllKeepsLatest(files, es, p);
      PutAllKeepsLatest(files, es', p);
      if p in PutAll(files, es) {
        AtMostAntisymmetric(KeyOf(PutAll(files, es)[p]), KeyOf(PutAll(files, es')[p]));
      }
    }
  }

  // ---------------------------------------------------------------- The index object

  class Index {
    var files: Files

    constructor ()
      ensures files == map[]
    {
      files := map[];
    }

    method Get(path: Path) returns (e: Option<Entry>)
      ensures e == if path in files then Some(files[path]) else None
    {
      e := if path in files then Some(files[path]) else None;
    }

    method Set(e: Entry) returns (prev: Option<Entry>)
      modifies this
      ensures files == old(files)[e.path := e]
      ensures prev == if e.path in old(files) then Some(old(files)[e.path]) else None
    {
      prev := if e.path in files then Some(files[e.path]) else None;
      files := files[e.path := e];
    }

    method SetIfWins(remote: Entry) returns (updated: bool)
      modifies this
      ensures files == PutIfWins(old(files), remote)
      ensures updated <==> remote.path !in old(files) || Wins(old(files)[remote.path], remote)
    {
      if remote.path in files && !Wins(files[remote.path], remote) {
        return false;
      }
      files := files[remote.path := remote];
      return true;
    }

    /** Visits every entry in some order and deletes the expired tombstones. */
    method GCTombstones(now: Time, ttl: int) returns (n: nat)
      modifies this
      ensures files == DropExpired(old(files), now, ttl)
      ensures n == |old(files)| - |files|
    {
      n := 0;
      if ttl <= 0 {
        return;
      }
      var cutoff := now - ttl;
      var todo := files.Keys;
      while todo != {}
        invariant todo <= files.Keys <= old(files).Keys
        invariant forall p | p in old(files) :: p in files <==> p in todo || !Expired(old(files)[p], cutoff)
        invariant forall p | p in files :: files[p] == old(files)[p]
        invariant n == |old(files)| - |files|
        decreases todo
      {
        var path :| path in todo;
        if Expired(files[path], cutoff) {
          assert (files - {path}).Keys == files.Keys - {path};
          files := files - {path};
          n := n + 1;
        }
        todo := todo - {path};
      }
    }

    /** All entries as a list, each path once. */
    method Manifest() returns (out: seq<Entry>)
      ensures |out| == |files|
      ensures forall e :: e in out <==> exists p | p in files :: files[p] == e
    {
      out := [];
      var todo := files.Keys;
      while todo != {}
        invariant todo <= files.Keys
        invariant |out| + |todo| == |files|
        invariant forall e :: e in out <==> exists p | p in files :: p !in todo && files[p] == e
        decreases todo
      {
        var path :| path in todo;
        out := out + [files[path]];
        todo := todo - {path};
      }
    }
  }
}
