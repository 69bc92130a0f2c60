/** Index entries and the last-writer-wins order on them. */
module Lww {

  type Path = string

  /** Nanoseconds since the zero time; 0 is the zero time itself. */
  type Time = int

  const ZERO_TIME: Time := 0
  const SECOND: int := 1_000_000_000

  datatype Entry = Entry(path: Path, size: int, modTime: Time, mode: nat, hash: string,
                         deleted: bool, deletedAt: Time, updatedAt: Time)

  // ---------------------------------------------------------------- The order as the code computes it

  /** cmp.Compare on strings. */
  function CompareStrings(a: string, b: string): int {
    if a == [] then (if b == [] then 0 else -1)
    else if b == [] then 1
    else if a[0] < b[0] then -1
    else if b[0] < a[0] then 1
    else CompareStrings(a[1..], b[1..])
  }

  function CompareInts(a: int, b: int): int {
    if a < b then -1 else if a > b then 1 else 0
  }

  /** The tie-break: deleted above live, then hash, then mode, then modification time. */
  function CompareEntries(a: Entry, b: Entry): int {
    if a.deleted != b.deleted then (if a.deleted then 1 else -1)
    else if CompareStrings(a.hash, b.hash) != 0 then CompareStrings(a.hash, b.hash)
    else if CompareInts(a.mode, b.mode) != 0 then CompareInts(a.mode, b.mode)
    else if a.modTime > b.modTime then 1
    else if b.modTime > a.modTime then -1
    else 0
  }

  /** Whether remote replaces local. */
  predicate Wins(local: Entry, remote: Entry) {
    if remote.updatedAt > local.updatedAt then true
    else if local.updatedAt > remote.updatedAt then false
    else if local.deleted == remote.deleted && local.hash == remote.hash
            && local.mode == remote.mode && local.modTime == remote.modTime then false
    else CompareEntries(remote, local) > 0
  }

  // ---------------------------------------------------------------- The order as a lexicographic one

  /** What the order looks at. */
  datatype Key = Key(updatedAt: Time, deleted: bool, hash: string, mode: nat, modTime: int)

  function KeyOf(e: Entry): Key {
    Key(e.updatedAt, e.deleted, e.hash, e.mode, e.modTime)
  }

  /** The key with the modification time of a live entry cut to whole seconds, as far as a
      metadata adopt looks. */
  function CoarseKey(e: Entry): Key {
    Key(e.updatedAt, e.deleted, e.hash, e.mode, if e.deleted then e.modTime else e.modTime / SECOND)
  }

  /** a is a proper prefix of b, or smaller at the first difference. */
  ghost predicate StringBelow(a: string, b: string) {
    exists n: nat {:trigger DifferAt(a, b, n)} :: DifferAt(a, b, n)
  }

  ghost predicate DifferAt(a: string, b: string, n: nat) {
    && n <= |a| && n < |b|
    && a[..n] == b[..n]
    && (n == |a| || a[n] < b[n])
  }

  /** The lexicographic order of keys, most significant component first. */
  ghost predicate Below(a: Key, b: Key) {
    || a.updatedAt < b.updatedAt
    || (a.updatedAt == b.updatedAt &&
        (|| (!a.deleted && b.deleted)
         || (a.deleted == b.deleted &&
             (|| StringBelow(a.hash, b.hash)
              || (a.hash == b.hash &&
                  (|| a.mode < b.mode
                   || (a.mode == b.mode && a.modTime < b.modTime)))))))
  }

  ghost predicate AtMost(a: Key, b: Key) {
    a == b || Below(a, b)
  }

  lemma {:induction false} CompareStringsMeans(a: string, b: string)
    ensures CompareStrings(a, b) < 0 <==> StringBelow(a, b)
    ensures CompareStrings(a, b) == 0 <==> a == b
    ensures CompareStrings(a, b) > 0 <==> StringBelow(b, a)
  {
    if a == [] || b == [] {
      assert a == [] && b != [] ==> DifferAt(a, b, 0);
      assert b == [] && a != [] ==> DifferAt(b, a, 0);
    } else if a[0] != b[0] {
      assert a[0] < b[0] ==> DifferAt(a, b, 0);
      assert b[0] < a[0] ==> DifferAt(b, a, 0);
    } else {
      CompareStringsMeans(a[1..], b[1..]);
      StringBelowTail(a, b);
      StringBelowTail(b, a);
      assert a == [a[0]] + a[1..] && b == [b[0]] + b[1..];
    }
  }

  lemma StringBelowTail(a: string, b: string)
    requires a != [] && b != [] && a[0] == b[0]
    ensures StringBelow(a, b) <==> StringBelow(a[1..], b[1..])
  {
    if n: nat :| DifferAt(a, b, n) {
      assert n > 0;
      assert a[1..][..n - 1] == a[..n][1..] && b[1..][..n - 1] == b[..n][1..];
      assert DifferAt(a[1..], b[1..], n - 1);
    }
    if n: nat :| DifferAt(a[1..], b[1..], n) {
      assert a[..n + 1] == [a[0]] + a[1..][..n] && b[..n + 1] == [b[0]] + b[1..][..n];
      assert DifferAt(a, b, n + 1);
    }
  }

  lemma StringBelowIsStrict(a: string, b: string, c: string)
    ensures !StringBelow(a, a)
    ensures StringBelow(a, b) && StringBelow(b, c) ==> StringBelow(a, c)
    ensures a == b || StringBelow(a, b) || StringBelow(b, a)
  {
    CompareStringsMeans(a, b);
    if StringBelow(a, b) && StringBelow(b, c) {
      var m: nat :| DifferAt(a, b, m);
      var n: nat :| DifferAt(b, c, n);
      var k := if m <= n then m else n;
      assert a[..k] == b[..m][..k] == b[..k] == b[..n][..k] == c[..k] by {
        assert a[..k] == a[..m][..k] && b[..k] == b[..m][..k];
        assert b[..k] == b[..n][..k] && c[..k] == c[..n][..k];
      }
      assert DifferAt(a, c, k);
    }
  }

  /** Below is irreflexive, transitive and total. */
  lemma BelowIsStrictTotal(a: Key, b: Key, c: Key)
    ensures !Below(a, a)
    ensures Below(a, b) && Below(b, c) ==> Below(a, c)
    ensures a == b || Below(a, b) || Below(b, a)
    ensures !(Below(a, b) && Below(b, a))
  {
    StringBelowIsStrict(a.hash, b.hash, c.hash);
    StringBelowIsStrict(a.hash, b.hash, a.hash);
  }

  /** The code's comparison is exactly the lexicographic order of the keys. */
  lemma WinsIsBelow(local: Entry, remote: Entry)
    ensures Wins(local, remote) <==> Below(KeyOf(local), KeyOf(remote))
  {
    CompareStringsMeans(remote.hash, local.hash);
  }

  /** The later update wins; at the same time a tombstone beats a live entry, then the greater hash,
      the greater mode and the later modification time win. */
  lemma WinsMeans(a: Entry, b: Entry)
    ensures Wins(a, b) <==>
              || a.updatedAt < b.updatedAt
              || (&& a.updatedAt == b.updatedAt
                  && (|| (!a.deleted && b.deleted)
                      || (&& a.deleted == b.deleted
                          && (|| CompareStrings(a.hash, b.hash) < 0
                              || (&& a.hash == b.hash
                                  && (a.mode < b.mode || (a.mode == b.mode && a.modTime < b.modTime)))))))
  {
    CompareStringsMeans(a.hash, b.hash);
    CompareStringsMeans(b.hash, a.hash);
  }

  /** Strings are compared by their first difference, and a prefix is smaller. */
  lemma StringOrder(c: char, d: char, a: string, b: string)
    ensures CompareStrings([], []) == 0
    ensures CompareStrings([], [c] + a) < 0 < CompareStrings([c] + a, [])
    ensures c < d ==> CompareStrings([c] + a, [d] + b) < 0 < CompareStrings([d] + b, [c] + a)
    ensures CompareStrings([c] + a, [c] + b) == CompareStrings(a, b)
  {
    assert ([c] + a)[1..] == a && ([c] + b)[1..] == b;
  }

  /** Losing to an entry means not being above it. */
  lemma LosesIsAtMost(local: Entry, remote: Entry)
    ensures !Wins(local, remote) <==> AtMost(KeyOf(remote), KeyOf(local))
  {
    WinsIsBelow(local, remote);
    BelowIsStrictTotal(KeyOf(local), KeyOf(remote), KeyOf(local));
  }

  lemma AtMostTransitive(a: Key, b: Key, c: Key)
    requires AtMost(a, b) && AtMost(b, c)
    ensures AtMost(a, c)
  {
    BelowIsStrictTotal(a, b, c);
  }

  lemma AtMostAntisymmetric(a: Key, b: Key)
    requires AtMost(a, b) && AtMost(b, a)
    ensures a == b
  {
    BelowIsStrictTotal(a, b, a);
  }

  /** Cutting seconds keeps the order. */
  lemma CoarseIsMonotone(a: Entry, b: Entry)
    requires AtMost(KeyOf(a), KeyOf(b))
    ensures AtMost(CoarseKey(a), CoarseKey(b))
  {
    if a.modTime <= b.modTime {
      assert a.modTime / SECOND <= b.modTime / SECOND;
    }
  }
}
