/** The limit of agreement. Full keys agree exactly where the entries that have reached the nodes
    have one latest key; and every two times of the same second give a run after which two nodes
    know the same entries and still hold different times. */
module Subsecond {
  import opened Bytes
  import opened Lww
  import opened Replica
  import opened ReplicaSteps
  import opened Nodes
  import opened Mesh
  import opened Convergence

  /** A mesh of the two nodes a and b. */
  function Two(a: Id, na: Node, ka: set<Entry>, b: Id, nb: Node, kb: set<Entry>, sent: set<Msg>): Mesh {
    Mesh(map[a := na, b := nb], map[a := ka, b := kb], sent)
  }

  // ---------------------------------------------------------------- The exact condition

  /** A node that holds an entry that reflects es is good. */
  lemma HolderIsGood(p: Path, e: Entry, es: set<Entry>)
    requires forall k | k in es :: k.path == p && GoodEntry(k)
    requires IsLatestOf(e, es)
    ensures GoodNode(Node(map[p := e], map[]), es)
  {
    forall q
      ensures var s := At(Node(map[p := e], map[]), q);
              GoodSlot(s, q) && Reflects(s.entry, About(es, q))
    {
      assert About(es, p) == es;
      assert q != p ==> About(es, q) == {};
    }
  }

  /** Two nodes that exactly the entries es about p have reached have the same full key in every
      good mesh, if and only if es has one latest key. */
  lemma FullKeysAgreeExactly(sha: Sha, a: Id, b: Id, p: Path, es: set<Entry>)
    requires a != b && forall k | k in es :: k.path == p && GoodEntry(k)
    ensures (forall m | GoodMesh(sha, m) && a in m.nodes && b in m.nodes
                        && About(m.known[a], p) == es && About(m.known[b], p) == es ::
               SameKeys(At(m.nodes[a], p).entry, At(m.nodes[b], p).entry))
       <==> OneLatestKey(es)
  {
    if OneLatestKey(es) {
      forall m | GoodMesh(sha, m) && a in m.nodes && b in m.nodes && About(m.known[a], p) == es && About(m.known[b], p) == es
        ensures SameKeys(At(m.nodes[a], p).entry, At(m.nodes[b], p).entry)
      {
        SameKnowledgeSameEntries(sha, m, a, b, p);
      }
    } else {
      var j, k :| IsLatestOf(j, es) && IsLatestOf(k, es) && KeyOf(j) != KeyOf(k);
      HolderIsGood(p, j, es);
      HolderIsGood(p, k, es);
      var m := Two(a, Node(map[p := j], map[]), es, b, Node(map[p := k], map[]), es, {});
      assert About(es, p) == es;
      assert GoodMesh(sha, m);
      assert !SameKeys(At(m.nodes[a], p).entry, At(m.nodes[b], p).entry);
    }
  }

  // ---------------------------------------------------------------- The runs

  /** The same bytes are written with the same permissions at p, and scanned at the same clock. */
  datatype Case = Case(p: Path, data: seq<Byte>, perm: Perm, now: Time)

  function Written(c: Case, mtime: Time): File {
    File(c.data, mtime, c.perm)
  }

  function Scanned(sha: Sha, c: Case, mtime: Time): Entry {
    Entry(c.p, |c.data|, mtime, c.perm, sha(c.data), false, ZERO_TIME, c.now)
  }

  function Unscanned(c: Case, mtime: Time): Node {
    Node(map[], map[c.p := Written(c, mtime)])
  }

  function Holding(sha: Sha, c: Case, mtime: Time): Node {
    Node(map[c.p := Scanned(sha, c, mtime)], map[c.p := Written(c, mtime)])
  }

  /** A first scan of a node with one file. */
  lemma FirstScan(sha: Sha, c: Case, mtime: Time)
    requires mtime <= c.now && ZERO_TIME < c.now
    ensures Step(sha, Unscanned(c, mtime), Rescan(c.now, c.now, 0)) == Holding(sha, c, mtime)
    ensures Discovered(sha, Unscanned(c, mtime), c.now) == {Scanned(sha, c, mtime)}
  {
    var n := Unscanned(c, mtime);
    assert ScanChange(sha, At(n, c.p), c.p, c.now) == Some(Scanned(sha, c, mtime));
    assert n.index.Keys + n.disk.Keys == {c.p};
  }

  /** Each user writes the file. */
  lemma WriteBoth(sha: Sha, a: Id, b: Id, c: Case, t: Time, u: Time) returns (states: seq<Mesh>, events: seq<MeshEvent>)
    requires a != b && c.perm != 0 && t != ZERO_TIME && u != ZERO_TIME
    ensures IsMeshRun(sha, states, events) && Fresh(sha, states[0])
    ensures states[|events|] == Two(a, Unscanned(c, t), {}, b, Unscanned(c, u), {}, {})
  {
    var none := Node(map[], map[]);
    events := [Local(a, Write(c.p, Written(c, t))), Local(b, Write(c.p, Written(c, u)))];
    states := [Two(a, none, {}, b, none, {}, {}), Two(a, Unscanned(c, t), {}, b, none, {}, {}),
               Two(a, Unscanned(c, t), {}, b, Unscanned(c, u), {}, {})];
    assert MeshStep(sha, states[0], events[0]) == states[1];
    assert MeshStep(sha, states[1], events[1]) == states[2];
  }

  lemma ScanOne(sha: Sha, a: Id, b: Id, nb: Node, kb: set<Entry>, c: Case, t: Time)
    requires a != b && t <= c.now && ZERO_TIME < c.now
    ensures IsMeshStep(sha, Two(a, Unscanned(c, t), {}, b, nb, kb, {}), Local(a, Rescan(c.now, c.now, 0)),
                       Two(a, Holding(sha, c, t), {Scanned(sha, c, t)}, b, nb, kb, {}))
  {
    FirstScan(sha, c, t);
    assert {} + {Scanned(sha, c, t)} == {Scanned(sha, c, t)};
  }

  lemma TwoIsSymmetric(a: Id, na: Node, ka: set<Entry>, b: Id, nb: Node, kb: set<Entry>)
    requires a != b
    ensures Two(a, na, ka, b, nb, kb, {}) == Two(b, nb, kb, a, na, ka, {})
  {
    assert map[a := na, b := nb] == map[b := nb, a := na];
    assert map[a := ka, b := kb] == map[b := kb, a := ka];
  }

  /** Each node scans, at the same clock. */
  lemma ScanBoth(sha: Sha, a: Id, b: Id, c: Case, t: Time, u: Time) returns (states: seq<Mesh>, events: seq<MeshEvent>)
    requires a != b && t <= c.now && u <= c.now && ZERO_TIME < c.now
    ensures IsMeshRun(sha, states, events)
    ensures states[0] == Two(a, Unscanned(c, t), {}, b, Unscanned(c, u), {}, {})
    ensures states[|events|] == Two(a, Holding(sha, c, t), {Scanned(sha, c, t)}, b, Holding(sha, c, u), {Scanned(sha, c, u)}, {})
  {
    var na, nb := Unscanned(c, t), Unscanned(c, u);
    var ea, eb := Scanned(sha, c, t), Scanned(sha, c, u);
    var ha, hb := Holding(sha, c, t), Holding(sha, c, u);
    events := [Local(a, Rescan(c.now, c.now, 0)), Local(b, Rescan(c.now, c.now, 0))];
    states := [Two(a, na, {}, b, nb, {}, {}), Two(a, ha, {ea}, b, nb, {}, {}), Two(a, ha, {ea}, b, hb, {eb}, {})];
    ScanOne(sha, a, b, nb, {}, c, t);
    ScanOne(sha, b, a, ha, {ea}, c, u);
    TwoIsSymmetric(a, ha, {ea}, b, nb, {});
    TwoIsSymmetric(a, ha, {ea}, b, hb, {eb});
  }

  /** Each announces its entry. */
  lemma AnnounceBoth(sha: Sha, a: Id, b: Id, c: Case, t: Time, u: Time) returns (states: seq<Mesh>, events: seq<MeshEvent>)
    requires a != b
    ensures IsMeshRun(sha, states, events)
    ensures var ea, eb := Scanned(sha, c, t), Scanned(sha, c, u);
            && states[0] == Two(a, Holding(sha, c, t), {ea}, b, Holding(sha, c, u), {eb}, {})
            && states[|events|]
               == Two(a, Holding(sha, c, t), {ea}, b, Holding(sha, c, u), {eb}, {Msg(ea, {ea}), Msg(eb, {eb})})
  {
    var ea, eb := Scanned(sha, c, t), Scanned(sha, c, u);
    var na, nb := Holding(sha, c, t), Holding(sha, c, u);
    var ma, mb := Msg(ea, {ea}), Msg(eb, {eb});
    events := [Announce(a, c.p), Announce(b, c.p)];
    states := [Two(a, na, {ea}, b, nb, {eb}, {}), Two(a, na, {ea}, b, nb, {eb}, {ma}), Two(a, na, {ea}, b, nb, {eb}, {ma, mb})];
    assert About({ea}, c.p) == {ea} && About({eb}, c.p) == {eb};
    assert {} + {ma} == {ma} && {ma} + {mb} == {ma, mb};
  }

  /** A node that holds the file hears the same entry with another time of the same second. */
  lemma TimeIsIgnored(sha: Sha, c: Case, t: Time, u: Time)
    requires sha(c.data) != "" && t != ZERO_TIME && u != ZERO_TIME && t / SECOND == u / SECOND
    ensures Step(sha, Holding(sha, c, t), Hear(Scanned(sha, c, u))) == Holding(sha, c, t)
    ensures Handled(At(Holding(sha, c, t), c.p), Scanned(sha, c, u))
  {
    var n, re := Holding(sha, c, t), Scanned(sha, c, u);
    SubsecondTimesStay(At(n, c.p), Slot(Some(re), None));
    assert With(n, c.p, At(n, c.p)) == n;
  }

  /** Each hears the other's announcement. */
  lemma HearBoth(sha: Sha, a: Id, b: Id, c: Case, t: Time, u: Time) returns (states: seq<Mesh>, events: seq<MeshEvent>)
    requires a != b && sha(c.data) != "" && t != ZERO_TIME && u != ZERO_TIME && t / SECOND == u / SECOND
    ensures IsMeshRun(sha, states, events)
    ensures var ea, eb := Scanned(sha, c, t), Scanned(sha, c, u);
            var sent := {Msg(ea, {ea}), Msg(eb, {eb})};
            && states[0] == Two(a, Holding(sha, c, t), {ea}, b, Holding(sha, c, u), {eb}, sent)
            && states[|events|] == Two(a, Holding(sha, c, t), {ea, eb}, b, Holding(sha, c, u), {ea, eb}, sent)
  {
    var ea, eb := Scanned(sha, c, t), Scanned(sha, c, u);
    var na, nb := Holding(sha, c, t), Holding(sha, c, u);
    var ma, mb := Msg(ea, {ea}), Msg(eb, {eb});
    events := [Deliver(b, ma), Deliver(a, mb)];
    states := [Two(a, na, {ea}, b, nb, {eb}, {ma, mb}), Two(a, na, {ea}, b, nb, {ea, eb}, {ma, mb}),
               Two(a, na, {ea, eb}, b, nb, {ea, eb}, {ma, mb})];
    TimeIsIgnored(sha, c, t, u);
    TimeIsIgnored(sha, c, u, t);
    assert {eb} + {ea} == {ea, eb} && {ea} + {eb} == {ea, eb};
    assert MeshStep(sha, states[0], events[0]) == states[1];
    assert MeshStep(sha, states[1], events[1]) == states[2];
  }

  /** Every two distinct times of one second stay apart: two users write the same bytes at these
      times, both nodes scan at the same clock and hear each other out, and in the end they know the
      same entries, describe their equal files exactly, and their full keys differ. */
  lemma FullKeysMayDiffer(sha: Sha, a: Id, b: Id, c: Case, t: Time, u: Time) returns (states: seq<Mesh>, events: seq<MeshEvent>)
    requires a != b && sha(c.data) != "" && c.perm != 0
    requires t != u && t != ZERO_TIME && u != ZERO_TIME && t / SECOND == u / SECOND
    requires t <= c.now && u <= c.now && ZERO_TIME < c.now
    ensures IsMeshRun(sha, states, events) && Fresh(sha, states[0])
    ensures var m := states[|events|];
            && a in m.nodes && b in m.nodes && a in m.known && b in m.known
            && m.known[a] == m.known[b] == {Scanned(sha, c, t), Scanned(sha, c, u)}
            && m.nodes[a] == Holding(sha, c, t) && m.nodes[b] == Holding(sha, c, u)
            && Exact(sha, At(m.nodes[a], c.p)) && Exact(sha, At(m.nodes[b], c.p))
            && KeyOf(m.nodes[a].index[c.p]) != KeyOf(m.nodes[b].index[c.p])
  {
    var written, first := WriteBoth(sha, a, b, c, t, u);
    var scanned, second := ScanBoth(sha, a, b, c, t, u);
    var announced, third := AnnounceBoth(sha, a, b, c, t, u);
    var heard, fourth := HearBoth(sha, a, b, c, t, u);
    RunsConcatenate(sha, written, first, scanned, second);
    RunsConcatenate(sha, announced, third, heard, fourth);
    RunsConcatenate(sha, written + scanned[1..], first + second, announced + heard[1..], third + fourth);
    states, events := written + scanned[1..] + (announced + heard[1..])[1..], first + second + (third + fourth);
  }
}
