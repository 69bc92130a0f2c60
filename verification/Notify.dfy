/** The notify tracker: which content versions were advertised or are being advertised. */
module Notify {
  import opened Bytes
  import opened Lww

  datatype ContentKey = ContentKey(path: Path, hash: string, deleted: bool, updatedAt: Time)

  function ContentKeyFrom(e: Entry): ContentKey {
    ContentKey(e.path, e.hash, e.deleted, e.updatedAt)
  }

  function KeysOf(hints: seq<Entry>): set<ContentKey> {
    set h | h in hints :: ContentKeyFrom(h)
  }

  const SEEN_TTL: int := 600 * SECOND

  datatype Tracker = Tracker(seen: map<ContentKey, Time>, inflight: set<ContentKey>)

  function Collected(t: Tracker, now: Time): Tracker {
    t.(seen := map k | k in t.seen && now - t.seen[k] <= SEEN_TTL :: t.seen[k])
  }

  predicate Free(t: Tracker, k: ContentKey, now: Time) {
    !(k in t.seen && now - t.seen[k] <= SEEN_TTL) && k !in t.inflight
  }

  function Claimable(t: Tracker, keys: set<ContentKey>, now: Time): set<ContentKey> {
    set k | k in keys && Free(t, k, now)
  }

  function Claimed(t: Tracker, keys: set<ContentKey>, now: Time): Tracker {
    Collected(t, now).(inflight := t.inflight + Claimable(t, keys, now))
  }

  function Marked(t: Tracker, keys: set<ContentKey>, now: Time): Tracker {
    Tracker(Stamped(Collected(t, now).seen, keys, now), t.inflight - keys)
  }

  function Stamped(seen: map<ContentKey, Time>, keys: set<ContentKey>, now: Time): map<ContentKey, Time> {
    seen + (map k | k in keys :: now)
  }

  lemma StampedSnoc(seen: map<ContentKey, Time>, keys: set<ContentKey>, k: ContentKey, now: Time)
    ensures Stamped(seen, keys, now)[k := now] == Stamped(seen, keys + {k}, now)
  {
  }

  function Released(t: Tracker, keys: set<ContentKey>): Tracker {
    t.(inflight := t.inflight - keys)
  }

  lemma KeysSnoc(hints: seq<Entry>, h: Entry)
    ensures KeysOf(hints + [h]) == KeysOf(hints) + {ContentKeyFrom(h)}
  {
  }

  lemma KeysHave(hints: seq<Entry>)
    ensures forall i | 0 <= i < |hints| :: ContentKeyFrom(hints[i]) in KeysOf(hints)
  {
  }

  // ---------------------------------------------------------------- The tracker object

  class NotifyTracker {
    var seen: map<ContentKey, Time>
    var inflight: set<ContentKey>

    constructor ()
      ensures View() == Tracker(map[], {})
    {
      seen, inflight := map[], {};
    }

    ghost function View(): Tracker
      reads this
    {
      Tracker(seen, inflight)
    }

    method Gc(now: Time)
      modifies `seen
      ensures View() == Collected(old(View()), now)
    {
      var todo := seen.Keys;
      while todo != {}
        invariant todo <= seen.Keys <= old(seen).Keys
        invariant forall k | k in seen :: seen[k] == old(seen)[k]
        invariant forall k | k in old(seen) :: k in seen <==> k in todo || now - old(seen)[k] <= SEEN_TTL
        decreases todo
      {
        var k :| k in todo;
        if now - seen[k] > SEEN_TTL {
          seen := seen - {k};
        }
        todo := todo - {k};
      }
    }

    /** The hints to send: one for each key that was free, all now in flight. */
    method Claim(hints: seq<Entry>, now: Time) returns (out: seq<Entry>)
      modifies this
      ensures View() == Claimed(old(View()), KeysOf(hints), now)
      ensures KeysOf(out) == Claimable(old(View()), KeysOf(hints), now)
      ensures forall h | h in out :: h in hints
      ensures forall i, j | 0 <= i < j < |out| :: ContentKeyFrom(out[i]) != ContentKeyFrom(out[j])
    {
      ghost var t := View();
      Gc(now);
      out := [];
      for i := 0 to |hints|
        invariant seen == Collected(t, now).seen
        invariant inflight == t.inflight + KeysOf(out)
        invariant KeysOf(out) == Claimable(t, KeysOf(hints[..i]), now)
        invariant forall h | h in out :: h in hints
        invariant forall a, b | 0 <= a < b < |out| :: ContentKeyFrom(out[a]) != ContentKeyFrom(out[b])
      {
        var h := hints[i];
        var k := ContentKeyFrom(h);
        KeysSnoc(hints[..i], h);
        assert hints[..i + 1] == hints[..i] + [h];
        if !(k in seen && now - seen[k] <= SEEN_TTL) && k !in inflight {
          KeysSnoc(out, h);
          KeysHave(out);
          inflight := inflight + {k};
          out := out + [h];
        }
      }
      assert hints[..|hints|] == hints;
    }

    method Mark(hints: seq<Entry>, now: Time)
      modifies this
      ensures View() == if hints == [] then old(View()) else Marked(old(View()), KeysOf(hints), now)
    {
      if hints == [] {
        return;
      }
      ghost var t := View();
      Gc(now);
      for i := 0 to |hints|
        invariant seen == Stamped(Collected(t, now).seen, KeysOf(hints[..i]), now)
        invariant inflight == t.inflight - KeysOf(hints[..i])
      {
        KeysSnoc(hints[..i], hints[i]);
        assert hints[..i + 1] == hints[..i] + [hints[i]];
        var k := ContentKeyFrom(hints[i]);
        StampedSnoc(Collected(t, now).seen, KeysOf(hints[..i]), k, now);
        seen := seen[k := now];
        inflight := inflight - {k};
      }
      assert hints[..|hints|] == hints;
    }

    method Release(hints: seq<Entry>)
      modifies `inflight
      ensures View() == Released(old(View()), KeysOf(hints))
    {
      for i := 0 to |hints|
        invariant inflight == old(inflight) - KeysOf(hints[..i])
      {
        KeysSnoc(hints[..i], hints[i]);
        assert hints[..i + 1] == hints[..i] + [hints[i]];
        inflight := inflight - {ContentKeyFrom(hints[i])};
      }
      assert hints[..|hints|] == hints;
    }
  }

  // ---------------------------------------------------------------- Batches

  type Bid = nat

  /** A fan-out of claimed keys; marked: some peer was reached. */
  datatype Batch = Batch(keys: set<ContentKey>, start: Time, marked: bool)

  datatype Fanout = Fanout(tracker: Tracker, active: map<Bid, Batch>, clock: Time)

  datatype Ev =
    | Start(b: Bid, keys: set<ContentKey>, now: Time)  // scheduleNotify
    | Reached(b: Bid, now: Time)                       // one notify of the batch succeeds
    | Finish(b: Bid, now: Time)                        // all notifies of the batch are over
    | Heard(keys: set<ContentKey>, now: Time)          // an inbound notify brings nothing new

  /** The clock does not go back and no batch lasts longer than keys stay seen. */
  predicate CanHappen(f: Fanout, ev: Ev) {
    && f.clock <= ev.now
    && (forall b | b in f.active :: ev.now - f.active[b].start <= SEEN_TTL)
    && match ev
       case Start(b, _, _) => b !in f.active
       case Reached(b, _) => b in f.active
       case Finish(b, _) => b in f.active
       case Heard(_, _) => true
  }

  function Step(f: Fanout, ev: Ev): Fanout
    requires CanHappen(f, ev)
  {
    var t := f.tracker;
    match ev
    case Start(b, keys, now) =>
      var mine := Claimable(t, keys, now);
      Fanout(Claimed(t, keys, now), if mine == {} then f.active else f.active[b := Batch(mine, now, false)], now)
    case Reached(b, now) =>
      Fanout(Marked(t, f.active[b].keys, now), f.active[b := f.active[b].(marked := true)], now)
    case Finish(b, now) =>
      Fanout(if f.active[b].marked then t else Released(t, f.active[b].keys), f.active - {b}, now)
    case Heard(keys, now) => Fanout(Marked(t, keys, now), f.active, now)
  }

  /** Every key of an active batch is blocked until the batch can only be over. */
  predicate Blocked(f: Fanout, b: Bid, k: ContentKey)
    requires b in f.active
  {
    || (k in f.tracker.inflight && !f.active[b].marked)
    || (k in f.tracker.seen && f.active[b].start <= f.tracker.seen[k] && k !in f.tracker.inflight)
  }

  ghost predicate Orderly(f: Fanout) {
    && (forall b, k {:trigger k in f.active[b].keys} | b in f.active && k in f.active[b].keys :: Blocked(f, b, k))
    && (forall b, c | b in f.active && c in f.active && b != c :: f.active[b].keys !! f.active[c].keys)
    && (forall k | k in f.tracker.inflight :: exists b :: b in f.active && k in f.active[b].keys)
    && (forall b | b in f.active :: f.active[b].start <= f.clock)
  }

  /** A key leaves flight only with a mark or with its batch, so claims stay accounted for. */
  lemma FlightsHaveBatches(f: Fanout, ev: Ev)
    requires Orderly(f) && CanHappen(f, ev)
    ensures forall k | k in Step(f, ev).tracker.inflight ::
              exists b :: b in Step(f, ev).active && k in Step(f, ev).active[b].keys
  {
    var f' := Step(f, ev);
    forall k | k in f'.tracker.inflight ensures exists b :: b in f'.active && k in f'.active[b].keys {
      if k in f.tracker.inflight {
        var b :| b in f.active && k in f.active[b].keys;
        assert Blocked(f, b, k);
        assert b in f'.active && k in f'.active[b].keys;
      } else {
        assert ev.b in f'.active && k in f'.active[ev.b].keys;
      }
    }
  }

  lemma BatchesStayDisjoint(f: Fanout, ev: Ev)
    requires Orderly(f) && CanHappen(f, ev)
    ensures var f' := Step(f, ev);
            forall b, c | b in f'.active && c in f'.active && b != c :: f'.active[b].keys !! f'.active[c].keys
  {
    if ev.Start? {
      forall c, k | c in f.active && k in f.active[c].keys ensures !Free(f.tracker, k, ev.now) {
        assert Blocked(f, c, k);
      }
    }
  }

  lemma KeysStayBlocked(f: Fanout, ev: Ev)
    requires Orderly(f) && CanHappen(f, ev)
    ensures var f' := Step(f, ev);
            forall b, k {:trigger k in f'.active[b].keys} | b in f'.active && k in f'.active[b].keys :: Blocked(f', b, k)
  {
    var f' := Step(f, ev);
    forall b, k {:trigger k in f'.active[b].keys} | b in f'.active && k in f'.active[b].keys ensures Blocked(f', b, k) {
      if b in f.active && k in f.active[b].keys {
        assert Blocked(f, b, k);
        assert !Free(f.tracker, k, ev.now);
        assert ev.Finish? ==> k !in f.active[ev.b].keys;
      }
    }
  }

  lemma StepKeepsOrder(f: Fanout, ev: Ev)
    requires Orderly(f) && CanHappen(f, ev)
    ensures Orderly(Step(f, ev))
  {
    FlightsHaveBatches(f, ev);
    BatchesStayDisjoint(f, ev);
    KeysStayBlocked(f, ev);
  }

  ghost predicate IsRun(states: seq<Fanout>, events: seq<Ev>) {
    && |states| == |events| + 1
    && states[0].tracker == Tracker(map[], {}) && states[0].active == map[]
    && forall i {:trigger events[i]} | 0 <= i < |events| ::
         CanHappen(states[i], events[i]) && states[i + 1] == Step(states[i], events[i])
  }

  lemma {:induction false} RunIsOrderly(states: seq<Fanout>, events: seq<Ev>, i: nat)
    requires IsRun(states, events) && i < |states|
    ensures Orderly(states[i])
  {
    if i == 0 {
    } else {
      RunIsOrderly(states, events, i - 1);
      var ev := events[i - 1];
      StepKeepsOrder(states[i - 1], ev);
    }
  }

  /** Over every run: no key is fanned out by two overlapping batches, and a batch that ends
      leaves none of its keys in flight, so each is seen or free. */
  lemma NoDoubleFanOut(states: seq<Fanout>, events: seq<Ev>, i: nat)
    requires IsRun(states, events) && i < |states|
    ensures forall b, c | b in states[i].active && c in states[i].active && b != c ::
              states[i].active[b].keys !! states[i].active[c].keys
    ensures i < |events| && events[i].Finish? ==>
              states[i].active[events[i].b].keys !! states[i + 1].tracker.inflight
    ensures states[i].active == map[] ==> states[i].tracker.inflight == {}
  {
    RunIsOrderly(states, events, i);
    if i < |events| && events[i].Finish? {
      var ev := events[i];
      forall k | k in states[i].active[ev.b].keys ensures k !in states[i + 1].tracker.inflight {
        assert Blocked(states[i], ev.b, k);
      }
    }
  }

  // ---------------------------------------------------------------- Which keys are fanned out

  /** When k was last marked: a peer was reached with it or it was heard from one. */
  function LastMark(states: seq<Fanout>, events: seq<Ev>, i: nat, k: ContentKey): Option<Time>
    requires i <= |events| < |states|
  {
    if i == 0 then None
    else
      var f, ev := states[i - 1], events[i - 1];
      match ev
      case Reached(b, now) =>
        if b in f.active && k in f.active[b].keys then Some(now) else LastMark(states, events, i - 1, k)
      case Heard(keys, now) => if k in keys then Some(now) else LastMark(states, events, i - 1, k)
      case _ => LastMark(states, events, i - 1, k)
  }

  /** What is seen was last marked then, and what was marked within ten minutes is seen. */
  predicate SeenIsMarked(f: Fanout, k: ContentKey, mark: Option<Time>) {
    && (k in f.tracker.seen ==> mark == Some(f.tracker.seen[k]))
    && (mark.Some? && f.clock - mark.value <= 600_000_000_000 ==> k in f.tracker.seen)
    && (mark.Some? ==> mark.value <= f.clock)
  }

  lemma {:induction false} SeenAreMarks(states: seq<Fanout>, events: seq<Ev>, i: nat, k: ContentKey)
    requires IsRun(states, events) && i < |states|
    ensures SeenIsMarked(states[i], k, LastMark(states, events, i, k))
  {
    if i == 0 {
    } else {
      SeenAreMarks(states, events, i - 1, k);
      var ev := events[i - 1];
    }
  }

  /** Over every run, a batch takes exactly those of its keys that no batch under way has and that
      were not marked within the last ten minutes: none is sent twice and none is withheld. */
  lemma StartTakesTheFree(states: seq<Fanout>, events: seq<Ev>, i: nat, k: ContentKey)
    requires IsRun(states, events) && i < |events| && events[i].Start?
    ensures var f, f', ev := states[i], states[i + 1], events[i];
            (ev.b in f'.active && k in f'.active[ev.b].keys) <==>
              && k in ev.keys
              && (forall b | b in f.active :: k !in f.active[b].keys)
              && (var mark := LastMark(states, events, i, k);
                  mark.None? || ev.now - mark.value > 600_000_000_000)
  {
    RunIsOrderly(states, events, i);
    SeenAreMarks(states, events, i, k);
    var f, ev := states[i], events[i];
    forall b | b in f.active && k in f.active[b].keys ensures !Free(f.tracker, k, ev.now) {
      assert Blocked(f, b, k);
    }
  }

  /** Marks are forgotten after ten minutes, at the next claim or mark. */
  lemma StaleMarksAreForgotten(f: Fanout, ev: Ev)
    requires CanHappen(f, ev) && !ev.Finish?
    ensures forall k | k in Step(f, ev).tracker.seen :: ev.now - Step(f, ev).tracker.seen[k] <= 600_000_000_000
  {
  }

  /** Two entries have one content key exactly if path, hash, deletion and update time agree. */
  lemma ContentKeyMeans(a: Entry, b: Entry)
    ensures ContentKeyFrom(a) == ContentKeyFrom(b) <==>
              a.path == b.path && a.hash == b.hash && a.deleted == b.deleted && a.updatedAt == b.updatedAt
  {
  }
}
