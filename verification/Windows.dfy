/** What the aggregator computes, per run: an open window and the log of every window flushed so far.
    A histogram is the multiset of the buckets recorded in it, so merging is multiset sum. */
module Windows {
  import opened Options
  import opened Telemetry

  /** The histogram library as parameters: which latencies it can record, the bucket of each, and
      how it reads a quantile (in thousandths) off the counts. */
  datatype Scale = Scale(recordable: int -> bool, bucket: int -> int, quantile: (multiset<int>, int) -> int)

  type Hist = multiset<int>

  datatype Window = Window(contestant: string, submission: string, start: int, hist: Hist,
                           count: nat, rejected: nat, timeouts: nat)

  datatype Snapshot = Snapshot(contestant: string, submission: string, start: int, duration: int,
                               count: nat, rejected: nat, timeouts: nat, tps: real,
                               p50: int, p90: int, p99: int, p999: int)

  datatype Flushed = Flushed(snap: Snapshot, hist: Hist)

  /** One run: its open window, if any, and its flushed windows, oldest first. */
  datatype Trail = Trail(open: Option<Window>, log: seq<Flushed>)

  const NEW := Trail(None, [])

  datatype Step = Record(e: Event, now: int) | Flush(now: int)

  const NANOS := 1_000_000_000

  function Rate(count: nat, duration: int): real {
    if duration > 0 then count as real / (duration as real / NANOS as real) else 0.0
  }

  /** The bucket an event adds to the histogram, if its latency is positive and recordable. */
  function Sample(sc: Scale, e: Event): Hist
    requires e.Event?
  {
    if e.latency > 0 && sc.recordable(e.latency) then multiset{sc.bucket(e.latency)} else multiset{}
  }

  function Rejects(e: Event): nat
    requires e.Event?
  {
    if e.result == ResultRejected then 1 else 0
  }

  function Timeouts(e: Event): nat
    requires e.Event?
  {
    if e.result == ResultTimeout then 1 else 0
  }

  function OpenAt(t: Trail, e: Event, now: int): Window
    requires e.Event?
  {
    if t.open.Some? then t.open.value else Window(e.contestant, e.submission, now, multiset{}, 0, 0, 0)
  }

  function RecordIn(sc: Scale, w: Window, e: Event): Window
    requires e.Event?
  {
    w.(hist := w.hist + Sample(sc, e), count := w.count + 1,
       rejected := w.rejected + Rejects(e), timeouts := w.timeouts + Timeouts(e))
  }

  function Lasted(size: int, w: Window, now: int): int {
    if now - w.start > 0 then now - w.start else size
  }

  function SnapshotOf(sc: Scale, size: int, w: Window, now: int): Snapshot {
    Snapshot(w.contestant, w.submission, w.start, Lasted(size, w, now), w.count, w.rejected, w.timeouts,
             Rate(w.count, Lasted(size, w, now)),
             sc.quantile(w.hist, 500), sc.quantile(w.hist, 900), sc.quantile(w.hist, 990), sc.quantile(w.hist, 999))
  }

  function RecordTrail(sc: Scale, t: Trail, e: Event, now: int): Trail
    requires e.Event?
  {
    t.(open := Some(RecordIn(sc, OpenAt(t, e, now), e)))
  }

  function FlushTrail(sc: Scale, size: int, t: Trail, now: int): Trail {
    if t.open.None? then t
    else Trail(None, t.log + [Flushed(SnapshotOf(sc, size, t.open.value, now), t.open.value.hist)])
  }

  // ---------- all runs together ----------

  type Trails = map<string, Trail>

  function Lookup(ts: Trails, key: string): Trail { if key in ts then ts[key] else NEW }

  function Advance(sc: Scale, size: int, ts: Trails, s: Step): Trails {
    match s
    case Record(e, now) =>
      if Accepted(e) then ts[RunKey(e) := RecordTrail(sc, Lookup(ts, RunKey(e)), e, now)] else ts
    case Flush(now) => map k | k in ts :: FlushTrail(sc, size, ts[k], now)
  }

  function AdvanceAll(sc: Scale, size: int, ts: Trails, steps: seq<Step>): Trails
    decreases |steps|
  {
    if steps == [] then ts else AdvanceAll(sc, size, Advance(sc, size, ts, steps[0]), steps[1..])
  }

  predicate Concerns(key: string, s: Step) { s.Flush? || Mine(key, s.e) }

  /** A run's own records and every flush, in order. */
  function OnlySteps(key: string, steps: seq<Step>): seq<Step> {
    if steps == [] then []
    else if Concerns(key, steps[0]) then [steps[0]] + OnlySteps(key, steps[1..])
    else OnlySteps(key, steps[1..])
  }

  /** Runs do not interfere: a run's windows depend on its own events and the flush times alone. */
  lemma {:induction false} NonInterference(sc: Scale, size: int, key: string, steps: seq<Step>, ts: Trails, ts': Trails)
    requires Lookup(ts, key) == Lookup(ts', key)
    ensures Lookup(AdvanceAll(sc, size, ts, steps), key)
         == Lookup(AdvanceAll(sc, size, ts', OnlySteps(key, steps)), key)
    decreases |steps|
  {
    if steps != [] {
      var rest := OnlySteps(key, steps[1..]);
      if Concerns(key, steps[0]) {
        assert OnlySteps(key, steps)[1..] == rest;
        NonInterference(sc, size, key, steps[1..], Advance(sc, size, ts, steps[0]), Advance(sc, size, ts', steps[0]));
      } else {
        NonInterference(sc, size, key, steps[1..], Advance(sc, size, ts, steps[0]), ts');
      }
    }
  }

  // ---------- every event is counted once ----------

  datatype Totals = Totals(count: nat, rejected: nat, timeouts: nat, hist: Hist) {
    function Plus(that: Totals): Totals {
      Totals(count + that.count, rejected + that.rejected, timeouts + that.timeouts, hist + that.hist)
    }
  }

  const ZERO := Totals(0, 0, 0, multiset{})

  function Logged(log: seq<Flushed>): Totals {
    if log == [] then ZERO
    else
      var f := log[|log| - 1];
      Logged(log[..|log| - 1]).Plus(Totals(f.snap.count, f.snap.rejected, f.snap.timeouts, f.hist))
  }

  function Pending(t: Trail): Totals {
    if t.open.None? then ZERO
    else Totals(t.open.value.count, t.open.value.rejected, t.open.value.timeouts, t.open.value.hist)
  }

  lemma PlusAssociates(x: Totals, y: Totals, z: Totals)
    ensures x.Plus(y).Plus(z) == x.Plus(y.Plus(z))
    ensures x.Plus(ZERO) == x && ZERO.Plus(x) == x
  {
    assert x.hist + y.hist + z.hist == x.hist + (y.hist + z.hist);
    assert x.hist + multiset{} == x.hist && multiset{} + x.hist == x.hist;
  }

  function One(sc: Scale, e: Event): Totals
    requires e.Event?
  {
    Totals(1, Rejects(e), Timeouts(e), Sample(sc, e))
  }

  /** What one step adds to a run: an accepted record of it adds one event. */
  function Gain(sc: Scale, key: string, s: Step): Totals {
    if s.Record? && Mine(key, s.e) then One(sc, s.e) else ZERO
  }

  /** The plain fold over a run's accepted events, with no windows at all. */
  function Plain(sc: Scale, key: string, steps: seq<Step>): Totals {
    if steps == [] then ZERO else Gain(sc, key, steps[0]).Plus(Plain(sc, key, steps[1..]))
  }

  function Counted(t: Trail): Totals { Logged(t.log).Plus(Pending(t)) }

  lemma RecordPends(sc: Scale, t: Trail, e: Event, now: int)
    requires e.Event?
    ensures RecordTrail(sc, t, e, now).log == t.log
    ensures Pending(RecordTrail(sc, t, e, now)) == Pending(t).Plus(One(sc, e))
  {
    hide Sample, Rejects, Timeouts;
    assert multiset{} + Sample(sc, e) == Sample(sc, e);
  }

  lemma RecordCounts(sc: Scale, t: Trail, e: Event, now: int)
    requires e.Event?
    ensures Counted(RecordTrail(sc, t, e, now)) == Counted(t).Plus(One(sc, e))
  {
    hide Logged, Pending, RecordTrail, Totals.Plus, One;
    RecordPends(sc, t, e, now);
    PlusAssociates(Logged(t.log), Pending(t), One(sc, e));
  }

  lemma FlushCounts(sc: Scale, size: int, t: Trail, now: int)
    ensures Counted(FlushTrail(sc, size, t, now)) == Counted(t)
  {
    if t.open.Some? {
      var log' := FlushTrail(sc, size, t, now).log;
      assert log'[..|log'| - 1] == t.log;
      assert Logged(log') == Logged(t.log).Plus(Pending(t));
      PlusAssociates(Logged(log'), ZERO, ZERO);
    }
  }

  lemma StepCounts(sc: Scale, size: int, ts: Trails, s: Step, key: string)
    ensures Counted(Lookup(Advance(sc, size, ts, s), key)) == Counted(Lookup(ts, key)).Plus(Gain(sc, key, s))
  {
    hide Totals.Plus, Counted, RecordTrail, FlushTrail;
    var t := Lookup(ts, key);
    PlusAssociates(Counted(t), ZERO, ZERO);
    match s
    case Record(e, now) =>
      if Mine(key, e) {
        RecordCounts(sc, t, e, now);
      }
    case Flush(now) =>
      FlushCounts(sc, size, t, now);
      FlushNew(sc, size, now);
  }

  lemma FlushNew(sc: Scale, size: int, now: int)
    ensures FlushTrail(sc, size, NEW, now) == NEW
  {
  }

  /** Whatever the flush schedule, flushed windows and open window together count exactly the
      run's accepted events, and their histograms hold exactly its samples. */
  lemma {:induction false} CountedOnce(sc: Scale, size: int, ts: Trails, steps: seq<Step>, key: string)
    ensures Counted(Lookup(AdvanceAll(sc, size, ts, steps), key))
         == Counted(Lookup(ts, key)).Plus(Plain(sc, key, steps))
    decreases |steps|
  {
    hide Totals.Plus, Counted, Advance, Gain;
    var c := Counted(Lookup(ts, key));
    if steps == [] {
      PlusAssociates(c, ZERO, ZERO);
    } else {
      StepCounts(sc, size, ts, steps[0], key);
      CountedOnce(sc, size, Advance(sc, size, ts, steps[0]), steps[1..], key);
      PlusAssociates(c, Gain(sc, key, steps[0]), Plain(sc, key, steps[1..]));
    }
  }

  /** The accepted events of a run, in order. */
  function RecordsOf(key: string, steps: seq<Step>): (es: seq<Event>)
    ensures forall i :: 0 <= i < |es| ==> es[i].Event?
  {
    if steps == [] then []
    else if steps[0].Record? && Mine(key, steps[0].e) then [steps[0].e] + RecordsOf(key, steps[1..])
    else RecordsOf(key, steps[1..])
  }

  function PlainEvents(sc: Scale, es: seq<Event>): Totals
    requires forall i :: 0 <= i < |es| ==> es[i].Event?
  {
    if es == [] then ZERO else One(sc, es[0]).Plus(PlainEvents(sc, es[1..]))
  }

  lemma {:induction false} PlainIsOfEvents(sc: Scale, key: string, steps: seq<Step>)
    ensures Plain(sc, key, steps) == PlainEvents(sc, RecordsOf(key, steps))
    decreases |steps|
  {
    hide Totals.Plus, One;
    if steps != [] {
      PlainIsOfEvents(sc, key, steps[1..]);
      PlusAssociates(Plain(sc, key, steps[1..]), ZERO, ZERO);
      if steps[0].Record? && Mine(key, steps[0].e) {
        assert RecordsOf(key, steps)[1..] == RecordsOf(key, steps[1..]);
      }
    }
  }

  /** Two flush schedules of the same events that both end flushed report the same whole-run counts,
      rejects, timeouts and histogram, hence the same percentiles. */
  lemma ScheduleDoesNotMatter(sc: Scale, size: int, key: string, a: seq<Step>, b: seq<Step>)
    requires RecordsOf(key, a) == RecordsOf(key, b)
    requires Lookup(AdvanceAll(sc, size, map[], a), key).open.None?
    requires Lookup(AdvanceAll(sc, size, map[], b), key).open.None?
    ensures Logged(Lookup(AdvanceAll(sc, size, map[], a), key).log)
         == Logged(Lookup(AdvanceAll(sc, size, map[], b), key).log)
  {
    hide Totals.Plus, Logged, AdvanceAll, Plain;
    var ta, tb := Lookup(AdvanceAll(sc, size, map[], a), key), Lookup(AdvanceAll(sc, size, map[], b), key);
    CountedOnce(sc, size, map[], a, key);
    CountedOnce(sc, size, map[], b, key);
    PlainIsOfEvents(sc, key, a);
    PlainIsOfEvents(sc, key, b);
    PlusAssociates(Logged(ta.log), ZERO, ZERO);
    PlusAssociates(Logged(tb.log), ZERO, ZERO);
  }

  // ---------- the bounded ring and the whole-run accumulator ----------

  const HISTORY := 60

  /** The newest windows that the ring retains. */
  function Ring(log: seq<Flushed>): seq<Flushed> {
    if |log| > HISTORY then log[|log| - HISTORY..] else log
  }

  function Spent(log: seq<Flushed>): int {
    if log == [] then 0 else Spent(log[..|log| - 1]) + log[|log| - 1].snap.duration
  }

  datatype Merged = Merged(contestant: string, submission: string, windows: nat, duration: int,
                           count: nat, rejected: nat, timeouts: nat, tps: real,
                           p50: int, p90: int, p99: int, p999: int)

  function MergedOf(sc: Scale, contestant: string, submission: string, log: seq<Flushed>): Merged {
    var t := Logged(log);
    Merged(contestant, submission, |log|, Spent(log), t.count, t.rejected, t.timeouts, Rate(t.count, Spent(log)),
           sc.quantile(t.hist, 500), sc.quantile(t.hist, 900), sc.quantile(t.hist, 990), sc.quantile(t.hist, 999))
  }

  /** The whole run: every window ever flushed, tagged as its first window was. */
  function WholeRun(sc: Scale, log: seq<Flushed>): Merged
    requires log != []
  {
    MergedOf(sc, log[0].snap.contestant, log[0].snap.submission, log)
  }

  /** The last `n` retained windows, tagged as the newest one is. */
  function Recent(sc: Scale, log: seq<Flushed>, n: nat): Merged
    requires log != [] && n > 0
  {
    var ring := Ring(log);
    var kept := if n > |ring| then ring else ring[|ring| - n..];
    MergedOf(sc, kept[|kept| - 1].snap.contestant, kept[|kept| - 1].snap.submission, kept)
  }

  /** While nothing has been evicted, merging the whole ring gives the whole-run figures; the
      identity tags may still differ. */
  lemma RingIsWholeRun(sc: Scale, log: seq<Flushed>, n: nat)
    requires 0 < |log| <= HISTORY && n >= |log|
    ensures WholeRun(sc, log)
         == Recent(sc, log, n).(contestant := log[0].snap.contestant, submission := log[0].snap.submission)
  {
    assert n == |log| ==> log[|log| - n..] == log;
  }

  /** Flushing keeps the ring the newest windows of the log. */
  lemma RingAppend(log: seq<Flushed>, f: Flushed)
    ensures Ring(log + [f]) == if |Ring(log)| + 1 > HISTORY then (Ring(log) + [f])[1..] else Ring(log) + [f]
    ensures |Ring(log)| == if |log| < HISTORY then |log| else HISTORY
  {
    if |log| >= HISTORY {
      var cut := |log| + 1 - HISTORY;
      assert (log + [f])[cut..] == log[cut..] + [f];
      assert Ring(log)[1..] == log[cut..] || |log| == HISTORY;
    }
  }

  // ---------- identity tags ----------

  datatype Tag = Tag(contestant: string, submission: string)

  function TagOf(e: Event): Tag
    requires e.Event?
  {
    Tag(e.contestant, e.submission)
  }

  function LogTag(f: Flushed): Tag { Tag(f.snap.contestant, f.snap.submission) }

  ghost predicate OneTag(t: Trail, tag: Tag) {
    && (t.open.Some? ==> Tag(t.open.value.contestant, t.open.value.submission) == tag)
    && forall f :: f in t.log ==> LogTag(f) == tag
  }

  /** Events of one run that all name the same contestant and submission. */
  ghost predicate SameTags(es: seq<Event>) {
    forall e, e' :: e in es && e' in es && e.Event? && e'.Event? ==> TagOf(e) == TagOf(e')
  }

  /** However these events are split into windows, all the windows of the run are tagged alike. */
  ghost predicate WindowsTaggedAlike(sc: Scale, size: int, key: string, es: seq<Event>) {
    forall steps :: RecordsOf(key, steps) == es ==>
      var log := Lookup(AdvanceAll(sc, size, map[], steps), key).log;
      forall f, f' :: f in log && f' in log ==> LogTag(f) == LogTag(f')
  }

  lemma {:induction false} OneTagKept(sc: Scale, size: int, key: string, ts: Trails, steps: seq<Step>, tag: Tag)
    requires OneTag(Lookup(ts, key), tag)
    requires forall e :: e in RecordsOf(key, steps) ==> e.Event? && TagOf(e) == tag
    ensures OneTag(Lookup(AdvanceAll(sc, size, ts, steps), key), tag)
    decreases |steps|
  {
    if steps != [] {
      var rest := RecordsOf(key, steps[1..]);
      assert forall e :: e in rest ==> e in RecordsOf(key, steps);
      if steps[0].Record? && Mine(key, steps[0].e) {
        assert RecordsOf(key, steps)[0] == steps[0].e;
      }
      OneTagKept(sc, size, key, Advance(sc, size, ts, steps[0]), steps[1..], tag);
    }
  }

  /** A flush after every record gives every event a window of its own. */
  function Eager(es: seq<Event>): seq<Step> {
    if es == [] then [] else [Record(es[0], 0), Flush(0)] + Eager(es[1..])
  }

  lemma EagerStep(sc: Scale, size: int, key: string, ts: Trails, e: Event)
    requires Mine(key, e) && Lookup(ts, key).open.None?
    ensures var t := Lookup(Advance(sc, size, Advance(sc, size, ts, Record(e, 0)), Flush(0)), key);
      && t.open.None? && |t.log| == |Lookup(ts, key).log| + 1
      && t.log[..|t.log| - 1] == Lookup(ts, key).log && LogTag(t.log[|t.log| - 1]) == TagOf(e)
  {
  }

  lemma EagerUnfolds(sc: Scale, size: int, key: string, ts: Trails, es: seq<Event>)
    requires es != [] && Mine(key, es[0])
    ensures AdvanceAll(sc, size, ts, Eager(es))
         == AdvanceAll(sc, size, Advance(sc, size, Advance(sc, size, ts, Record(es[0], 0)), Flush(0)), Eager(es[1..]))
    ensures RecordsOf(key, Eager(es)) == [es[0]] + RecordsOf(key, Eager(es[1..]))
  {
    hide Advance;
    var steps := Eager(es);
    assert steps[1..] == [Flush(0)] + Eager(es[1..]);
    assert steps[1..][1..] == Eager(es[1..]);
  }

  lemma {:induction false} EagerShowsTags(sc: Scale, size: int, key: string, ts: Trails, es: seq<Event>)
    requires forall e :: e in es ==> Mine(key, e)
    requires Lookup(ts, key).open.None?
    ensures RecordsOf(key, Eager(es)) == es
    ensures var log := Lookup(AdvanceAll(sc, size, ts, Eager(es)), key).log;
      && (forall f :: f in Lookup(ts, key).log ==> f in log)
      && forall e :: e in es ==> exists f :: f in log && LogTag(f) == TagOf(e)
    decreases |es|
  {
    hide Advance;
    if es != [] {
      EagerUnfolds(sc, size, key, ts, es);
      EagerStep(sc, size, key, ts, es[0]);
      var ts' := Advance(sc, size, Advance(sc, size, ts, Record(es[0], 0)), Flush(0));
      EagerShowsTags(sc, size, key, ts', es[1..]);
      var log, log' := Lookup(ts, key).log, Lookup(ts', key).log;
      assert log' == log + [log'[|log|]];
      assert log'[|log|] in log';
      forall e | e in es
        ensures exists f :: f in Lookup(AdvanceAll(sc, size, ts, Eager(es)), key).log && LogTag(f) == TagOf(e)
      {
        assert e != es[0] ==> e in es[1..];
      }
    }
  }

  /** The windows of one run share their identity tags, for every flush schedule, exactly when all its
      events name the same contestant and submission: sharing the run key is not enough. */
  lemma TaggedAlikeIff(sc: Scale, size: int, key: string, es: seq<Event>)
    requires forall e :: e in es ==> Mine(key, e)
    ensures WindowsTaggedAlike(sc, size, key, es) <==> SameTags(es)
  {
    hide AdvanceAll, RecordsOf, Eager;
    if SameTags(es) {
      forall steps | RecordsOf(key, steps) == es
        ensures var log := Lookup(AdvanceAll(sc, size, map[], steps), key).log;
          forall f, f' :: f in log && f' in log ==> LogTag(f) == LogTag(f')
      {
        var tag := if es == [] then Tag("", "") else TagOf(es[0]);
        OneTagKept(sc, size, key, map[], steps, tag);
      }
    }
    EagerShowsTags(sc, size, key, map[], es);
  }

  /** Two contestants under one submission id: one run key, two tags. */
  lemma SharedSubmissionMixesTags(sc: Scale, size: int, a: Event, b: Event)
    requires Accepted(a) && Accepted(b) && a.submission == b.submission != "" && a.contestant != b.contestant
    ensures RunKey(a) == RunKey(b) && !WindowsTaggedAlike(sc, size, RunKey(a), [a, b])
  {
    TaggedAlikeIff(sc, size, RunKey(a), [a, b]);
    hide WindowsTaggedAlike;
    assert a in [a, b] && b in [a, b];
  }
}
