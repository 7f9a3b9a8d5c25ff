/** What the windows of a run add up to, said of the plain stream of records, and what every reported figure
    is read from. */
module Counts {
  import opened Options
  import opened Telemetry
  import opened Windows

  /** A record that belongs to a run: it names a contestant, and its submission is the key, or its contestant
      where it has no submission. */
  predicate IsOf(key: string, s: Step) {
    && s.Record? && s.e.Event? && s.e.contestant != ""
    && (if s.e.submission != "" then s.e.submission == key else s.e.contestant == key)
  }

  ghost function RecordedAt(key: string, steps: seq<Step>): set<int> {
    set i | 0 <= i < |steps| && IsOf(key, steps[i])
  }

  ghost function RejectedAt(key: string, steps: seq<Step>): set<int> {
    set i | 0 <= i < |steps| && IsOf(key, steps[i]) && steps[i].e.result == ResultRejected
  }

  ghost function TimedOutAt(key: string, steps: seq<Step>): set<int> {
    set i | 0 <= i < |steps| && IsOf(key, steps[i]) && steps[i].e.result == ResultTimeout
  }

  /** A record's positive latency that the histogram can record falls into bucket `b`. */
  predicate Falls(sc: Scale, key: string, s: Step, b: int) {
    IsOf(key, s) && s.e.latency > 0 && sc.recordable(s.e.latency) && sc.bucket(s.e.latency) == b
  }

  ghost function SampledAt(sc: Scale, key: string, steps: seq<Step>, b: int): set<int> {
    set i | 0 <= i < |steps| && Falls(sc, key, steps[i], b)
  }

  /** The totals count the run's records, its rejections, its timeouts, and its samples bucket by bucket. */
  ghost predicate CountsExactly(sc: Scale, key: string, steps: seq<Step>, t: Totals) {
    && t.count == |RecordedAt(key, steps)|
    && t.rejected == |RejectedAt(key, steps)|
    && t.timeouts == |TimedOutAt(key, steps)|
    && forall b :: t.hist[b] == |SampledAt(sc, key, steps, b)|
  }

  lemma PlusAdds(x: Totals, y: Totals)
    ensures var t := x.Plus(y);
      && t.count == x.count + y.count && t.rejected == x.rejected + y.rejected
      && t.timeouts == x.timeouts + y.timeouts && forall b :: t.hist[b] == x.hist[b] + y.hist[b]
  {
  }

  lemma GainIs(sc: Scale, key: string, s: Step)
    ensures var t := Gain(sc, key, s);
      && t.count == (if IsOf(key, s) then 1 else 0)
      && t.rejected == (if IsOf(key, s) && s.e.result == ResultRejected then 1 else 0)
      && t.timeouts == (if IsOf(key, s) && s.e.result == ResultTimeout then 1 else 0)
      && forall b :: t.hist[b] == if Falls(sc, key, s, b) then 1 else 0
  {
  }

  lemma {:induction false} PlainSnoc(sc: Scale, key: string, steps: seq<Step>, s: Step)
    ensures Plain(sc, key, steps + [s]) == Plain(sc, key, steps).Plus(Gain(sc, key, s))
    decreases |steps|
  {
    hide Totals.Plus, Gain;
    PlusAssociates(Gain(sc, key, s), ZERO, ZERO);
    if steps == [] {
      assert [] + [s] == [s];
    } else {
      assert (steps + [s])[1..] == steps[1..] + [s];
      PlainSnoc(sc, key, steps[1..], s);
      PlusAssociates(Gain(sc, key, steps[0]), Plain(sc, key, steps[1..]), Gain(sc, key, s));
    }
  }

  lemma RecordedSnoc(key: string, steps: seq<Step>, s: Step)
    ensures |RecordedAt(key, steps + [s])| == |RecordedAt(key, steps)| + if IsOf(key, s) then 1 else 0
  {
    hide IsOf;
    assert RecordedAt(key, steps + [s]) == RecordedAt(key, steps) + if IsOf(key, s) then {|steps|} else {};
  }

  lemma RejectedSnoc(key: string, steps: seq<Step>, s: Step)
    ensures |RejectedAt(key, steps + [s])|
         == |RejectedAt(key, steps)| + if IsOf(key, s) && s.e.result == ResultRejected then 1 else 0
  {
    assert RejectedAt(key, steps + [s])
        == RejectedAt(key, steps) + if IsOf(key, s) && s.e.result == ResultRejected then {|steps|} else {};
  }

  lemma TimedOutSnoc(key: string, steps: seq<Step>, s: Step)
    ensures |TimedOutAt(key, steps + [s])|
         == |TimedOutAt(key, steps)| + if IsOf(key, s) && s.e.result == ResultTimeout then 1 else 0
  {
    assert TimedOutAt(key, steps + [s])
        == TimedOutAt(key, steps) + if IsOf(key, s) && s.e.result == ResultTimeout then {|steps|} else {};
  }

  lemma SampledSnoc(sc: Scale, key: string, steps: seq<Step>, s: Step, b: int)
    ensures |SampledAt(sc, key, steps + [s], b)|
         == |SampledAt(sc, key, steps, b)| + if Falls(sc, key, s, b) then 1 else 0
  {
    hide Falls;
    assert SampledAt(sc, key, steps + [s], b)
        == SampledAt(sc, key, steps, b) + if Falls(sc, key, s, b) then {|steps|} else {};
  }

  lemma NothingCounted(sc: Scale, key: string)
    ensures CountsExactly(sc, key, [], ZERO)
  {
    hide IsOf, Falls;
    assert RecordedAt(key, []) == {} && RejectedAt(key, []) == {} && TimedOutAt(key, []) == {};
    forall b ensures SampledAt(sc, key, [], b) == {} {
    }
  }

  lemma OneMoreCounted(sc: Scale, key: string, steps: seq<Step>, s: Step, t: Totals)
    requires CountsExactly(sc, key, steps, t)
    ensures CountsExactly(sc, key, steps + [s], t.Plus(Gain(sc, key, s)))
  {
    hide Totals.Plus, Gain, IsOf, Falls, RecordedAt, RejectedAt, TimedOutAt, SampledAt;
    PlusAdds(t, Gain(sc, key, s));
    GainIs(sc, key, s);
    RecordedSnoc(key, steps, s);
    RejectedSnoc(key, steps, s);
    TimedOutSnoc(key, steps, s);
    forall b ensures t.Plus(Gain(sc, key, s)).hist[b] == |SampledAt(sc, key, steps + [s], b)| {
      SampledSnoc(sc, key, steps, s, b);
    }
  }

  lemma {:induction false} PlainCounts(sc: Scale, key: string, steps: seq<Step>)
    ensures CountsExactly(sc, key, steps, Plain(sc, key, steps))
    decreases |steps|
  {
    hide CountsExactly, Totals.Plus, Gain;
    if steps == [] {
      NothingCounted(sc, key);
    } else {
      var n := |steps| - 1;
      assert steps == steps[..n] + [steps[n]];
      PlainCounts(sc, key, steps[..n]);
      PlainSnoc(sc, key, steps[..n], steps[n]);
      OneMoreCounted(sc, key, steps[..n], steps[n], Plain(sc, key, steps[..n]));
    }
  }

  /** However records and flushes interleave, the flushed windows and the open window of a run hold together as
      many events as it has records, as many rejections and timeouts as those report, and in each bucket as many
      samples as fall there. */
  lemma WindowsCountRecords(sc: Scale, size: int, key: string, steps: seq<Step>)
    ensures var t := Lookup(AdvanceAll(sc, size, map[], steps), key);
      CountsExactly(sc, key, steps, Counted(t)) && InLogOrOpen(t, Counted(t))
  {
    hide *;
    var t := Lookup(AdvanceAll(sc, size, map[], steps), key);
    CountedOnce(sc, size, map[], steps, key);
    PlainCounts(sc, key, steps);
    NothingYet(key);
    PlusAssociates(Plain(sc, key, steps), ZERO, ZERO);
    CountedIsInBoth(t);
  }

  /** The totals are those of the flushed windows and of the open window, added up. */
  ghost predicate InLogOrOpen(t: Trail, x: Totals) {
    var log := Logged(t.log);
    if t.open.None? then x == log
    else
      var w := t.open.value;
      && x.count == log.count + w.count && x.rejected == log.rejected + w.rejected
      && x.timeouts == log.timeouts + w.timeouts && x.hist == log.hist + w.hist
  }

  lemma CountedIsInBoth(t: Trail)
    ensures InLogOrOpen(t, Counted(t))
  {
    hide Logged;
    PlusAssociates(Logged(t.log), ZERO, ZERO);
  }

  lemma NothingYet(key: string)
    ensures Counted(Lookup(map[], key)) == ZERO
  {
    hide Totals.Plus, Logged, Pending;
    NewHasNothing();
    PlusAssociates(ZERO, ZERO, ZERO);
  }

  lemma NewHasNothing()
    ensures Logged(NEW.log) == ZERO && Pending(NEW) == ZERO
  {
    hide Totals.Plus;
  }

  /** The open window of a run holds what came after the last flush: it starts at the clock of its first event
      and carries that event's names. */
  lemma OpensAtFirstEvent(sc: Scale, t: Trail, e: Event, now: int)
    requires e.Event?
    ensures var w := RecordTrail(sc, t, e, now).open;
      && w.Some?
      && w.value.start == (if t.open.Some? then t.open.value.start else now)
      && w.value.contestant == (if t.open.Some? then t.open.value.contestant else e.contestant)
      && w.value.submission == (if t.open.Some? then t.open.value.submission else e.submission)
      && w.value.count == (if t.open.Some? then t.open.value.count else 0) + 1
  {
  }

  /** The percentiles of a report are the 500th, 900th, 990th and 999th thousandths of its histogram. */
  ghost predicate Reads(sc: Scale, hist: Hist, p50: int, p90: int, p99: int, p999: int) {
    && p50 == sc.quantile(hist, 500) && p90 == sc.quantile(hist, 900)
    && p99 == sc.quantile(hist, 990) && p999 == sc.quantile(hist, 999)
  }

  /** Times are in nanoseconds: the rate times the seconds is the count, and zero where no time passed. */
  ghost predicate IsRate(tps: real, count: nat, duration: int) {
    && (duration > 0 ==> tps * duration as real == count as real * 1_000_000_000.0)
    && (duration <= 0 ==> tps == 0.0)
  }

  lemma RateIsRate(count: nat, duration: int)
    ensures IsRate(Rate(count, duration), count, duration)
  {
    if duration > 0 {
      var d, n := duration as real, count as real;
      assert n / (d / 1_000_000_000.0) * (d / 1_000_000_000.0) == n;
    }
  }

  /** What a flush reports of an open window: its own figures, over the time since it opened, or over the
      configured size where the clock did not advance. */
  lemma FlushReports(sc: Scale, size: int, t: Trail, now: int)
    ensures t.open.None? ==> FlushTrail(sc, size, t, now) == t
    ensures t.open.Some? ==>
      var w, t' := t.open.value, FlushTrail(sc, size, t, now);
      && t'.open.None? && |t'.log| == |t.log| + 1 && t'.log[..|t.log|] == t.log
      && var f := t'.log[|t.log|];
         && f.hist == w.hist && f.snap.count == w.count
         && f.snap.rejected == w.rejected && f.snap.timeouts == w.timeouts
         && f.snap.contestant == w.contestant && f.snap.submission == w.submission && f.snap.start == w.start
         && (now > w.start ==> f.snap.duration == now - w.start) && (now <= w.start ==> f.snap.duration == size)
         && IsRate(f.snap.tps, w.count, f.snap.duration)
         && Reads(sc, w.hist, f.snap.p50, f.snap.p90, f.snap.p99, f.snap.p999)
  {
    hide IsRate, Rate;
    if t.open.Some? {
      RateIsRate(t.open.value.count, Lasted(size, t.open.value, now));
    }
  }

  /** The totals of a log are the sums over its windows, and so is its time. */
  lemma {:induction false} LoggedIsSum(log: seq<Flushed>, log': seq<Flushed>)
    ensures Logged(log + log') == Logged(log).Plus(Logged(log'))
    ensures Spent(log + log') == Spent(log) + Spent(log')
    ensures forall f :: Logged([f]) == Totals(f.snap.count, f.snap.rejected, f.snap.timeouts, f.hist)
    ensures forall f :: Spent([f]) == f.snap.duration
    decreases |log'|
  {
    hide Totals.Plus;
    SingleLogged();
    if log' == [] {
      assert log + log' == log;
      PlusAssociates(Logged(log), ZERO, ZERO);
    } else {
      var n := |log'| - 1;
      assert (log + log')[..|log + log'| - 1] == log + log'[..n];
      LoggedIsSum(log, log'[..n]);
      PlusAssociates(Logged(log), Logged(log'[..n]),
                     Totals(log'[n].snap.count, log'[n].snap.rejected, log'[n].snap.timeouts, log'[n].hist));
    }
  }

  lemma SingleLogged()
    ensures forall f :: Logged([f]) == Totals(f.snap.count, f.snap.rejected, f.snap.timeouts, f.hist)
    ensures forall f :: Spent([f]) == f.snap.duration
  {
    forall f: Flushed
      ensures Logged([f]) == Totals(f.snap.count, f.snap.rejected, f.snap.timeouts, f.hist)
      ensures Spent([f]) == f.snap.duration
    {
      assert [f][..0] == [];
      PlusAssociates(Totals(f.snap.count, f.snap.rejected, f.snap.timeouts, f.hist), ZERO, ZERO);
    }
  }

  /** A merge of windows reports their sums, and reads rate and percentiles off the sums. */
  ghost predicate Merges(sc: Scale, log: seq<Flushed>, m: Merged) {
    && m.windows == |log| && m.duration == Spent(log)
    && m.count == Logged(log).count && m.rejected == Logged(log).rejected && m.timeouts == Logged(log).timeouts
    && IsRate(m.tps, m.count, m.duration) && Reads(sc, Logged(log).hist, m.p50, m.p90, m.p99, m.p999)
  }

  /** The whole run merges every window ever flushed; the recent view the last `n`, of which at most 60 are kept. */
  lemma MergesAre(sc: Scale, log: seq<Flushed>, n: nat)
    requires log != [] && n > 0
    ensures var whole, oldest := WholeRun(sc, log), log[0].snap;
      && Merges(sc, log, whole)
      && whole.contestant == oldest.contestant && whole.submission == oldest.submission
    ensures var k := if n < |log| && n < 60 then n else if |log| < 60 then |log| else 60;
      var m, newest := Recent(sc, log, n), log[|log| - 1].snap;
      && Merges(sc, log[|log| - k..], m)
      && m.contestant == newest.contestant && m.submission == newest.submission
  {
    var k := if n < |log| && n < 60 then n else if |log| < 60 then |log| else 60;
    RecentIsNewest(sc, log, n, k);
    hide Recent, Merges, MergedOf;
    MergedReads(sc, log[0].snap.contestant, log[0].snap.submission, log);
    MergedReads(sc, log[|log| - 1].snap.contestant, log[|log| - 1].snap.submission, log[|log| - k..]);
  }

  lemma RecentIsNewest(sc: Scale, log: seq<Flushed>, n: nat, k: nat)
    requires log != [] && n > 0
    requires k == if n < |log| && n < 60 then n else if |log| < 60 then |log| else 60
    ensures Recent(sc, log, n)
         == MergedOf(sc, log[|log| - 1].snap.contestant, log[|log| - 1].snap.submission, log[|log| - k..])
  {
    hide MergedOf, Ring;
    NewestOfRing(log, n, k);
    assert log[|log| - k..][k - 1] == log[|log| - 1];
  }

  lemma NewestOfRing(log: seq<Flushed>, n: nat, k: nat)
    requires log != [] && n > 0
    requires k == if n < |log| && n < 60 then n else if |log| < 60 then |log| else 60
    ensures var ring := Ring(log); (if n > |ring| then ring else ring[|ring| - n..]) == log[|log| - k..]
  {
    var ring := Ring(log);
    var from := |log| - |ring|;
    assert ring == log[from..];
    assert n <= |ring| ==> log[from..][|ring| - n..] == log[|log| - n..];
  }

  lemma MergedReads(sc: Scale, contestant: string, submission: string, log: seq<Flushed>)
    ensures Merges(sc, log, MergedOf(sc, contestant, submission, log))
    ensures MergedOf(sc, contestant, submission, log).contestant == contestant
    ensures MergedOf(sc, contestant, submission, log).submission == submission
  {
    hide Logged, Spent, IsRate, Rate;
    RateIsRate(Logged(log).count, Spent(log));
  }
}
