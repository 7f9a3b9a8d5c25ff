/** The aggregator service: open windows, a bounded ring of flushed windows and a whole-run accumulator
    per run, sharing histogram objects, proved against `Windows.Advance`. */
module Aggregator {
  import opened Options
  import opened Telemetry
  import opened Windows
  import Counts

  /** What a histogram object of a run belongs to: the whole-run accumulator, or the n-th window. */
  datatype Owner = Whole | Nth(n: nat)

  class Histogram {
    ghost const owner: Owner
    var counts: Hist

    constructor (ghost owner: Owner)
      ensures counts == multiset{} && this.owner == owner
    {
      this.owner, counts := owner, multiset{};
    }

    method RecordValue(sc: Scale, latency: int)
      modifies this
      ensures counts == old(counts) + if sc.recordable(latency) then multiset{sc.bucket(latency)} else multiset{}
    {
      if sc.recordable(latency) {
        counts := counts + multiset{sc.bucket(latency)};
      }
    }

    /** Adds `that` into this histogram and leaves `that` alone. */
    method Merge(that: Histogram)
      requires that != this
      modifies this
      ensures counts == old(counts) + that.counts
    {
      counts := counts + that.counts;
    }
  }

  class WindowState {
    const contestant: string
    const submission: string
    const start: int
    const hist: Histogram
    var count: nat
    var rejected: nat
    var timeouts: nat

    constructor (contestant: string, submission: string, start: int, hist: Histogram)
      ensures this.hist == hist && View() == Window(contestant, submission, start, hist.counts, 0, 0, 0)
    {
      this.contestant, this.submission, this.start, this.hist := contestant, submission, start, hist;
      count, rejected, timeouts := 0, 0, 0;
    }

    function View(): Window
      reads this, hist
    {
      Window(contestant, submission, start, hist.counts, count, rejected, timeouts)
    }

    /** The body of Record once the window is open. */
    method Take(sc: Scale, e: Event)
      requires e.Event?
      modifies this, hist
      ensures View() == RecordIn(sc, old(View()), e)
    {
      if e.latency > 0 {
        hist.RecordValue(sc, e.latency);
      }
      count := count + 1;
      if e.result == ResultRejected {
        rejected := rejected + 1;
      } else if e.result == ResultTimeout {
        timeouts := timeouts + 1;
      }
    }
  }

  class CumState {
    const contestant: string
    const submission: string
    const hist: Histogram
    var windowCount: nat
    var totalCount: nat
    var totalRejected: nat
    var totalTimeouts: nat
    var totalDur: int

    constructor (contestant: string, submission: string, hist: Histogram)
      requires hist.counts == multiset{}
      ensures this.contestant == contestant && this.submission == submission && this.hist == hist
      ensures Sums([])
    {
      this.contestant, this.submission, this.hist := contestant, submission, hist;
      windowCount, totalCount, totalRejected, totalTimeouts, totalDur := 0, 0, 0, 0, 0;
    }

    /** The accumulator holds the sums over `log`. */
    ghost predicate Sums(log: seq<Flushed>)
      reads this, hist
    {
      && Logged(log) == Totals(totalCount, totalRejected, totalTimeouts, hist.counts)
      && windowCount == |log| && totalDur == Spent(log)
      && (log != [] ==> contestant == log[0].snap.contestant && submission == log[0].snap.submission)
    }

    /** Fold one flushed window into the accumulator. */
    method Fold(snap: Snapshot, window: Histogram, ghost log: seq<Flushed>)
      requires Sums(log) && window != hist
      requires log == [] ==> contestant == snap.contestant && submission == snap.submission
      modifies this, hist
      ensures Sums(log + [Flushed(snap, window.counts)])
    {
      ghost var log' := log + [Flushed(snap, window.counts)];
      assert log'[..|log'| - 1] == log;
      hist.Merge(window);
      windowCount := windowCount + 1;
      totalCount := totalCount + snap.count;
      totalRejected := totalRejected + snap.rejected;
      totalTimeouts := totalTimeouts + snap.timeouts;
      totalDur := totalDur + snap.duration;
    }

    method Render(sc: Scale, ghost log: seq<Flushed>) returns (m: Merged)
      requires Sums(log) && log != []
      ensures m == WholeRun(sc, log)
    {
      m := Merged(contestant, submission, windowCount, totalDur, totalCount, totalRejected, totalTimeouts,
                  Rate(totalCount, totalDur),
                  sc.quantile(hist.counts, 500), sc.quantile(hist.counts, 900),
                  sc.quantile(hist.counts, 990), sc.quantile(hist.counts, 999));
    }
  }

  datatype FlushedRef = FlushedRef(snap: Snapshot, hist: Histogram)

  /** One run: its entries in the open, latest, history and cumulative maps. */
  class Track {
    var open: WindowState?
    var latest: Option<Snapshot>
    var ring: seq<FlushedRef>
    var cum: CumState?
    /** The run as a value. */
    ghost var trail: Trail
    ghost var Repr: set<object>

    ghost function RingHists(): set<Histogram>
      reads `ring
    {
      set r | r in ring :: r.hist
    }

    /** The ring is the newest windows of the log, and `latest` the very newest. */
    ghost predicate RingShows(log: seq<Flushed>)
      reads `ring, `latest, RingHists()
    {
      && |ring| == |Ring(log)|
      && (latest.Some? <==> log != []) && (latest.Some? ==> latest.value == log[|log| - 1].snap)
      && forall i :: 0 <= i < |ring| ==> Flushed(ring[i].snap, ring[i].hist.counts) == Ring(log)[i]
    }

    /** Every histogram has its own place: flushed windows, the open window and the accumulator
        never share one. */
    ghost predicate Apart()
      reads this
    {
      && (forall h :: h in RingHists() ==> h in Repr && h.owner.Nth? && h.owner.n < |trail.log|)
      && (open != null ==> open in Repr && open.hist in Repr && open.hist.owner == Nth(|trail.log|))
      && (cum != null ==> cum in Repr && cum.hist in Repr && cum.hist.owner == Whole)
    }

    ghost predicate Valid()
      reads this, Repr
    {
      && this in Repr && Apart()
      && (open != null <==> trail.open.Some?) && (open != null ==> open.View() == trail.open.value)
      && (cum != null <==> trail.log != []) && (cum != null ==> cum.Sums(trail.log))
      && RingShows(trail.log)
    }

    constructor ()
      ensures Valid() && fresh(Repr) && this in Repr && trail == NEW
    {
      open, latest, ring, cum := null, None, [], null;
      trail, Repr := NEW, {this};
    }

    method OpenWindow(contestant: string, submission: string, now: int)
      requires Valid() && open == null
      modifies this
      ensures Valid() && fresh(Repr - old(Repr)) && open != null && ring == old(ring)
      ensures trail == old(trail).(open := Some(Window(contestant, submission, now, multiset{}, 0, 0, 0)))
    {
      hide RingShows, CumState.Sums;
      var hist := new Histogram(Nth(|trail.log|));
      open := new WindowState(contestant, submission, now, hist);
      trail := trail.(open := Some(open.View()));
      Repr := Repr + {open, hist};
    }

    method TakeEvent(sc: Scale, e: Event)
      requires Valid() && open != null && e.Event?
      modifies Repr
      ensures Valid() && Repr == old(Repr)
      ensures forall h :: h in old(RingHists()) ==> h.counts == old(h.counts)
      ensures trail == old(trail).(open := Some(RecordIn(sc, old(trail).open.value, e)))
    {
      hide RingShows, CumState.Sums;
      open.Take(sc, e);
      trail := trail.(open := Some(RecordIn(sc, trail.open.value, e)));
    }

    method Record(sc: Scale, e: Event, now: int)
      requires Valid() && e.Event?
      modifies Repr
      ensures Valid() && this in Repr && fresh(Repr - old(Repr))
      ensures forall h :: h in old(RingHists()) ==> h.counts == old(h.counts)
      ensures trail == RecordTrail(sc, old(trail), e, now)
    {
      hide RingShows, CumState.Sums, Apart;
      if open == null {
        OpenWindow(e.contestant, e.submission, now);
      }
      TakeEvent(sc, e);
    }

    /** Append a flushed window to the ring, evicting the oldest beyond the cap. */
    method PushRing(snap: Snapshot, hist: Histogram, ghost log: seq<Flushed>)
      requires RingShows(log)
      modifies `ring, `latest
      ensures RingShows(log + [Flushed(snap, hist.counts)])
      ensures RingHists() <= old(RingHists()) + {hist}
    {
      RingAppend(log, Flushed(snap, hist.counts));
      latest := Some(snap);
      ring := ring + [FlushedRef(snap, hist)];
      if |ring| > HISTORY {
        ring := ring[|ring| - HISTORY..];
      }
    }

    /** Fold a flushed window into the whole-run accumulator, created on the first flush. */
    method Accumulate(snap: Snapshot, hist: Histogram)
      requires (cum != null <==> trail.log != []) && (cum != null ==> cum.Sums(trail.log))
      requires cum != null ==> cum in Repr && cum.hist in Repr && cum.hist.owner == Whole
      requires hist.owner != Whole
      modifies `cum, `Repr, if cum != null then {cum, cum.hist} else {}
      ensures cum != null && cum in Repr && cum.hist in Repr && cum.hist.owner == Whole
      ensures Repr >= old(Repr) && fresh(Repr - old(Repr)) && hist.counts == old(hist.counts)
      ensures cum.Sums(trail.log + [Flushed(snap, hist.counts)])
      ensures old(cum) != null ==> cum == old(cum)
      ensures old(cum) == null ==> fresh(cum) && fresh(cum.hist)
    {
      hide CumState.Sums;
      if cum == null {
        var whole := new Histogram(Whole);
        cum := new CumState(snap.contestant, snap.submission, whole);
        Repr := Repr + {cum, whole};
      }
      cum.Fold(snap, hist, trail.log);
    }

    method Flush(sc: Scale, size: int, now: int) returns (snap: Snapshot)
      requires Valid() && trail.open.Some?
      modifies Repr
      ensures Valid() && this in Repr && fresh(Repr - old(Repr))
      ensures forall h :: h in old(RingHists()) ==> h.counts == old(h.counts)
      ensures trail == FlushTrail(sc, size, old(trail), now) && snap == trail.log[|trail.log| - 1].snap
    {
      hide RingShows, CumState.Sums;
      var ws := open;
      snap := SnapshotOf(sc, size, ws.View(), now);
      PushRing(snap, ws.hist, trail.log);
      Accumulate(snap, ws.hist);
      open := null;
      trail := FlushTrail(sc, size, trail, now);
    }

    lemma RingSuffix(n: nat)
      requires RingShows(trail.log) && n <= |ring|
      ensures |ring| == |Ring(trail.log)| && Shows(ring[|ring| - n..], Ring(trail.log)[|ring| - n..])
      ensures n == |ring| ==> Ring(trail.log)[|ring| - n..] == Ring(trail.log)
    {
    }

    /** While nothing has been evicted, the ring and the accumulator hold the same totals: counts, time and,
        bucket for bucket, histogram. */
    lemma RingIsAccumulator()
      requires Valid() && cum != null && |trail.log| <= HISTORY
      ensures |ring| == cum.windowCount && RingSpent(ring) == cum.totalDur
      ensures RingTotals(ring) == Totals(cum.totalCount, cum.totalRejected, cum.totalTimeouts, cum.hist.counts)
    {
      ShownTotals(ring, trail.log);
    }

    /** The merge of the last `windows` retained windows, or of the whole run when `windows` is not
        positive. */
    method MergedRecent(sc: Scale, windows: int) returns (m: Merged, ok: bool)
      requires Valid()
      ensures ok <==> trail.log != []
      ensures ok && windows <= 0 ==> m == WholeRun(sc, trail.log)
      ensures ok && windows > 0 ==> m == Recent(sc, trail.log, windows)
    {
      hide CumState.Sums, Apart, RingShows, WholeRun, Recent, Ring;
      m, ok := Merged("", "", 0, 0, 0, 0, 0, 0.0, 0, 0, 0, 0), false;
      if windows <= 0 {
        if cum == null {
          return;
        }
        m := cum.Render(sc, trail.log);
        return m, true;
      }
      RingEmpty();
      if |ring| == 0 {
        return;
      }
      m := MergedRing(sc, windows);
      ok := true;
    }

    /** The merge of the last `windows` retained windows. */
    method MergedRing(sc: Scale, windows: int) returns (m: Merged)
      requires RingShows(trail.log) && |ring| > 0 && windows > 0 && trail.log != []
      ensures m == Recent(sc, trail.log, windows)
    {
      hide RingShows, MergedOf, Shows, Ring, Recent;
      var n := if windows > |ring| then |ring| else windows;
      RingSuffix(n);
      RecentIs(sc, trail.log, windows, n);
      m := MergeWindows(sc, ring[|ring| - n..], Ring(trail.log)[|ring| - n..]);
    }

    lemma RingEmpty()
      requires RingShows(trail.log)
      ensures |ring| == 0 <==> trail.log == []
    {
    }
  }

  lemma RecentIs(sc: Scale, log: seq<Flushed>, windows: nat, n: nat)
    requires log != [] && windows > 0 && n == if windows > |Ring(log)| then |Ring(log)| else windows
    ensures var kept := Ring(log)[|Ring(log)| - n..];
      kept != [] && Recent(sc, log, windows)
                 == MergedOf(sc, kept[|kept| - 1].snap.contestant, kept[|kept| - 1].snap.submission, kept)
  {
    hide MergedOf;
    assert n == |Ring(log)| ==> Ring(log)[0..] == Ring(log);
  }

  /** The ring entries `kept` hold the windows `log`. */
  ghost predicate Shows(kept: seq<FlushedRef>, log: seq<Flushed>)
    reads set r | r in kept :: r.hist
  {
    |kept| == |log| && forall i :: 0 <= i < |kept| ==> Flushed(kept[i].snap, kept[i].hist.counts) == log[i]
  }

  /** The totals of the ring's own entries and histograms. */
  ghost function RingTotals(kept: seq<FlushedRef>): Totals
    reads set r | r in kept :: r.hist
  {
    if kept == [] then ZERO
    else
      var f := kept[|kept| - 1];
      RingTotals(kept[..|kept| - 1]).Plus(Totals(f.snap.count, f.snap.rejected, f.snap.timeouts, f.hist.counts))
  }

  function RingSpent(kept: seq<FlushedRef>): int {
    if kept == [] then 0 else RingSpent(kept[..|kept| - 1]) + kept[|kept| - 1].snap.duration
  }

  lemma {:induction false} ShownTotals(kept: seq<FlushedRef>, log: seq<Flushed>)
    requires Shows(kept, log)
    ensures RingTotals(kept) == Logged(log) && RingSpent(kept) == Spent(log)
    decreases |log|
  {
    if log != [] {
      var n := |log| - 1;
      assert Flushed(kept[n].snap, kept[n].hist.counts) == log[n];
      ShownTotals(kept[..n], log[..n]);
    }
  }

  /** Sum the windows' counters, and merge their histograms bucket by bucket. */
  method MergeWindows(sc: Scale, kept: seq<FlushedRef>, ghost log: seq<Flushed>) returns (m: Merged)
    requires kept != [] && Shows(kept, log)
    ensures m == MergedOf(sc, log[|log| - 1].snap.contestant, log[|log| - 1].snap.submission, log)
  {
    var hists: seq<Histogram?> := [];
    var count: nat, rejected: nat, timeouts: nat, duration := 0, 0, 0, 0;
    for i := 0 to |kept|
      invariant |hists| == i && forall j :: 0 <= j < i ==> hists[j] == kept[j].hist
      invariant Logged(log[..i]).(hist := multiset{}) == Totals(count, rejected, timeouts, multiset{})
      invariant duration == Spent(log[..i])
    {
      var f := kept[i];
      assert log[..i + 1][..i] == log[..i];
      hists := hists + [f.hist];
      count := count + f.snap.count;
      rejected := rejected + f.snap.rejected;
      timeouts := timeouts + f.snap.timeouts;
      duration := duration + f.snap.duration;
    }
    assert log[..|log|] == log;
    LoggedHist(kept, hists, log);
    var merged := MergeHistograms(hists);
    var newest := kept[|kept| - 1].snap;
    m := Merged(newest.contestant, newest.submission, |kept|, duration, count, rejected, timeouts,
                Rate(count, duration),
                sc.quantile(merged.counts, 500), sc.quantile(merged.counts, 900),
                sc.quantile(merged.counts, 990), sc.quantile(merged.counts, 999));
  }

  /** The bucket-wise sum of the histograms that are there. */
  ghost function Total(hs: seq<Histogram?>): Hist
    reads hs
  {
    Sum(CountsOf(hs))
  }

  ghost function CountsOf(hs: seq<Histogram?>): (cs: seq<Hist>)
    reads hs
    ensures |cs| == |hs| && forall i :: 0 <= i < |hs| ==> cs[i] == CountOf(hs[i])
  {
    if hs == [] then [] else [CountOf(hs[0])] + CountsOf(hs[1..])
  }

  /** A missing histogram counts nothing. */
  ghost function CountOf(h: Histogram?): Hist
    reads h
  {
    if h == null then multiset{} else h.counts
  }

  function Sum(cs: seq<Hist>): Hist {
    if cs == [] then multiset{} else Sum(cs[..|cs| - 1]) + cs[|cs| - 1]
  }

  lemma NoSum(cs: seq<Hist>)
    ensures Sum(cs[..0]) == multiset{}
  {
  }

  lemma SumSnoc(cs: seq<Hist>, n: nat)
    requires n < |cs|
    ensures Sum(cs[..n + 1]) == Sum(cs[..n]) + cs[n]
  {
    assert cs[..n + 1][..n] == cs[..n];
  }

  lemma {:induction false} LoggedHist(kept: seq<FlushedRef>, hists: seq<Histogram?>, log: seq<Flushed>)
    requires Shows(kept, log) && |hists| == |kept| && forall j :: 0 <= j < |hists| ==> hists[j] == kept[j].hist
    ensures Logged(log).hist == Total(hists)
    decreases |log|
  {
    if log != [] {
      var n := |log| - 1;
      LoggedHist(kept[..n], hists[..n], log[..n]);
      var cs := CountsOf(hists);
      assert CountsOf(hists[..n]) == cs[..n] && cs[n] == log[n].hist;
    }
  }

  lemma AllSummed(cs: seq<Hist>)
    ensures Sum(cs[..|cs|]) == Sum(cs)
  {
    assert cs[..|cs|] == cs;
  }

  /** Merge the i-th histogram, if it is there. */
  method MergeOne(merged: Histogram, hs: seq<Histogram?>, i: nat, ghost cs: seq<Hist>)
    requires i < |hs| && merged !in hs && CountsOf(hs) == cs
    modifies merged
    ensures merged.counts == old(merged.counts) + cs[i] && CountsOf(hs) == cs
  {
    hide CountsOf;
    if hs[i] != null {
      merged.Merge(hs[i]);
    }
  }

  /** Merge the histograms into a new one, skipping nil and leaving the inputs alone. */
  method MergeHistograms(hs: seq<Histogram?>) returns (merged: Histogram?)
    ensures merged == null <==> hs == []
    ensures merged != null ==> fresh(merged) && merged.counts == Total(hs)
  {
    if |hs| == 0 {
      return null;
    }
    hide CountsOf, Sum;
    ghost var cs := CountsOf(hs);
    merged := new Histogram(Whole);
    NoSum(cs);
    for i := 0 to |hs|
      invariant fresh(merged) && merged !in hs && merged.counts == Sum(cs[..i]) && CountsOf(hs) == cs
    {
      SumSnoc(cs, i);
      MergeOne(merged, hs, i, cs);
    }
    AllSummed(cs);
  }

  class Aggregator {
    const sc: Scale
    const size: int
    var runs: map<string, Track>
    /** Every run as a value. */
    ghost var trails: Trails
    ghost var Repr: set<object>

    /** Run `k` is in order and shows its trail. */
    ghost predicate Lane(k: string)
      reads this, Repr
    {
      && k in runs && k in trails && runs[k] in Repr && runs[k].Repr <= Repr
      && runs[k] in runs[k].Repr && runs[k].Valid() && runs[k].trail == trails[k]
    }

    ghost predicate Apart(j: string, k: string)
      requires j in runs && k in runs
      reads this, runs[j], runs[k]
    {
      j != k ==> runs[j].Repr !! runs[k].Repr
    }

    ghost predicate Valid()
      reads this, Repr
    {
      && this !in Repr && trails.Keys == runs.Keys
      && (forall k :: k in runs ==> Lane(k))
      && (forall j, k :: j in runs && k in runs ==> Apart(j, k))
    }

    lemma SameKeys()
      requires Valid()
      ensures runs.Keys == trails.Keys
    {
    }

    constructor (sc: Scale, size: int)
      ensures Valid() && trails == map[] && Repr == {}
      ensures this.sc == sc && this.size == if size <= 0 then NANOS else size
    {
      this.sc, this.size := sc, if size <= 0 then NANOS else size;
      runs, trails, Repr := map[], map[], {};
    }

    /** Start a run that has not been seen. */
    method Enter(key: string, track: Track)
      requires Valid() && key !in runs && track.Valid() && track in track.Repr
      requires track.Repr !! Repr && this !in track.Repr
      modifies this
      ensures Valid() && Repr == old(Repr) + track.Repr && runs == old(runs)[key := track]
      ensures trails == old(trails)[key := track.trail]
    {
      hide Track.Valid;
      runs, trails := runs[key := track], trails[key := track.trail];
      Repr := Repr + track.Repr;
      forall k | k in runs
        ensures Lane(k) && Apart(k, key) && Apart(key, k)
      {
        assert k != key ==> old(Lane(k));
      }
      forall j, k | j in runs && k in runs
        ensures Apart(j, k)
      {
        assert j != key && k != key ==> old(Apart(j, k));
      }
    }

    /** What changes only the objects of one run, or takes in new ones for it, keeps the others. */
    twostate lemma OthersKept(key: string)
      requires old(Valid()) && old(key in runs) && unchanged(this)
      requires forall x :: x in old(Repr) && x !in old(runs[key].Repr) ==> unchanged(x)
      requires fresh(runs[key].Repr - old(runs[key].Repr))
      ensures forall k :: k in runs && k != key ==> Lane(k) && Apart(k, key) && Apart(key, k)
      ensures forall j, k :: j in runs && k in runs && j != key && k != key ==> Apart(j, k)
    {
      hide Track.Valid;
      forall k | k in runs && k != key
        ensures Lane(k) && Apart(k, key) && Apart(key, k)
        ensures runs[k].Repr == old(runs[k].Repr)
      {
        assert old(Lane(k)) && old(Apart(k, key)) && old(Lane(key));
      }
      forall j, k | j in runs && k in runs && j != key && k != key
        ensures Apart(j, k)
      {
        assert old(Apart(j, k));
      }
    }

    /** Bring the ghost state of run `key` up to date. */
    ghost method Refresh(key: string)
      requires this !in Repr && trails.Keys == runs.Keys && key in runs
      requires runs[key] in runs[key].Repr && this !in runs[key].Repr && runs[key].Valid()
      requires forall k :: k in runs && k != key ==> Lane(k) && Apart(k, key) && Apart(key, k)
      requires forall j, k :: j in runs && k in runs && j != key && k != key ==> Apart(j, k)
      modifies `trails, `Repr
      ensures Valid() && trails == old(trails)[key := runs[key].trail] && Repr == old(Repr) + runs[key].Repr
    {
      hide Track.Valid;
      trails := trails[key := runs[key].trail];
      Repr := Repr + runs[key].Repr;
      forall k | k in runs
        ensures Lane(k)
      {
        assert k != key ==> old(Lane(k));
      }
      hide Lane;
      forall j, k | j in runs && k in runs
        ensures Apart(j, k)
      {
        assert j != key && k != key ==> old(Apart(j, k));
      }
    }

    method RecordIn(key: string, e: Event, now: int)
      requires Valid() && key in runs && e.Event?
      modifies `trails, `Repr, Repr
      ensures Valid() && fresh(Repr - old(Repr))
      ensures trails == old(trails)[key := RecordTrail(sc, old(trails)[key], e, now)]
    {
      hide Track.Valid;
      var track := runs[key];
      assert Lane(key);
      track.Record(sc, e, now);
      OthersKept(key);
      Refresh(key);
    }

    method Record(e: Event, now: int)
      requires Valid()
      modifies this, Repr
      ensures Valid() && fresh(Repr - old(Repr))
      ensures trails == Advance(sc, size, old(trails), Step.Record(e, now))
    {
      hide Track.Valid, RecordTrail;
      if !Accepted(e) {
        return;
      }
      var key := RunKey(e);
      if key !in runs {
        var track := new Track();
        Enter(key, track);
      }
      RecordIn(key, e, now);
    }

    method FlushRun(key: string, now: int) returns (snap: Snapshot)
      requires Valid() && key in runs && trails[key].open.Some?
      modifies `trails, `Repr, Repr
      ensures Valid() && fresh(Repr - old(Repr))
      ensures trails == old(trails)[key := FlushTrail(sc, size, old(trails)[key], now)]
      ensures trails[key].log != [] && snap == Newest(trails[key]) && runs == old(runs)
    {
      hide Track.Valid;
      var track := runs[key];
      assert Lane(key);
      snap := track.Flush(sc, size, now);
      OthersKept(key);
      Refresh(key);
    }

    /** Whether a run has a window to flush. */
    method IsOpen(key: string) returns (b: bool)
      requires Valid() && key in runs
      ensures b <==> trails[key].open.Some?
    {
      b := runs[key].open != null;
    }

    /** Roll every open window, in whatever order the map is ranged over. */
    method Flush(now: int) returns (out: seq<Snapshot>, ghost order: seq<string>)
      requires Valid()
      modifies `trails, `Repr, Repr
      ensures Valid() && fresh(Repr - old(Repr))
      ensures trails == Advance(sc, size, old(trails), Step.Flush(now))
      ensures Announced(old(trails), {}, trails, order, out)
    {
      hide Track.Valid, Valid, FlushTrail, Advance, Announced;
      SameKeys();
      out, order := [], [];
      var todo := runs.Keys;
      ghost var before := trails;
      NoneAnnounced(before);
      while todo != {}
        invariant Valid() && fresh(Repr - old(Repr)) && todo <= runs.Keys
        invariant trails.Keys == before.Keys == runs.Keys
        invariant forall k :: k in todo ==> trails[k] == before[k]
        invariant forall k :: k in before && k !in todo ==> trails[k] == FlushTrail(sc, size, before[k], now)
        invariant Announced(before, todo, trails, order, out)
        decreases |todo|
      {
        var k :| k in todo;
        ghost var t := trails;
        var snaps := FlushIfOpen(k, now);
        OneMoreAnnounced(before, todo, t, order, out, k, trails, snaps);
        out := out + snaps;
        order := order + if snaps == [] then [] else [k];
        todo := todo - {k};
      }
      AllRolled(before, trails, now);
    }

    lemma AllRolled(before: Trails, after: Trails, now: int)
      requires before.Keys == after.Keys
      requires forall k :: k in before ==> after[k] == FlushTrail(sc, size, before[k], now)
      ensures after == Advance(sc, size, before, Step.Flush(now))
    {
      hide FlushTrail;
    }

    method FlushIfOpen(key: string, now: int) returns (snaps: seq<Snapshot>)
      requires Valid() && key in runs && key in trails
      modifies `trails, `Repr, Repr
      ensures Valid() && fresh(Repr - old(Repr)) && runs == old(runs)
      ensures key in trails && trails[key] == FlushTrail(sc, size, old(trails)[key], now)
      ensures if old(trails)[key].open.None? then snaps == []
              else trails[key].log != [] && snaps == [Newest(trails[key])]
      ensures trails == old(trails)[key := trails[key]]
    {
      hide Track.Valid, Lane, FlushTrail;
      snaps := [];
      FlushClosed(trails[key], now);
      var isOpen := IsOpen(key);
      if isOpen {
        var snap := FlushRun(key, now);
        snaps := [snap];
      } else {
        assert trails == trails[key := trails[key]];
      }
    }

    lemma FlushClosed(t: Trail, now: int)
      ensures t.open.None? ==> FlushTrail(sc, size, t, now) == t
    {
    }

    /** The run of a contestant whose latest window started last. */
    method LatestRun(contestant: string) returns (found: bool, best: string)
      requires Valid()
      ensures found <==> exists k :: k in trails && TaggedFor(trails[k], contestant)
      ensures found ==> best in trails && TaggedFor(trails[best], contestant)
      ensures found ==> forall k :: k in trails && TaggedFor(trails[k], contestant) ==>
                          Newest(trails[k]).start <= Newest(trails[best]).start
    {
      hide Valid, Track.Valid;
      SameKeys();
      found, best := false, "";
      var bestStart := 0;
      var todo := runs.Keys;
      while todo != {}
        invariant Valid() && todo <= runs.Keys == trails.Keys
        invariant found ==> best in trails && TaggedFor(trails[best], contestant)
        invariant found ==> bestStart == Newest(trails[best]).start
        invariant forall k :: k in trails && k !in todo && TaggedFor(trails[k], contestant) ==>
                    found && Newest(trails[k]).start <= bestStart
        decreases |todo|
      {
        var k :| k in todo;
        var latest := NewestOf(k);
        if latest.Some? && latest.value.contestant == contestant && (!found || latest.value.start > bestStart) {
          found, best, bestStart := true, k, latest.value.start;
        }
        todo := todo - {k};
      }
    }

    /** The newest flushed window of a run. */
    method NewestOf(key: string) returns (s: Option<Snapshot>)
      requires Valid() && key in runs
      ensures s == if trails[key].log == [] then None else Some(Newest(trails[key]))
    {
      s := runs[key].latest;
    }

    /** The run an id stands for: the run with that key, or the contestant's most recent run. */
    method Resolve(id: string) returns (found: bool, key: string)
      requires Valid()
      ensures found <==> exists k :: Resolves(trails, id, k)
      ensures found ==> Resolves(trails, id, key)
    {
      hide Valid, Track.Valid;
      SameKeys();
      if id in runs {
        var s := NewestOf(id);
        if s.Some? {
          assert Resolves(trails, id, id);
          return true, id;
        }
      }
      found, key := LatestRun(id);
      assert found ==> Resolves(trails, id, key);
    }

    method Latest(id: string) returns (s: Option<Snapshot>)
      requires Valid()
      ensures s.None? <==> forall k :: !Resolves(trails, id, k)
      ensures s.Some? ==> exists k :: Resolves(trails, id, k) && s.value == Newest(trails[k])
    {
      hide Valid, Track.Valid;
      SameKeys();
      var found, key := Resolve(id);
      if !found {
        return None;
      }
      s := NewestOf(key);
    }

    method MergedRecent(id: string, windows: int) returns (m: Option<Merged>)
      requires Valid()
      ensures m.None? <==> forall k :: !Resolves(trails, id, k)
      ensures m.Some? ==> exists k :: Resolves(trails, id, k) && m.value == MergedFor(sc, trails[k].log, windows)
    {
      hide Valid, Track.Valid, WholeRun, Recent;
      SameKeys();
      var found, key := Resolve(id);
      if !found {
        return None;
      }
      var merged := MergedOfRun(key, windows);
      m := Some(merged);
    }

    method MergedOfRun(key: string, windows: int) returns (m: Merged)
      requires Valid() && key in runs && trails[key].log != []
      ensures m == MergedFor(sc, trails[key].log, windows)
    {
      hide Track.Valid, WholeRun, Recent;
      assert Lane(key);
      var ok;
      m, ok := runs[key].MergedRecent(sc, windows);
    }

    /** The keys of the runs that have flushed a window. */
    method FlushedRuns() returns (ids: seq<string>)
      requires Valid()
      ensures NoRepeats(ids) && forall k :: k in ids <==> k in trails && trails[k].log != []
    {
      hide Valid, Track.Valid, NoRepeats;
      SameKeys();
      ids := [];
      NoRepeatsYet();
      var todo := runs.Keys;
      while todo != {}
        invariant Valid() && todo <= runs.Keys == trails.Keys && NoRepeats(ids)
        invariant forall k :: k in ids <==> k in trails && k !in todo && trails[k].log != []
        decreases |todo|
      {
        var k :| k in todo;
        todo := todo - {k};
        var s := NewestOf(k);
        if s.Some? {
          OneMore(ids, k);
          ids := ids + [k];
        }
      }
    }

    /** What other callers do, one call after the other. */
    method Run(steps: seq<Step>)
      requires Valid()
      modifies this, Repr
      ensures Valid() && fresh(Repr - old(Repr))
      ensures trails == AdvanceAll(sc, size, old(trails), steps)
    {
      hide Advance, Valid;
      for i := 0 to |steps|
        invariant Valid() && fresh(Repr - old(Repr))
        invariant AdvanceAll(sc, size, old(trails), steps) == AdvanceAll(sc, size, trails, steps[i..])
      {
        assert steps[i..][0] == steps[i] && steps[i..][1..] == steps[i + 1..];
        match steps[i]
        case Record(e, now) =>
          Record(e, now);
        case Flush(now) =>
          var out;
          ghost var order;
          out, order := Flush(now);
      }
    }

    /** One merge for each run that had flushed when the call began, and for no other. The lock is free
        between two merges: `others(i)` is what other callers do before the i-th. */
    method AllMerged(windows: int, others: nat -> seq<Step>) returns (out: seq<Merged>, ghost order: seq<string>)
      requires Valid()
      modifies this, Repr
      ensures Valid() && fresh(Repr - old(Repr)) && trails == Moment(sc, size, old(trails), others, |order|)
      ensures NoRepeats(order) && forall k :: k in order <==> k in old(trails) && old(trails)[k].log != []
      ensures MergedAtMoments(sc, size, old(trails), others, windows, order, out)
    {
      hide Valid, Track.Valid, MergedFor, NoRepeats, Resolves, AdvanceAll, Moment, MergedAtMoments;
      var ids := FlushedRuns();
      order, out := ids, [];
      NoMergesYet(sc, size, trails, others, windows);
      ghost var before := trails;
      for i := 0 to |ids|
        invariant Valid() && fresh(Repr - old(Repr)) && trails == Moment(sc, size, before, others, i)
        invariant MergedAtMoments(sc, size, before, others, windows, order[..i], out)
      {
        Run(others(i));
        NextMoment(sc, size, before, others, i);
        StillFlushed(sc, size, before, others, ids[i], i + 1);
        ResolvesItself(trails, ids[i]);
        assert Resolves(trails, ids[i], ids[i]);
        var m := MergedRecent(ids[i], windows);
        OneMoreMerge(sc, size, before, others, windows, order[..i], out, ids[i], m.value);
        out := out + [m.value];
        assert order[..i + 1] == order[..i] + [ids[i]];
      }
      assert order[..|ids|] == order;
    }
  }

  ghost predicate NoRepeats(ids: seq<string>) {
    forall i, j :: 0 <= i < j < |ids| ==> ids[i] != ids[j]
  }

  lemma NoRepeatsYet()
    ensures NoRepeats([])
  {
  }

  lemma OneMore(ids: seq<string>, k: string)
    requires NoRepeats(ids) && k !in ids
    ensures NoRepeats(ids + [k])
  {
  }

  /** One snapshot for each window that was open, in the order of `order`, and no other; `todo` is yet to
      come. */
  ghost predicate Announced(before: Trails, todo: set<string>, after: Trails, order: seq<string>, out: seq<Snapshot>) {
    && NoRepeats(order) && |out| == |order|
    && (forall k :: k in order <==> k in before && k !in todo && before[k].open.Some?)
    && forall i :: 0 <= i < |order| ==>
         order[i] in after && after[order[i]].log != [] && out[i] == Newest(after[order[i]])
  }

  lemma NoneAnnounced(before: Trails)
    ensures Announced(before, before.Keys, before, [], [])
  {
  }

  lemma OneMoreAnnounced(before: Trails, todo: set<string>, after: Trails, order: seq<string>, out: seq<Snapshot>,
                         k: string, after': Trails, snaps: seq<Snapshot>)
    requires Announced(before, todo, after, order, out) && k in todo && k in before && k in after'
    requires after' == after[k := after'[k]]
    requires if before[k].open.None? then snaps == [] else after'[k].log != [] && snaps == [Newest(after'[k])]
    ensures Announced(before, todo - {k}, after', order + (if snaps == [] then [] else [k]), out + snaps)
  {
    hide Newest;
    assert k !in order;
    assert forall i :: 0 <= i < |order| ==> order[i] in order;
    if snaps == [] {
      assert order + [] == order && out + [] == out;
    } else {
      OneMore(order, k);
    }
  }

  /** The runs after the first n turns of other callers. */
  ghost function Moment(sc: Scale, size: int, ts: Trails, others: nat -> seq<Step>, n: nat): Trails {
    if n == 0 then ts else AdvanceAll(sc, size, Moment(sc, size, ts, others, n - 1), others(n - 1))
  }

  /** The i-th merge is that of the i-th run at the moment it was made. */
  ghost predicate MergedAtMoments(sc: Scale, size: int, ts: Trails, others: nat -> seq<Step>, windows: int,
                                  order: seq<string>, out: seq<Merged>) {
    && |out| == |order|
    && forall i :: 0 <= i < |order| ==>
         var now := Moment(sc, size, ts, others, i + 1);
         && order[i] in now && now[order[i]].log != []
         && out[i] == MergedFor(sc, now[order[i]].log, windows)
  }

  lemma NoMergesYet(sc: Scale, size: int, ts: Trails, others: nat -> seq<Step>, windows: int)
    ensures MergedAtMoments(sc, size, ts, others, windows, [], []) && Moment(sc, size, ts, others, 0) == ts
  {
  }

  lemma OneMoreMerge(sc: Scale, size: int, ts: Trails, others: nat -> seq<Step>, windows: int,
                     order: seq<string>, out: seq<Merged>, k: string, m: Merged)
    requires MergedAtMoments(sc, size, ts, others, windows, order, out)
    requires var now := Moment(sc, size, ts, others, |order| + 1);
      k in now && now[k].log != [] && m == MergedFor(sc, now[k].log, windows)
    ensures MergedAtMoments(sc, size, ts, others, windows, order + [k], out + [m])
  {
    hide Moment, MergedFor;
  }

  lemma NextMoment(sc: Scale, size: int, ts: Trails, others: nat -> seq<Step>, n: nat)
    ensures Moment(sc, size, ts, others, n + 1) == AdvanceAll(sc, size, Moment(sc, size, ts, others, n), others(n))
  {
  }

  lemma {:induction false} LogsStay(sc: Scale, size: int, ts: Trails, steps: seq<Step>, k: string)
    requires k in ts && ts[k].log != []
    ensures k in AdvanceAll(sc, size, ts, steps) && AdvanceAll(sc, size, ts, steps)[k].log != []
    decreases |steps|
  {
    if steps != [] {
      LogsStay(sc, size, Advance(sc, size, ts, steps[0]), steps[1..], k);
    }
  }

  lemma {:induction false} StillFlushed(sc: Scale, size: int, ts: Trails, others: nat -> seq<Step>, k: string, n: nat)
    requires k in ts && ts[k].log != []
    ensures k in Moment(sc, size, ts, others, n) && Moment(sc, size, ts, others, n)[k].log != []
    decreases n
  {
    if n > 0 {
      StillFlushed(sc, size, ts, others, k, n - 1);
      LogsStay(sc, size, Moment(sc, size, ts, others, n - 1), others(n - 1), k);
    }
  }

  /** The key of a run that has flushed stands for that run. */
  lemma ResolvesItself(ts: Trails, id: string)
    requires id in ts && ts[id].log != []
    ensures forall k :: Resolves(ts, id, k) <==> k == id
  {
  }

  /** A whole stream of records and flushes through a fresh aggregator: whatever the schedule, each run's windows
      hold its records, its rejections, its timeouts and its samples, each once. */
  method RunSteps(sc: Scale, size: int, steps: seq<Step>) returns (a: Aggregator)
    ensures a.Valid()
    ensures a.trails == AdvanceAll(sc, if size <= 0 then 1_000_000_000 else size, map[], steps)
    ensures forall key :: Counts.CountsExactly(sc, key, steps, Counted(Lookup(a.trails, key)))
  {
    hide Counts.CountsExactly, Counted, Lookup;
    a := new Aggregator(sc, size);
    a.Run(steps);
    forall key ensures Counts.CountsExactly(sc, key, steps, Counted(Lookup(a.trails, key))) {
      Counts.WindowsCountRecords(sc, if size <= 0 then NANOS else size, key, steps);
    }
  }

  /** The whole run for a count that is not positive, otherwise the last windows retained. */
  function MergedFor(sc: Scale, log: seq<Flushed>, windows: int): Merged
    requires log != []
  {
    if windows <= 0 then WholeRun(sc, log) else Recent(sc, log, windows)
  }

  ghost predicate Resolves(ts: Trails, id: string, k: string) {
    if id in ts && ts[id].log != [] then k == id
    else
      && k in ts && TaggedFor(ts[k], id)
      && forall j :: j in ts && TaggedFor(ts[j], id) ==> Newest(ts[j]).start <= Newest(ts[k]).start
  }

  /** The run has flushed a window, and its newest one carries this contestant. */
  predicate TaggedFor(t: Trail, contestant: string) {
    t.log != [] && Newest(t).contestant == contestant
  }

  function Newest(t: Trail): Snapshot
    requires t.log != []
  {
    t.log[|t.log| - 1].snap
  }
}
