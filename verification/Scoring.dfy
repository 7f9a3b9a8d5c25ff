/** What the validator computes: each run's events are replayed through its own slice book and the
    reported fills compared with the replayed ones. */
module Scoring {
  import opened Market
  import opened Telemetry
  import Reference
  import Retiming
  import Runs
  import Slices

  datatype Counters = Counters(contestant: string, submission: string, total: int, mismatches: int, lastTs: int)

  datatype Run = Run(book: Slices.State, counters: Counters)

  type Table = map<string, Run>

  /** The replayed side: anything but an explicit sell is a buy. */
  function ReplaySide(e: Event): Side
    requires e.Event?
  {
    if e.side == SideSell then Sell else Buy
  }

  function ToOp(e: Event): Op
    requires e.Event? && e.kind != TypeUnspecified
  {
    match e.kind
    case TypeLimit => Limit(ReplaySide(e), Rest(e.orderId, e.price, e.sentTs, e.quantity))
    case TypeMarket => Op.Market(ReplaySide(e), e.orderId, e.quantity)
    case TypeCancel => Op.Cancel(e.orderId)
  }

  /** The replay of one event, and the fill it should have had. */
  function Redo(b: Slices.State, e: Event): (Slices.State, int)
    requires e.Event?
  {
    if e.kind == TypeUnspecified then (b, 0) else Slices.Step(b, ToOp(e))
  }

  /** Fill accuracy is scored for placements whose result the transport reported. */
  predicate Scored(e: Event)
    requires e.Event?
  {
    (e.kind == TypeLimit || e.kind == TypeMarket) && e.result != ResultUnspecified
  }

  function Score(r: Run, e: Event): Run
    requires e.Event?
  {
    var (book, expected) := Redo(r.book, e);
    var c := r.counters.(lastTs := Max(r.counters.lastTs, e.sentTs));
    Run(book,
        if !Scored(e) then c
        else c.(total := c.total + 1,
                mismatches := c.mismatches + if expected != e.filled then 1 else 0))
  }

  function Opened(e: Event): Run
    requires e.Event?
  {
    Run(Slices.EMPTY, Counters(e.contestant, e.submission, 0, 0, 0))
  }

  function Process(t: Table, e: Event): Table {
    if !Accepted(e) then t
    else t[RunKey(e) := Score(if RunKey(e) in t then t[RunKey(e)] else Opened(e), e)]
  }

  function ProcessAll(t: Table, es: seq<Event>): Table
    decreases |es|
  {
    if es == [] then t else ProcessAll(Process(t, es[0]), es[1..])
  }

  predicate Events(es: seq<Event>) {
    forall i :: 0 <= i < |es| ==> es[i].Event?
  }

  // ---------- runs do not interfere ----------

  ghost predicate AgreeAt(key: string, t: Table, t': Table) {
    (key in t <==> key in t') && (key in t ==> t[key] == t'[key])
  }

  /** Whatever other runs are interleaved with it, a run's book and counters are those of its own
      events alone. */
  lemma {:induction false} NonInterference(key: string, es: seq<Event>, t: Table, t': Table)
    requires AgreeAt(key, t, t')
    ensures AgreeAt(key, ProcessAll(t, es), ProcessAll(t', Only(key, es)))
    decreases |es|
  {
    if es != [] {
      if Mine(key, es[0]) {
        assert Only(key, es)[1..] == Only(key, es[1..]);
        NonInterference(key, es[1..], Process(t, es[0]), Process(t', es[0]));
      } else {
        NonInterference(key, es[1..], Process(t, es[0]), t');
      }
    }
  }

  // ---------- mismatches are exactly the wrong reports ----------

  function ReplayBook(b: Slices.State, es: seq<Event>): Slices.State
    requires Events(es)
    decreases |es|
  {
    if es == [] then b else ReplayBook(Redo(b, es[0]).0, es[1..])
  }

  /** The canonical fill of each event: a replay that never looks at what was reported. */
  function Fills(b: Slices.State, es: seq<Event>): (r: seq<int>)
    requires Events(es)
    ensures |r| == |es|
    decreases |es|
  {
    if es == [] then [] else [Redo(b, es[0]).1] + Fills(Redo(b, es[0]).0, es[1..])
  }

  /** How many scored events report something other than `fills`. */
  function Wrong(es: seq<Event>, fills: seq<int>): nat
    requires |es| == |fills| && Events(es)
    decreases |es|
  {
    if es == [] then 0
    else (if Scored(es[0]) && es[0].filled != fills[0] then 1 else 0) + Wrong(es[1..], fills[1..])
  }

  function Checked(es: seq<Event>): nat
    requires Events(es)
  {
    if es == [] then 0 else (if Scored(es[0]) then 1 else 0) + Checked(es[1..])
  }

  function ScoreAll(r: Run, es: seq<Event>): Run
    requires Events(es)
    decreases |es|
  {
    if es == [] then r else ScoreAll(Score(r, es[0]), es[1..])
  }

  /** The counters count: checks are the scored events, mismatches those of them whose report
      differs from the blind replay. */
  lemma {:induction false} CountersExact(r: Run, es: seq<Event>)
    requires Events(es)
    ensures ScoreAll(r, es).book == ReplayBook(r.book, es)
    ensures ScoreAll(r, es).counters.total == r.counters.total + Checked(es)
    ensures ScoreAll(r, es).counters.mismatches == r.counters.mismatches + Wrong(es, Fills(r.book, es))
    ensures ScoreAll(r, es).counters.contestant == r.counters.contestant
    decreases |es|
  {
    if es != [] {
      CountersExact(Score(r, es[0]), es[1..]);
      assert Fills(r.book, es)[1..] == Fills(Redo(r.book, es[0]).0, es[1..]);
    }
  }

  /** A run's table entry is the score of its own events. */
  lemma {:induction false} EntryIsScore(key: string, es: seq<Event>, t: Table)
    requires key in t && Events(es) && forall i :: 0 <= i < |es| ==> Mine(key, es[i])
    ensures key in ProcessAll(t, es) && ProcessAll(t, es)[key] == ScoreAll(t[key], es)
    decreases |es|
  {
    if es != [] {
      EntryIsScore(key, es[1..], Process(t, es[0]));
    }
  }

  /** For every interleaved stream, a run's counters are determined by its own events: how many
      were scored, and how many of those misreported the replayed fill. */
  lemma RunCounters(key: string, es: seq<Event>)
    requires Only(key, es) != []
    ensures key in ProcessAll(map[], es)
    ensures var c := ProcessAll(map[], es)[key].counters;
      && c.total == Checked(Only(key, es))
      && c.mismatches == Wrong(Only(key, es), Fills(Slices.EMPTY, Only(key, es)))
  {
    var mine := Only(key, es);
    NonInterference(key, es, map[], map[]);
    assert ProcessAll(map[], mine) == ProcessAll(Process(map[], mine[0]), mine[1..]);
    EntryIsScore(key, mine[1..], Process(map[], mine[0]));
    CountersExact(Opened(mine[0]), mine);
  }

  /** Equal but for what the contestant reported. */
  predicate SameOrder(e: Event, e': Event)
    requires e.Event? && e'.Event?
  {
    e.(filled := e'.filled, result := e'.result) == e'
  }

  /** Reports never influence the replay. */
  lemma {:induction false} ReplayIsBlind(b: Slices.State, es: seq<Event>, es': seq<Event>)
    requires Events(es) && Events(es') && |es| == |es'|
    requires forall i :: 0 <= i < |es| ==> SameOrder(es[i], es'[i])
    ensures Fills(b, es) == Fills(b, es') && ReplayBook(b, es) == ReplayBook(b, es')
    decreases |es|
  {
    if es != [] {
      assert Redo(b, es[0]) == Redo(b, es'[0]);
      ReplayIsBlind(Redo(b, es[0]).0, es[1..], es'[1..]);
    }
  }

  /** How many scored reports differ between two streams. */
  function Altered(es: seq<Event>, es': seq<Event>): nat
    requires |es| == |es'| && Events(es) && Events(es')
    decreases |es|
  {
    if es == [] then 0
    else (if Scored(es[0]) && es[0].filled != es'[0].filled then 1 else 0) + Altered(es[1..], es'[1..])
  }

  lemma {:induction false} AlteredDiffer(es: seq<Event>, es': seq<Event>, fills: seq<int>)
    requires Events(es) && Events(es') && |es| == |es'| == |fills|
    requires forall i :: 0 <= i < |es| ==> es[i].(filled := es'[i].filled) == es'[i]
    requires Wrong(es, fills) == 0
    ensures Wrong(es', fills) == Altered(es, es')
    decreases |es|
  {
    if es != [] {
      AlteredDiffer(es[1..], es'[1..], fills[1..]);
    }
  }

  /** Two interleaved streams whose events of one run differ only in the fills reported: if the first run has
      no mismatch, the second has exactly as many as scored reports were altered. */
  lemma AlteredAreCaught(key: string, es: seq<Event>, es': seq<Event>)
    requires Only(key, es) != [] && |Only(key, es)| == |Only(key, es')|
    requires forall i :: 0 <= i < |Only(key, es)| ==>
               Only(key, es)[i].(filled := Only(key, es')[i].filled) == Only(key, es')[i]
    requires key in ProcessAll(map[], es) && ProcessAll(map[], es)[key].counters.mismatches == 0
    ensures key in ProcessAll(map[], es')
    ensures ProcessAll(map[], es')[key].counters.mismatches == Altered(Only(key, es), Only(key, es'))
    ensures ProcessAll(map[], es')[key].counters.total == ProcessAll(map[], es)[key].counters.total
  {
    var mine, mine' := Only(key, es), Only(key, es');
    RunCounters(key, es);
    RunCounters(key, es');
    ReplayIsBlind(Slices.EMPTY, mine, mine');
    AlteredDiffer(mine, mine', Fills(Slices.EMPTY, mine));
    SameChecked(mine, mine');
  }

  lemma {:induction false} SameChecked(es: seq<Event>, es': seq<Event>)
    requires Events(es) && Events(es') && |es| == |es'|
    requires forall i :: 0 <= i < |es| ==> es[i].(filled := es'[i].filled) == es'[i]
    ensures Checked(es) == Checked(es')
    decreases |es|
  {
    if es != [] {
      SameChecked(es[1..], es'[1..]);
    }
  }

  // ---------- reports ----------

  function Correctness(c: Counters): real {
    if c.total > 0 then 1.0 - c.mismatches as real / c.total as real else 1.0
  }

  lemma {:induction false} WrongAreChecked(es: seq<Event>, fills: seq<int>)
    requires Events(es) && |es| == |fills|
    ensures Wrong(es, fills) <= Checked(es)
    decreases |es|
  {
    if es != [] {
      WrongAreChecked(es[1..], fills[1..]);
    }
  }

  /** Correctness is the share of the checked orders that were reported right, and 1 when none was checked. */
  lemma CorrectnessIsShare(c: Counters)
    ensures c.total > 0 ==> Correctness(c) * c.total as real == (c.total - c.mismatches) as real
    ensures c.total <= 0 ==> Correctness(c) == 1.0
  {
    if c.total > 0 {
      var m, n := c.mismatches as real, c.total as real;
      assert m / n * n == m;
      assert (1.0 - m / n) * n == n - m / n * n;
    }
  }

  /** One wrong in four reads three quarters. */
  lemma OneWrongInFour(contestant: string, submission: string, ts: int)
    ensures Correctness(Counters(contestant, submission, 4, 1, ts)) == 0.75
  {
  }

  /** How many scored events there are, and how many of them are wrong: orders placed whose result is known. */
  lemma {:induction false} CheckedMeans(es: seq<Event>, fills: seq<int>)
    requires Events(es) && |es| == |fills|
    ensures Checked(es) == |CheckedAt(es)| && Wrong(es, fills) == |WrongAt(es, fills)|
    decreases |es|
  {
    hide CheckedAt, WrongAt, Checked, Wrong, IsChecked;
    if es == [] {
      NoneChecked(es, fills);
    } else {
      var n := |es| - 1;
      assert es == es[..n] + [es[n]] && fills == fills[..n] + [fills[n]];
      CheckedMeans(es[..n], fills[..n]);
      CheckedSnoc(es[..n], es[n]);
      WrongSnoc(es[..n], fills[..n], es[n], fills[n]);
      CheckedAtSnoc(es[..n], es[n]);
      WrongAtSnoc(es[..n], fills[..n], es[n], fills[n]);
    }
  }

  lemma NoneChecked(es: seq<Event>, fills: seq<int>)
    requires es == [] && fills == []
    ensures Checked(es) == |CheckedAt(es)| && Wrong(es, fills) == |WrongAt(es, fills)|
  {
    hide IsChecked;
    assert CheckedAt(es) == {} && WrongAt(es, fills) == {};
  }

  lemma CheckedAtSnoc(es: seq<Event>, e: Event)
    requires Events(es) && e.Event?
    ensures |CheckedAt(es + [e])| == |CheckedAt(es)| + if IsChecked(e) then 1 else 0
  {
    hide IsChecked;
    assert CheckedAt(es + [e]) == CheckedAt(es) + if IsChecked(e) then {|es|} else {};
  }

  lemma WrongAtSnoc(es: seq<Event>, fills: seq<int>, e: Event, fill: int)
    requires Events(es) && e.Event? && |es| == |fills|
    ensures |WrongAt(es + [e], fills + [fill])|
         == |WrongAt(es, fills)| + if IsChecked(e) && e.filled != fill then 1 else 0
  {
    hide IsChecked;
    assert WrongAt(es + [e], fills + [fill])
        == WrongAt(es, fills) + if IsChecked(e) && e.filled != fill then {|es|} else {};
  }

  /** A limit or market order whose result was reported, whatever the result. */
  predicate IsChecked(e: Event)
    requires e.Event?
  {
    && (e.kind == TypeLimit || e.kind == TypeMarket)
    && (|| e.result == ResultFilled || e.result == ResultPartial || e.result == ResultRejected
        || e.result == ResultTimeout || e.result == ResultAckOnly)
  }

  ghost function CheckedAt(es: seq<Event>): set<int>
    requires Events(es)
  {
    set i | 0 <= i < |es| && IsChecked(es[i])
  }

  ghost function WrongAt(es: seq<Event>, fills: seq<int>): set<int>
    requires Events(es) && |es| == |fills|
  {
    set i | 0 <= i < |es| && IsChecked(es[i]) && es[i].filled != fills[i]
  }

  lemma {:induction false} CheckedSnoc(es: seq<Event>, e: Event)
    requires Events(es) && e.Event?
    ensures Checked(es + [e]) == Checked(es) + if IsChecked(e) then 1 else 0
    decreases |es|
  {
    if es != [] {
      assert (es + [e])[1..] == es[1..] + [e];
      CheckedSnoc(es[1..], e);
    }
  }

  lemma {:induction false} WrongSnoc(es: seq<Event>, fills: seq<int>, e: Event, fill: int)
    requires Events(es) && e.Event? && |es| == |fills|
    ensures Wrong(es + [e], fills + [fill]) == Wrong(es, fills) + if IsChecked(e) && e.filled != fill then 1 else 0
    decreases |es|
  {
    if es == [] {
      assert es + [e] == [e] && fills + [fill] == [fill];
    } else {
      assert (es + [e])[1..] == es[1..] + [e] && (fills + [fill])[1..] == fills[1..] + [fill];
      WrongSnoc(es[1..], fills[1..], e, fill);
    }
  }

  /** A run is tagged by its first event and knows the newest time of any of its events. */
  lemma RunTags(key: string, es: seq<Event>)
    requires Only(key, es) != []
    ensures key in ProcessAll(map[], es)
    ensures var c, mine := ProcessAll(map[], es)[key].counters, Only(key, es);
      && c.contestant == mine[0].contestant && c.submission == mine[0].submission
      && (forall i :: 0 <= i < |mine| ==> mine[i].sentTs <= c.lastTs)
      && (c.lastTs == 0 || exists i :: 0 <= i < |mine| && mine[i].sentTs == c.lastTs)
      && c.lastTs >= 0
  {
    var mine := Only(key, es);
    NonInterference(key, es, map[], map[]);
    assert ProcessAll(map[], mine) == ProcessAll(Process(map[], mine[0]), mine[1..]);
    EntryIsScore(key, mine[1..], Process(map[], mine[0]));
    NewestTime(Opened(mine[0]), mine);
  }

  lemma {:induction false} NewestTime(r: Run, es: seq<Event>)
    requires Events(es)
    ensures var c := ScoreAll(r, es).counters;
      && c.contestant == r.counters.contestant && c.submission == r.counters.submission
      && (forall i :: 0 <= i < |es| ==> es[i].sentTs <= c.lastTs) && r.counters.lastTs <= c.lastTs
      && (c.lastTs == r.counters.lastTs || exists i :: 0 <= i < |es| && es[i].sentTs == c.lastTs)
    decreases |es|
  {
    if es != [] {
      NewestTime(Score(r, es[0]), es[1..]);
      var c := ScoreAll(r, es).counters;
      if i :| 0 <= i < |es[1..]| && es[1..][i].sentTs == c.lastTs {
        assert es[i + 1].sentTs == c.lastTs;
      }
      forall i | 0 <= i < |es| ensures es[i].sentTs <= c.lastTs {
        assert i > 0 ==> es[1..][i - 1] == es[i];
      }
    }
  }

  /** A side other than sell is replayed as a buy, and what is no event or names no contestant is ignored. */
  lemma UnknownSideIsBuy(b: Slices.State, t: Table, e: Event)
    ensures e.Event? && e.side != SideSell ==> Redo(b, e) == Redo(b, e.(side := SideBuy))
    ensures e.Event? && e.kind == TypeUnspecified ==> Redo(b, e) == (b, 0)
    ensures !e.Event? || e.contestant == "" ==> Process(t, e) == t
    ensures e.Event? && e.contestant != "" ==>
      (if e.submission != "" then e.submission else e.contestant) in Process(t, e)
  {
  }

  /** Correctness is a fraction, and full marks mean that nothing was misreported. */
  lemma CorrectnessMeans(c: Counters)
    requires 0 <= c.mismatches <= c.total
    ensures 0.0 <= Correctness(c) <= 1.0
    ensures Correctness(c) == 1.0 <==> c.mismatches == 0
  {
    if c.total > 0 {
      var m, n := c.mismatches as real, c.total as real;
      assert m / n * n == m;
      assert 0.0 <= m / n <= 1.0;
    }
  }

  // ---------- a correct engine is never marked wrong ----------

  predicate Typed(es: seq<Event>) {
    forall i :: 0 <= i < |es| ==> es[i].Event? && es[i].kind != TypeUnspecified
  }

  function OpsOf(es: seq<Event>): (r: seq<Op>)
    requires Typed(es)
    ensures |r| == |es| && forall i :: 0 <= i < |es| ==> r[i] == ToOp(es[i])
  {
    if es == [] then [] else [ToOp(es[0])] + OpsOf(es[1..])
  }

  lemma {:induction false} FillsAreExpected(b: Slices.State, es: seq<Event>)
    requires Typed(es)
    ensures Fills(b, es) == Runs.Expected(b, OpsOf(es))
    decreases |es|
  {
    if es != [] {
      assert OpsOf(es)[1..] == OpsOf(es[1..]);
      FillsAreExpected(Redo(b, es[0]).0, es[1..]);
    }
  }

  /** The event reports the engine's own fills, where its result was captured at all. */
  ghost predicate Honest(e: Event, out: Outcome) {
    e.Event? && (Scored(e) ==> e.filled == Traded(Reference.FillsOf(out)))
  }

  lemma {:induction false} HonestIsRight(es: seq<Event>, outs: seq<Outcome>)
    requires Events(es) && |es| == |outs| && forall i :: 0 <= i < |es| ==> Honest(es[i], outs[i])
    ensures |Runs.Reported(outs)| == |es| && Wrong(es, Runs.Reported(outs)) == 0
    decreases |es|
  {
    if es != [] {
      HonestIsRight(es[1..], outs[1..]);
    }
  }

  /** The run has a report, with every scored event checked and none of them wrong. */
  ghost predicate FullMarks(key: string, es: seq<Event>) {
    && key in ProcessAll(map[], es)
    && var c := ProcessAll(map[], es)[key].counters;
       c.mismatches == 0 && c.total == Checked(Only(key, es)) && Correctness(c) == 1.0
  }

  lemma AgreementEarnsFullMarks(key: string, es: seq<Event>, outs: seq<Outcome>)
    requires Only(key, es) != [] && Typed(Only(key, es)) && |Only(key, es)| == |outs|
    requires forall i :: 0 <= i < |outs| ==> Honest(Only(key, es)[i], outs[i])
    requires Runs.Expected(Slices.EMPTY, OpsOf(Only(key, es))) == Runs.Reported(outs)
    ensures FullMarks(key, es)
  {
    var mine := Only(key, es);
    RunCounters(key, es);
    FillsAreExpected(Slices.EMPTY, mine);
    HonestIsRight(mine, outs);
    CorrectnessMeans(ProcessAll(map[], es)[key].counters);
  }

  /** `ops` with the times that the events carry. */
  ghost predicate Describes(tau: Retiming.Clock, es: seq<Event>, ops: seq<Op>) {
    Typed(es) && OpsOf(es) == Retiming.LaterOps(tau, ops)
  }

  lemma DistinctLater(tau: Retiming.Clock, ats: set<int>, ops: seq<Op>)
    requires Retiming.Isotone(tau, ats) && Retiming.OpTimesIn(ats, ops) && Runs.Distinct(ops)
    ensures Runs.Distinct(Retiming.LaterOps(tau, ops))
  {
  }

  /** End to end: run any stream of distinct commands through a legal engine, report each order's
      summed fills in execution order with order-isomorphic timestamps, interleave other runs as you
      please, and the validator gives the run full marks. */
  lemma CorrectEngineEarnsFullMarks(key: string, es: seq<Event>, tau: Retiming.Clock, ats: set<int>,
                                    ops: seq<Op>, outs: seq<Outcome>)
    requires Runs.Distinct(ops) && Reference.LegalRun(Reference.EMPTY, ops, outs) && ops != []
    requires Retiming.Isotone(tau, ats) && Retiming.OpTimesIn(ats, ops)
    requires Describes(tau, Only(key, es), ops)
    requires forall i :: 0 <= i < |ops| ==> Honest(Only(key, es)[i], outs[i])
    ensures FullMarks(key, es)
  {
    Retiming.LaterRun(tau, ats, Reference.EMPTY, ops, outs);
    assert Retiming.LaterBook(tau, Reference.EMPTY) == Reference.EMPTY;
    DistinctLater(tau, ats, ops);
    Runs.DistinctStreamsAgree(Retiming.LaterOps(tau, ops), outs);
    AgreementEarnsFullMarks(key, es, outs);
  }

  /** Without cancels the clocks need not agree at all, and orders may tie. */
  lemma CorrectEngineWithoutCancels(key: string, es: seq<Event>, ops: seq<Op>, outs: seq<Outcome>)
    requires Reference.LegalRun(Reference.EMPTY, ops, outs) && Runs.AllFilled(outs) && ops != []
    requires Typed(Only(key, es)) && Runs.SameButTimes(ops, OpsOf(Only(key, es)))
    requires forall i :: 0 <= i < |ops| ==> Honest(Only(key, es)[i], outs[i])
    ensures FullMarks(key, es)
  {
    Runs.TimesDoNotMatter(Reference.EMPTY, Slices.EMPTY, ops, OpsOf(Only(key, es)), outs);
    AgreementEarnsFullMarks(key, es, outs);
  }

  /** A scored order that reports nothing filled is marked wrong exactly when it asks for something that the
      replayed book can give. */
  lemma NothingFilledIsWrongIff(r: Run, e: Event)
    requires Slices.Sound(r.book) && e.Event? && e.kind != TypeUnspecified && Scored(e) && e.filled == 0
    ensures Score(r, e).counters.mismatches == r.counters.mismatches + 1
       <==> (&& Reference.QtyOf(ToOp(e)) > 0
             && Slices.Depth(ToOp(e).side.Opposite(), r.book.Of(ToOp(e).side.Opposite()),
                             Reference.ScopeOf(ToOp(e))) > 0)
  {
    var op := ToOp(e);
    var maker := op.side.Opposite();
    Slices.TakeDepth(maker, r.book.Of(maker), Reference.QtyOf(op), Reference.ScopeOf(op), Everything);
    Slices.DepthNonNegative(maker, r.book.Of(maker), Reference.ScopeOf(op));
  }
}
