/** Where fairness fails: an order the engine refuses is reported with nothing filled, and replayed all the
    same. It is marked wrong at once if the book could have filled some of it; and if it is a limit order it
    rests in the replayed book, where it spoils later fills. */
module Refusals {
  import opened Market
  import opened Telemetry
  import opened Bags
  import opened Reference
  import opened Agreement
  import opened Runs
  import opened Scoring
  import Slices
  import Ties

  // ---------- depth of a sorted list ----------

  lemma {:induction false} SortsDepth(side: Side, s: seq<Rest>, bag: Bag, scope: Scope)
    requires WellKeyed(bag) && Sorts(side, s, bag)
    ensures Slices.Depth(side, s, scope) == Depth(side, bag, scope)
    decreases |s|
  {
    if s == [] {
      assert bag == map[];
    } else {
      HeadHeld(s, bag);
      TailHolds(side, s, bag);
      DepthWithout(side, bag, scope, s[0].id);
      hide Sorts;
      SortsDepth(side, s[1..], bag - {s[0].id}, scope);
    }
  }

  /** The replayed command is the one sent, up to its id and time. */
  predicate SameBut(sent: Op, op: Op) {
    && !sent.Cancel? && !op.Cancel? && sent.Limit? == op.Limit?
    && sent.side == op.side && QtyOf(sent) == QtyOf(op) && ScopeOf(sent) == ScopeOf(op)
  }

  /** The order asks for nothing, or is a market order against an empty side. */
  ghost predicate Harmless(b: Book, op: Op)
    requires !op.Cancel?
  {
    QtyOf(op) <= 0 || (op.Market? && b.Of(op.side.Opposite()) == map[])
  }

  /** What the engine's book could have filled of an order. */
  ghost function Fillable(b: Book, op: Op): int
    requires !op.Cancel?
  {
    Min(Max(0, QtyOf(op)), Depth(op.side.Opposite(), b.Of(op.side.Opposite()), ScopeOf(op)))
  }

  lemma ReplayFills(b: Book, sb: Slices.State, op: Op)
    requires Sound(b) && Shows(b, sb) && !op.Cancel?
    ensures Slices.Step(sb, op).1 == Fillable(b, op)
  {
    var maker := op.side.Opposite();
    SortsDepth(maker, sb.Of(maker), b.Of(maker), ScopeOf(op));
    assert Slices.Sorted(maker, sb.Of(maker)) && Slices.Positive(sb.Of(maker)) by {
      ShownIsSorted(maker, sb.Of(maker), b.Of(maker));
    }
    Slices.TakeDepth(maker, sb.Of(maker), QtyOf(op), ScopeOf(op), Everything);
  }

  lemma ShownIsSorted(side: Side, s: seq<Rest>, bag: Bag)
    requires WellKeyed(bag) && Sorts(side, s, bag)
    ensures Slices.Sorted(side, s) && Slices.Positive(s)
  {
    assert forall i :: 0 <= i < |s| ==> s[i] in s;
    assert forall i, j :: 0 <= i < j < |s| ==> Before(side, s[i], s[j]);
  }

  lemma {:induction false} ExpectedSnoc(sb: Slices.State, ops: seq<Op>, op: Op)
    ensures Expected(sb, ops + [op]) == Expected(sb, ops) + [Slices.Step(Replay(sb, ops), op).1]
    decreases |ops|
  {
    if ops == [] {
      assert [op][1..] == [];
    } else {
      assert (ops + [op])[1..] == ops[1..] + [op];
      ExpectedSnoc(Slices.Step(sb, ops[0]).0, ops[1..], op);
    }
  }

  lemma {:induction false} ReportedSnoc(outs: seq<Outcome>, out: Outcome)
    ensures Reported(outs + [out]) == Reported(outs) + [Traded(FillsOf(out))]
    decreases |outs|
  {
    if outs == [] {
      assert [out][1..] == [];
    } else {
      assert (outs + [out])[1..] == outs[1..] + [out];
      ReportedSnoc(outs[1..], out);
    }
  }

  /** Honest reports are wrong where the replay differs from the engine. */
  lemma {:induction false} WrongLast(es: seq<Event>, fills: seq<int>, e: Event, fill: int)
    requires Events(es) && e.Event? && |es| == |fills|
    ensures Wrong(es + [e], fills + [fill]) == Wrong(es, fills) + (if Scored(e) && e.filled != fill then 1 else 0)
    decreases |es|
  {
    if es == [] {
      assert [e][1..] == [] && [fill][1..] == [];
      assert es + [e] == [e] && fills + [fill] == [fill];
    } else {
      assert (es + [e])[1..] == es[1..] + [e] && (fills + [fill])[1..] == fills[1..] + [fill];
      WrongLast(es[1..], fills[1..], e, fill);
    }
  }

  lemma ReachedSound(ops: seq<Op>, outs: seq<Outcome>)
    requires LegalRun(EMPTY, ops, outs)
    ensures Sound(After(EMPTY, ops, outs)) && |ops| == |outs|
  {
    RunSound(EMPTY, ops, outs);
  }

  lemma FillableSame(b: Book, sent: Op, op: Op)
    requires Sound(b) && SameBut(sent, op)
    ensures Fillable(b, sent) == Fillable(b, op) >= 0
  {
    DepthNonNegative(op.side.Opposite(), b.Of(op.side.Opposite()), ScopeOf(op));
  }

  lemma HonestThenRefused(es: seq<Event>, e: Event, outs: seq<Outcome>, fill: int)
    requires Events(es) && |es| == |outs| && forall i :: 0 <= i < |outs| ==> Honest(es[i], outs[i])
    requires e.Event? && Scored(e) && Honest(e, DuplicateId)
    ensures |Reported(outs)| == |outs|
    ensures Wrong(es + [e], Reported(outs) + [fill]) == (if fill != 0 then 1 else 0)
  {
    RefusedReportsNothing(e);
    hide Wrong, Reported, Scored, Honest;
    HonestIsRight(es, outs);
    WrongLast(es, Reported(outs), e, fill);
  }

  lemma RefusedReportsNothing(e: Event)
    requires e.Event? && Scored(e) && Honest(e, DuplicateId)
    ensures e.filled == 0
  {
    assert Traded([]) == 0;
  }

  lemma FirstHonest(es: seq<Event>, outs: seq<Outcome>, n: nat)
    requires n <= |es| && n <= |outs| && Events(es) && forall i :: 0 <= i < n ==> Honest(es[i], outs[i])
    ensures Events(es[..n]) && forall i :: 0 <= i < n ==> Honest(es[..n][i], outs[i])
  {
    hide Honest;
  }

  // ---------- a refusal and what may follow it ----------

  /** The engine refuses an order that is replayed as `op`, and never differs from the replay for it, now or
      on any continuation that reuses no id and adds no tie. */
  ghost predicate Forgiven(b: Book, sb: Slices.State, op: Op) {
    forall ops, outs :: Distinct(ops) && Clear(b, ops) && LegalRun(b, ops, outs) ==>
      Expected(sb, [op] + ops) == Reported([DuplicateId] + outs)
  }

  lemma RefusedCons(sb: Slices.State, op: Op, ops: seq<Op>, outs: seq<Outcome>)
    ensures Expected(sb, [op] + ops) == [Slices.Step(sb, op).1] + Expected(Slices.Step(sb, op).0, ops)
    ensures Reported([DuplicateId] + outs) == [0] + Reported(outs)
  {
    assert ([op] + ops)[1..] == ops && ([DuplicateId] + outs)[1..] == outs;
    assert Traded([]) == 0;
  }

  /** A replay that fills nothing and rests nothing leaves the book alone. */
  lemma ForgivenIf(b: Book, sb: Slices.State, op: Op)
    requires Sound(b) && Shows(b, sb) && !op.Cancel?
    requires Harmless(b, op)
    ensures Forgiven(b, sb, op)
  {
    var maker := op.side.Opposite();
    assert b.Of(maker) == map[] ==> sb.Of(maker) == [] by {
      if sb.Of(maker) != [] { HeadHeld(sb.Of(maker), b.Of(maker)); }
    }
    assert Slices.Step(sb, op) == (sb, 0);
    hide Slices.Step, Expected, Reported, LegalRun, Distinct, Clear;
    forall ops, outs | Distinct(ops) && Clear(b, ops) && LegalRun(b, ops, outs)
      ensures Expected(sb, [op] + ops) == Reported([DuplicateId] + outs)
    {
      RefusedCons(sb, op, ops, outs);
      DistinctUntied(b, ops, outs);
      EnginesAgree(b, sb, ops, outs);
    }
  }

  /** A match exists: the fills along the sorted list. */
  lemma {:induction false} MatchExists(side: Side, s: seq<Rest>, bag: Bag, taker: string, q: int)
    returns (fills: seq<Fill>)
    requires WellKeyed(bag) && Sorts(side, s, bag)
    ensures Match(side, bag, taker, q, Everything, fills)
    decreases |s|
  {
    if q <= 0 || s == [] {
      fills := [];
      assert s == [] ==> bag == map[];
    } else {
      HeadHeld(s, bag);
      HeadIsBest(side, s, bag);
      var f := FillOf(side, s[0].id, taker, s[0].price, Min(q, s[0].qty));
      ConsumeKeeps(side, bag, taker, q, Everything, f);
      var rest;
      if s[0].qty <= q {
        TailHolds(side, s, bag);
        rest := MatchExists(side, s[1..], bag - {s[0].id}, taker, q - s[0].qty);
      } else {
        rest := [];
      }
      fills := [f] + rest;
      assert fills[1..] == rest;
      MatchCons(side, bag, taker, q, Everything, fills);
    }
  }

  /** The refused limit order rests in the replayed book: a market order for all there is and more finds it. */
  lemma RestingIsSeen(b: Book, sb: Slices.State, op: Op) returns (ops: seq<Op>, outs: seq<Outcome>)
    requires Sound(b) && Shows(b, sb) && op.Limit? && QtyOf(op) > 0 && Fillable(b, op) == 0
    ensures Distinct(ops) && Clear(b, ops) && LegalRun(b, ops, outs)
    ensures Expected(sb, [op] + ops) != Reported([DuplicateId] + outs)
  {
    hide Slices.Step, Sorts, WellKeyed, Uncrossed, Match, Depth, Fillable, LegalRun, Distinct, Clear, Expected,
         Reported;
    var own := op.side;
    var deep := Depth(own, b.Of(own), Everything);
    var m := Ties.FreshId(b.ids);
    var probe := Op.Market(own.Opposite(), m, deep + QtyOf(op));
    DepthNonNegative(own, b.Of(own), Everything);
    var fills := MatchExists(own, sb.Of(own), b.Of(own), m, deep + QtyOf(op));
    MatchTrades(own, b.Of(own), m, deep + QtyOf(op), Everything, fills);
    ops, outs := [probe], [Filled(fills)];
    ProbeIsLegal(b, probe, fills);
    ReplayFills(b, sb, op);
    RestsInReplay(b, sb, op, m);
    var sb' := Slices.Step(sb, op).0;
    RefusedCons(sb, op, ops, outs);
    OneReport(sb', probe, Filled(fills));
    Ties.SameTails(0, Expected(sb', ops), Reported(outs));
  }

  lemma ProbeIsLegal(b: Book, probe: Op, fills: seq<Fill>)
    requires probe.Market? && probe.id !in b.ids
    requires Match(probe.side.Opposite(), b.Of(probe.side.Opposite()), probe.id, probe.qty, Everything, fills)
    ensures LegalRun(b, [probe], [Filled(fills)]) && Distinct([probe]) && Clear(b, [probe])
  {
    assert Legal(b, probe, Filled(fills));
    assert [probe][1..] == [] && [Filled(fills)][1..] == [];
  }

  lemma OneReport(sb: Slices.State, op: Op, out: Outcome)
    ensures Expected(sb, [op]) == [Slices.Step(sb, op).1] && Reported([out]) == [Traded(FillsOf(out))]
  {
    assert [op][1..] == [] && [out][1..] == [];
  }

  lemma StepRests(sb: Slices.State, op: Op)
    requires op.Limit? && QtyOf(op) > 0 && Slices.Step(sb, op).1 == 0
    ensures Slices.Step(sb, op).0.Of(op.side) == Slices.Insert(op.side, sb.Of(op.side), op.order)
  {
    assert op.order.(qty := op.order.qty - 0) == op.order;
  }

  lemma RestsInReplay(b: Book, sb: Slices.State, op: Op, m: string)
    requires Sound(b) && Shows(b, sb) && op.Limit? && QtyOf(op) > 0 && Slices.Step(sb, op).1 == 0
    ensures var deep := Depth(op.side, b.Of(op.side), Everything) + QtyOf(op);
      Slices.Step(Slices.Step(sb, op).0, Op.Market(op.side.Opposite(), m, deep)).1 == deep
  {
    hide Slices.Step, Depth, Slices.Depth, Sorts, WellKeyed, Uncrossed, Slices.Insert, Slices.Take, Slices.Sorted,
         Slices.Positive;
    var own := op.side;
    var s := sb.Of(own);
    ShownIsSorted(own, s, b.Of(own));
    SortsDepth(own, s, b.Of(own), Everything);
    StepRests(sb, op);
    InsertedIsTaken(own, s, op.order);
    MarketTakes(Slices.Step(sb, op).0, own, m, Depth(own, b.Of(own), Everything) + QtyOf(op));
  }

  lemma InsertedIsTaken(side: Side, s: seq<Rest>, o: Rest)
    requires Slices.Sorted(side, s) && Slices.Positive(s) && o.qty > 0
    ensures var q := Slices.Depth(side, s, Everything) + o.qty;
      Slices.Take(side, Slices.Insert(side, s, o), q, Everything).1 == q
  {
    hide Slices.Depth, Slices.Insert, Slices.Take, Slices.Sorted;
    Slices.InsertSorted(side, s, o);
    Slices.InsertDepth(side, s, o, Everything);
    Slices.DepthNonNegative(side, s, Everything);
    var t := Slices.Insert(side, s, o);
    assert forall i :: 0 <= i < |t| ==> t[i] in t;
    Slices.TakeDepth(side, t, Slices.Depth(side, s, Everything) + o.qty, Everything, Everything);
  }

  lemma MarketTakes(sb: Slices.State, own: Side, m: string, q: int)
    ensures Slices.Step(sb, Op.Market(own.Opposite(), m, q)).1 == Slices.Take(own, sb.Of(own), q, Everything).1
  {
  }

  /** A refusal never shows, now or on any continuation that adds no tie, reuses no id and has no further
      refusal, exactly when the order asks for nothing, or is a market order against an empty side. */
  lemma ForgivenIff(b: Book, sb: Slices.State, op: Op)
    requires Sound(b) && Shows(b, sb) && !op.Cancel?
    ensures Forgiven(b, sb, op) <==> Harmless(b, op)
  {
    if Harmless(b, op) {
      ForgivenIf(b, sb, op);
    } else if Fillable(b, op) > 0 {
      ReplayFills(b, sb, op);
      RefusedCons(sb, op, [], []);
      assert LegalRun(b, [], []) && Distinct([]) && Clear(b, []);
      assert Expected(sb, [op] + [])[0] != Reported([DuplicateId] + [])[0];
    } else if op.Limit? {
      DepthNonNegative(op.side.Opposite(), b.Of(op.side.Opposite()), ScopeOf(op));
      var ops, outs := RestingIsSeen(b, sb, op);
    } else {
      var bag := b.Of(op.side.Opposite());
      var id :| id in bag;
      DepthAtLeast(op.side.Opposite(), bag, Everything, id);
      assert false;
    }
  }

  // ---------- the first refusal of a run ----------

  /** The commands and their answers, honestly reported, and last a refusal, scored, of an order replayed as
      `op`. */
  ghost predicate ReportsRefusal(es: seq<Event>, ops: seq<Op>, outs: seq<Outcome>, op: Op) {
    && |es| == |outs| + 1 && Typed(es) && OpsOf(es) == ops + [op]
    && (forall i :: 0 <= i < |outs| ==> Honest(es[i], outs[i]))
    && Honest(es[|outs|], DuplicateId) && Scored(es[|outs|])
  }

  /** A run of distinct commands, all reported honestly, up to and including the first one the engine refuses:
      it has at most one mismatch, and none exactly when the engine's own book could fill nothing of the
      refused order. */
  lemma FirstRefusal(key: string, es: seq<Event>, ops: seq<Op>, outs: seq<Outcome>, sent: Op, op: Op)
    requires Distinct(ops) && LegalRun(EMPTY, ops, outs)
    requires SameBut(sent, op) && Legal(After(EMPTY, ops, outs), sent, DuplicateId)
    requires ReportsRefusal(Only(key, es), ops, outs, op)
    ensures key in ProcessAll(map[], es)
    ensures ProcessAll(map[], es)[key].counters.mismatches
         == (if Fillable(After(EMPTY, ops, outs), sent) > 0 then 1 else 0)
  {
    var mine, b, sb := Only(key, es), After(EMPTY, ops, outs), Replay(Slices.EMPTY, ops);
    hide LegalRun, After, Replay, Expected, Reported, Fills, ProcessAll, Depth, Slices.Step, Sound, Shows, Legal,
         Distinct, Honest, Wrong, Fillable, Scored, ReportsRefusal;
    ReachedSound(ops, outs);
    DistinctStreamsAgree(ops, outs);
    ReplayFills(b, sb, op);
    FillableSame(b, sent, op);
    RefusalCounts(mine, ops, outs, op);
    RunCounters(key, es);
  }

  /** Where the replay agreed with the engine up to the refusal, the reports are wrong at most there. */
  lemma RefusalCounts(mine: seq<Event>, ops: seq<Op>, outs: seq<Outcome>, op: Op)
    requires ReportsRefusal(mine, ops, outs, op) && Expected(Slices.EMPTY, ops) == Reported(outs)
    ensures mine != [] && Events(mine)
    ensures Wrong(mine, Fills(Slices.EMPTY, mine))
         == if Slices.Step(Replay(Slices.EMPTY, ops), op).1 != 0 then 1 else 0
  {
    hide Replay, Expected, Reported, Fills, Slices.Step, Honest, Wrong, Scored;
    var n := |outs|;
    assert mine == mine[..n] + [mine[n]];
    FirstHonest(mine, outs, n);
    FillsAreExpected(Slices.EMPTY, mine);
    ExpectedSnoc(Slices.EMPTY, ops, op);
    HonestThenRefused(mine[..n], mine[n], outs, Slices.Step(Replay(Slices.EMPTY, ops), op).1);
  }

  // ---------- any number of refusals ----------

  /** Every accepted command is untied, and every refused order is harmless; a refused order may be replayed
      under another id and time. */
  ghost predicate Tolerable(b: Book, ops: seq<Op>, outs: seq<Outcome>, replayed: seq<Op>)
    requires LegalRun(b, ops, outs)
    decreases |ops|
  {
    && |replayed| == |ops|
    && (ops != [] ==>
          && (if outs[0] == DuplicateId then SameBut(ops[0], replayed[0]) && Harmless(b, ops[0])
              else replayed[0] == ops[0] && Untied(b, ops[0]))
          && Tolerable(Next(b, ops[0], outs[0]), ops[1..], outs[1..], replayed[1..]))
  }

  lemma HarmlessReplay(b: Book, sb: Slices.State, sent: Op, op: Op)
    requires Sound(b) && Shows(b, sb) && SameBut(sent, op) && Harmless(b, sent)
    ensures Slices.Step(sb, op) == (sb, 0)
  {
    var maker := op.side.Opposite();
    assert b.Of(maker) == map[] ==> sb.Of(maker) == [] by {
      Ties.EmptyOrNot(sb.Of(maker));
    }
  }

  /** However many orders the engine refuses, the slice book fills what the engine fills. */
  lemma {:induction false} ToleratedAgree(b: Book, sb: Slices.State, ops: seq<Op>, outs: seq<Outcome>,
                                          replayed: seq<Op>)
    requires Sound(b) && Shows(b, sb) && LegalRun(b, ops, outs) && Tolerable(b, ops, outs, replayed)
    ensures Expected(sb, replayed) == Reported(outs)
    ensures Shows(After(b, ops, outs), Replay(sb, replayed))
    decreases |ops|
  {
    hide Shows, Untied, Sound, Harmless, SameBut;
    if ops != [] {
      var b' := Next(b, ops[0], outs[0]);
      if outs[0] == DuplicateId {
        HarmlessReplay(b, sb, ops[0], replayed[0]);
        assert Traded(FillsOf(outs[0])) == 0;
      } else {
        StepAgrees(b, sb, ops[0], outs[0]);
      }
      NextSound(b, ops[0], outs[0]);
      hide Legal, Next;
      ToleratedAgree(b', Slices.Step(sb, replayed[0]).0, ops[1..], outs[1..], replayed[1..]);
    }
  }

  /** A run with any number of refusals, each of an order that asks for nothing or is a market order against an
      empty side, reported honestly among any other runs, earns full marks. */
  lemma HarmlessRefusalsEarnFullMarks(key: string, es: seq<Event>, ops: seq<Op>, outs: seq<Outcome>)
    requires LegalRun(EMPTY, ops, outs) && ops != []
    requires Typed(Only(key, es)) && |Only(key, es)| == |outs| && Tolerable(EMPTY, ops, outs, OpsOf(Only(key, es)))
    requires forall i :: 0 <= i < |outs| ==> Honest(Only(key, es)[i], outs[i])
    ensures FullMarks(key, es)
  {
    hide FullMarks, Tolerable, LegalRun;
    EmptyIsShown();
    assert |ops| == |outs| by { ReachedSound(ops, outs); }
    ToleratedAgree(EMPTY, Slices.EMPTY, ops, outs, OpsOf(Only(key, es)));
    AgreementEarnsFullMarks(key, es, outs);
  }

  lemma EmptyIsShown()
    ensures Sound(EMPTY) && Shows(EMPTY, Slices.EMPTY)
  {
  }
}
