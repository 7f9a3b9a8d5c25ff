/** Two runs with a refused order, reported honestly, that the validator marks wrong. */
module RefusalInputs {
  import opened Market
  import opened Telemetry
  import opened Bags
  import opened Reference
  import opened Runs
  import opened Scoring
  import opened Refusals
  import Slices
  import Witness

  /** A buy that would fill five at once, sent under an id in use and reported as the bot reports a refusal:
      rejected, nothing filled, no order id. */
  function CrossingRefusal(): seq<Event> {
    [Event("x", "", "a", TypeLimit, SideSell, ResultAckOnly, 1, 0, 10.0, 5, 0),
     Event("x", "", "", TypeLimit, SideBuy, ResultRejected, 2, 0, 10.0, 5, 0)]
  }

  const QUEUED := Book(map[], map["a" := Witness.A], {"a"})

  lemma QueuesA()
    ensures LegalRun(EMPTY, [Limit(Sell, Witness.A)], [Filled([])])
    ensures After(EMPTY, [Limit(Sell, Witness.A)], [Filled([])]) == QUEUED
  {
    var op, out := Limit(Sell, Witness.A), Filled([]);
    Witness.RestsQuietly(EMPTY, Witness.A);
    assert Next(EMPTY, op, out) == QUEUED;
    assert LegalRun(QUEUED, [], []) && After(QUEUED, [], []) == QUEUED;
    RunCons(EMPTY, op, [], out, []);
    assert [op] + [] == [op] && [out] + [] == [out];
  }

  /** An order under the id in use is refused, and the book stays as it is. */
  lemma RefusedThen(sent: Op, ops: seq<Op>, outs: seq<Outcome>)
    requires !sent.Cancel? && IdOf(sent) == "a" && LegalRun(QUEUED, ops, outs)
    ensures LegalRun(EMPTY, [Limit(Sell, Witness.A), sent] + ops, [Filled([]), DuplicateId] + outs)
  {
    var op, out := Limit(Sell, Witness.A), Filled([]);
    assert Legal(QUEUED, sent, DuplicateId) && Next(QUEUED, sent, DuplicateId) == QUEUED;
    Witness.RestsQuietly(EMPTY, Witness.A);
    assert Next(EMPTY, op, out) == QUEUED;
    hide Legal, Next;
    RunCons(QUEUED, sent, ops, DuplicateId, outs);
    RunCons(EMPTY, op, [sent] + ops, out, [DuplicateId] + outs);
    assert [op] + ([sent] + ops) == [op, sent] + ops && [out] + ([DuplicateId] + outs) == [out, DuplicateId] + outs;
  }

  lemma DepthOfA(scope: Scope)
    requires Within(Sell, scope, 10.0)
    ensures Depth(Sell, map["a" := Witness.A], scope) == 5
  {
    var bag := map["a" := Witness.A];
    DepthWithout(Sell, bag, scope, "a");
    assert bag - {"a"} == map[];
  }

  /** The engine refuses the second order, the reports are honest, and the validator marks one wrong. */
  lemma CrossingRefusalIsMarkedWrong()
    ensures LegalRun(EMPTY, [Limit(Sell, Witness.A), Limit(Buy, Rest("a", 10.0, 2, 5))], [Filled([]), DuplicateId])
    ensures "x" in ProcessAll(map[], CrossingRefusal())
    ensures ProcessAll(map[], CrossingRefusal())["x"].counters.mismatches == 1
  {
    hide ProcessAll, LegalRun, After, Legal, Fillable, ReportsRefusal, Distinct;
    var es, first := CrossingRefusal(), Limit(Sell, Witness.A);
    var sent, op := Limit(Buy, Rest("a", 10.0, 2, 5)), Limit(Buy, Rest("", 10.0, 2, 5));
    NothingMore();
    RefusedThen(sent, [], []);
    assert [first, sent] + [] == [first, sent] && [Filled([]), DuplicateId] + [] == [Filled([]), DuplicateId];
    QueuesA();
    CrossingReported(op);
    CrossingRefused(sent);
    FirstRefusal("x", es, [first], [Filled([])], sent, op);
  }

  lemma NothingMore()
    ensures LegalRun(QUEUED, [], []) && Distinct([Limit(Sell, Witness.A)])
  {
  }

  lemma CrossingReported(op: Op)
    requires op == Limit(Buy, Rest("", 10.0, 2, 5))
    ensures ReportsRefusal(Only("x", CrossingRefusal()), [Limit(Sell, Witness.A)], [Filled([])], op)
  {
    var es := CrossingRefusal();
    assert Only("x", es) == es by {
      assert es[1..] == [es[1]] && es[1..][1..] == [];
    }
    assert OpsOf(es) == [Limit(Sell, Witness.A)] + [op];
    assert Honest(es[0], Filled([])) && Honest(es[1], DuplicateId);
  }

  lemma CrossingRefused(sent: Op)
    requires sent == Limit(Buy, Rest("a", 10.0, 2, 5))
    ensures Legal(QUEUED, sent, DuplicateId) && Fillable(QUEUED, sent) == 5
  {
    DepthOfA(AsGoodAs(10.0));
    hide Depth;
  }

  /** A refused sell that finds nobody, and then a market buy of ten that the engine fills with the five it
      has. */
  function RestingRefusal(): seq<Event> {
    [Event("x", "", "a", TypeLimit, SideSell, ResultAckOnly, 1, 0, 10.0, 5, 0),
     Event("x", "", "", TypeLimit, SideSell, ResultRejected, 2, 0, 11.0, 5, 0),
     Event("x", "", "m", TypeMarket, SideBuy, ResultPartial, 3, 0, 0.0, 10, 5)]
  }

  /** Every report is honest and the fill of the market order is right, yet it is the one marked wrong: the
      replay still holds the order that the engine refused. */
  lemma RestingRefusalSpoilsLaterFill()
    ensures LegalRun(EMPTY, [Limit(Sell, Witness.A), Limit(Sell, Rest("a", 11.0, 2, 5)), Op.Market(Buy, "m", 10)],
                     [Filled([]), DuplicateId, Filled([Fill("m", "a", 10.0, 5)])])
    ensures Fills(Slices.EMPTY, RestingRefusal()) == [0, 0, 10]
    ensures "x" in ProcessAll(map[], RestingRefusal())
    ensures ProcessAll(map[], RestingRefusal())["x"].counters.mismatches == 1
  {
    hide LegalRun, Legal, Next, After, Reported, ProcessAll, Fills;
    var op, out := Op.Market(Buy, "m", 10), Filled([Fill("m", "a", 10.0, 5)]);
    FillsFive();
    RunCons(QUEUED, op, [], out, []);
    assert [op] + [] == [op] && [out] + [] == [out];
    var a, sent := Limit(Sell, Witness.A), Limit(Sell, Rest("a", 11.0, 2, 5));
    RefusedThen(sent, [op], [out]);
    assert [a, sent] + [op] == [a, sent, op];
    assert [Filled([]), DuplicateId] + [out] == [Filled([]), DuplicateId, out];
    RestingReplay();
    RestingCounters();
  }

  lemma FillsFive()
    ensures Legal(QUEUED, Op.Market(Buy, "m", 10), Filled([Fill("m", "a", 10.0, 5)]))
    ensures LegalRun(Next(QUEUED, Op.Market(Buy, "m", 10), Filled([Fill("m", "a", 10.0, 5)])), [], [])
  {
    var f := Fill("m", "a", 10.0, 5);
    assert [f][1..] == [];
    assert Traded([f]) == 5;
    MatchIsLegal(QUEUED, Op.Market(Buy, "m", 10), [f], map[], 5);
  }

  lemma RestingCounters()
    ensures "x" in ProcessAll(map[], RestingRefusal())
    ensures ProcessAll(map[], RestingRefusal())["x"].counters.mismatches == 1
  {
    hide ProcessAll, Fills;
    var es := RestingRefusal();
    assert es[1..] == [es[1], es[2]] && es[1..][1..] == [es[2]] && es[1..][1..][1..] == [];
    assert Only("x", es) == es;
    RunCounters("x", es);
    RestingReplay();
    var fills := [0, 0, 10];
    assert fills[1..] == [0, 10] && fills[1..][1..] == [10];
  }

  lemma TakesBoth(x: Rest, y: Rest, m: string)
    requires x.qty == y.qty == 5
    ensures Slices.Step(Slices.State([], [x, y]), Op.Market(Buy, m, 10)).1 == 10
  {
    assert [x, y][1..] == [y] && [y][1..] == [];
    assert Slices.Take(Sell, [], 0, Everything) == ([], 0);
    assert Slices.Take(Sell, [y], 5, Everything) == ([], 5);
    assert Slices.Take(Sell, [x, y], 10, Everything).1 == 10;
  }

  lemma RestingReplay()
    ensures Fills(Slices.EMPTY, RestingRefusal()) == [0, 0, 10]
  {
    hide Slices.Step;
    var es, r := RestingRefusal(), Rest("", 11.0, 2, 5);
    assert es[1..] == [es[1], es[2]] && es[1..][1..] == [es[2]] && es[1..][1..][1..] == [];
    Witness.SellQueued([], Witness.A);
    Witness.SellQueued([Witness.A], r);
    assert [] + [Witness.A] == [Witness.A] && [Witness.A] + [r] == [Witness.A, r];
    TakesBoth(Witness.A, r, "m");
    assert Redo(Slices.EMPTY, es[0]) == (Slices.State([], [Witness.A]), 0);
    assert Redo(Slices.State([], [Witness.A]), es[1]) == (Slices.State([], [Witness.A, r]), 0);
    assert Redo(Slices.State([], [Witness.A, r]), es[2]).1 == 10;
  }
}
