/** The whole scoring path: a bot drives the heap book, reports what it was told, and the validator
    judges the reports. */
module Fairness {
  import opened Market
  import opened Bags
  import opened Telemetry
  import Engine
  import Reference
  import Retiming
  import Runs
  import Scoring
  import Validator

  /** How the bot classifies a captured fill. */
  function Classify(filled: int, quantity: int): OrderResult {
    if filled >= quantity then ResultFilled else if filled > 0 then ResultPartial else ResultAckOnly
  }

  /** The event a bot emits for a command the engine accepts: the fills summed, as the REST client does. */
  function EventOf(contestant: string, submission: string, op: Op, out: Outcome): Event {
    var filled := Traded(Reference.FillsOf(out));
    match op
    case Limit(side, o) =>
      Event(contestant, submission, o.id, TypeLimit, if side == Sell then SideSell else SideBuy,
            Classify(filled, o.qty), o.at, 0, o.price, o.qty, filled)
    case Market(side, id, q) =>
      Event(contestant, submission, id, TypeMarket, if side == Sell then SideSell else SideBuy,
            Classify(filled, q), 0, 0, 0.0, q, filled)
    case Cancel(id) =>
      Event(contestant, submission, id, TypeCancel, SideUnspecified, ResultAckOnly, 0, 0, 0.0, 0, 0)
  }

  function EventsOf(contestant: string, submission: string, ops: seq<Op>, outs: seq<Outcome>): (es: seq<Event>)
    requires |ops| == |outs|
    ensures |es| == |ops|
    ensures forall i :: 0 <= i < |ops| ==> es[i] == EventOf(contestant, submission, ops[i], outs[i])
  {
    if ops == [] then []
    else [EventOf(contestant, submission, ops[0], outs[0])] + EventsOf(contestant, submission, ops[1..], outs[1..])
  }

  lemma {:induction false} OnlyAll(key: string, es: seq<Event>)
    requires forall i :: 0 <= i < |es| ==> Mine(key, es[i])
    ensures Only(key, es) == es
    decreases |es|
  {
    if es != [] {
      OnlyAll(key, es[1..]);
    }
  }

  function Times(ops: seq<Op>): set<int> {
    set i | 0 <= i < |ops| && ops[i].Limit? :: ops[i].order.at
  }

  /** Every stream of distinct commands: the engine's own answers earn full marks. */
  lemma OwnAnswersEarnFullMarks(contestant: string, submission: string, ops: seq<Op>, outs: seq<Outcome>)
    requires contestant != "" && ops != [] && Runs.Distinct(ops)
    requires Reference.LegalRun(Reference.EMPTY, ops, outs)
    ensures Scoring.FullMarks(if submission != "" then submission else contestant,
                              EventsOf(contestant, submission, ops, outs))
  {
    assert |ops| == |outs|;
    hide Runs.Distinct, Reference.LegalRun, Scoring.FullMarks;
    var key := if submission != "" then submission else contestant;
    var es := EventsOf(contestant, submission, ops, outs);
    OnlyAll(key, es);
    EventsDescribe(contestant, submission, ops, outs);
    Scoring.CorrectEngineEarnsFullMarks(key, es, SameTime, Times(ops), ops, outs);
  }

  function SameTime(t: int): int { t }

  lemma EventsDescribe(contestant: string, submission: string, ops: seq<Op>, outs: seq<Outcome>)
    requires contestant != "" && |ops| == |outs|
    ensures Scoring.Describes(SameTime, EventsOf(contestant, submission, ops, outs), ops)
    ensures forall i :: 0 <= i < |ops| ==> Scoring.Honest(EventsOf(contestant, submission, ops, outs)[i], outs[i])
  {
    var es := EventsOf(contestant, submission, ops, outs);
    hide EventOf, EventsOf, Scoring.ToOp, Retiming.LaterOp, Scoring.Honest, Scoring.OpsOf, Retiming.LaterOps;
    forall i | 0 <= i < |ops|
      ensures es[i].Event? && es[i].kind != TypeUnspecified
      ensures Scoring.ToOp(es[i]) == Retiming.LaterOp(SameTime, ops[i]) && Scoring.Honest(es[i], outs[i])
    {
      EventDescribes(contestant, submission, ops[i], outs[i]);
    }
    assert Scoring.Typed(es);
    assert Scoring.OpsOf(es) == Retiming.LaterOps(SameTime, ops);
  }

  lemma EventDescribes(contestant: string, submission: string, op: Op, out: Outcome)
    ensures var e := EventOf(contestant, submission, op, out);
      && e.Event? && e.kind != TypeUnspecified
      && Scoring.ToOp(e) == Retiming.LaterOp(SameTime, op) && Scoring.Honest(e, out)
  {
  }

  /** The reported result of an order that asks for something says whether all, some or none of it found orders to
      trade with. */
  lemma ResultSaysHowMuch(contestant: string, submission: string, b: Reference.Book, op: Op, out: Outcome)
    requires Reference.Sound(b) && Reference.Legal(b, op, out) && out.Filled? && Reference.QtyOf(op) > 0
    ensures var e := EventOf(contestant, submission, op, out);
      var there := Depth(op.side.Opposite(), b.Of(op.side.Opposite()), Reference.ScopeOf(op));
      && e.filled == (if there < Reference.QtyOf(op) then there else Reference.QtyOf(op))
      && (e.result == ResultFilled <==> there >= Reference.QtyOf(op))
      && (e.result == ResultPartial <==> 0 < there < Reference.QtyOf(op))
      && (e.result == ResultAckOnly <==> there == 0)
  {
    Reference.FilledQuantity(b, op, out);
    DepthNonNegative(op.side.Opposite(), b.Of(op.side.Opposite()), Reference.ScopeOf(op));
    hide Traded, Depth, Reference.Legal;
  }

  /** Drive the heap book, report its answers, judge them: no mismatch and correctness 1. */
  method RunContest(contestant: string, submission: string, ops: seq<Op>) returns (r: Validator.Report)
    requires contestant != "" && ops != [] && Runs.Distinct(ops)
    ensures r.mismatches == 0 && r.correctness == 1.0
  {
    var outs := Engine.RunBook(ops);
    var es := EventsOf(contestant, submission, ops, outs);
    OwnAnswersEarnFullMarks(contestant, submission, ops, outs);
    var v := Validator.Replay(es);
    var ok;
    r, ok := v.GetReport(if submission != "" then submission else contestant);
  }
}
