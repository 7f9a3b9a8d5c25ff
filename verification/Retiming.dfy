/** Only the order of timestamps matters: a run stays legal, answer for answer, when every time is
    replaced by an order-isomorphic one (the engine's clock by the client's, say). */
module Retiming {
  import opened Market
  import opened Bags
  import opened Reference

  type Clock = int -> int

  /** `tau` keeps the order of the times in `ats`. */
  ghost predicate Isotone(tau: Clock, ats: set<int>) {
    forall x, y :: x in ats && y in ats && x < y ==> tau(x) < tau(y)
  }

  ghost predicate TimesIn(ats: set<int>, bag: Bag) {
    forall id | id in bag :: bag[id].at in ats
  }

  function Later(tau: Clock, r: Rest): Rest { r.(at := tau(r.at)) }

  function LaterBag(tau: Clock, bag: Bag): Bag { map id | id in bag :: Later(tau, bag[id]) }

  function LaterBook(tau: Clock, b: Book): Book {
    Book(LaterBag(tau, b.bids), LaterBag(tau, b.asks), b.ids)
  }

  function LaterOp(tau: Clock, op: Op): Op {
    if op.Limit? then op.(order := Later(tau, op.order)) else op
  }

  lemma LaterFill(tau: Clock, ats: set<int>, side: Side, bag: Bag, taker: string, q: int, scope: Scope, f: Fill)
    requires Isotone(tau, ats) && TimesIn(ats, bag)
    ensures GoodFill(side, bag, taker, q, scope, f) <==> GoodFill(side, LaterBag(tau, bag), taker, q, scope, f)
  {
    var id := MakerId(side, f);
    if id in bag {
      assert forall k | k in bag :: Before(side, bag[k], bag[id])
                                <==> Before(side, LaterBag(tau, bag)[k], LaterBag(tau, bag)[id]);
    }
  }

  lemma LaterConsume(tau: Clock, ats: set<int>, side: Side, bag: Bag, f: Fill)
    requires MakerId(side, f) in bag && TimesIn(ats, bag)
    ensures LaterBag(tau, Consume(side, bag, f)) == Consume(side, LaterBag(tau, bag), f)
    ensures TimesIn(ats, Consume(side, bag, f))
  {
  }

  lemma {:induction false} LaterGreedy(tau: Clock, ats: set<int>, side: Side, bag: Bag, taker: string, q: int,
                                       scope: Scope, fills: seq<Fill>)
    requires Isotone(tau, ats) && TimesIn(ats, bag) && Greedy(side, bag, taker, q, scope, fills)
    ensures Greedy(side, LaterBag(tau, bag), taker, q, scope, fills)
    ensures Drain(side, LaterBag(tau, bag), taker, q, scope, fills)
         == LaterBag(tau, Drain(side, bag, taker, q, scope, fills))
    ensures TimesIn(ats, Drain(side, bag, taker, q, scope, fills))
    decreases |fills|
  {
    if fills != [] {
      LaterFill(tau, ats, side, bag, taker, q, scope, fills[0]);
      LaterConsume(tau, ats, side, bag, fills[0]);
      LaterGreedy(tau, ats, side, Consume(side, bag, fills[0]), taker, q - fills[0].qty, scope, fills[1..]);
    }
  }

  ghost predicate BookTimesIn(ats: set<int>, b: Book) {
    TimesIn(ats, b.bids) && TimesIn(ats, b.asks)
  }

  lemma LaterMatch(tau: Clock, ats: set<int>, side: Side, bag: Bag, taker: string, q: int, scope: Scope,
                   fills: seq<Fill>)
    requires Isotone(tau, ats) && TimesIn(ats, bag) && Match(side, bag, taker, q, scope, fills)
    ensures Match(side, LaterBag(tau, bag), taker, q, scope, fills)
    ensures Drain(side, LaterBag(tau, bag), taker, q, scope, fills)
         == LaterBag(tau, Drain(side, bag, taker, q, scope, fills))
    ensures TimesIn(ats, Drain(side, bag, taker, q, scope, fills))
  {
    LaterGreedy(tau, ats, side, bag, taker, q, scope, fills);
  }

  lemma LaterMatched(tau: Clock, ats: set<int>, b: Book, op: Op, out: Outcome)
    requires Isotone(tau, ats) && BookTimesIn(ats, b) && Legal(b, op, out) && out.Filled?
    ensures Legal(LaterBook(tau, b), LaterOp(tau, op), out)
    ensures LaterBook(tau, Matched(b, op, out)) == Matched(LaterBook(tau, b), LaterOp(tau, op), out)
    ensures BookTimesIn(ats, Matched(b, op, out))
  {
    hide Match, LaterBag, TimesIn;
    var maker := op.side.Opposite();
    LaterMatch(tau, ats, maker, b.Of(maker), IdOf(op), QtyOf(op), ScopeOf(op), out.fills);
  }

  lemma LaterRested(tau: Clock, ats: set<int>, b: Book, side: Side, r: Rest)
    requires BookTimesIn(ats, b) && r.at in ats
    ensures LaterBook(tau, Rested(b, side, r)) == Rested(LaterBook(tau, b), side, Later(tau, r))
    ensures BookTimesIn(ats, Rested(b, side, r))
  {
    assert LaterBag(tau, b.Of(side)[r.id := r]) == LaterBag(tau, b.Of(side))[r.id := Later(tau, r)];
  }

  lemma LaterWithout(tau: Clock, ats: set<int>, bag: Bag, id: string)
    requires TimesIn(ats, bag)
    ensures LaterBag(tau, bag - {id}) == LaterBag(tau, bag) - {id} && TimesIn(ats, bag - {id})
  {
  }

  /** One command: the same answer is legal after retiming, and retiming commutes with it. */
  lemma LaterNext(tau: Clock, ats: set<int>, b: Book, op: Op, out: Outcome)
    requires Isotone(tau, ats) && BookTimesIn(ats, b) && Legal(b, op, out)
    requires op.Limit? ==> op.order.at in ats
    ensures Legal(LaterBook(tau, b), LaterOp(tau, op), out)
    ensures LaterBook(tau, Next(b, op, out)) == Next(LaterBook(tau, b), LaterOp(tau, op), out)
    ensures BookTimesIn(ats, Next(b, op, out))
  {
    hide Match, LaterBag, TimesIn, Matched, Rested, Isotone;
    if out.Filled? {
      LaterMatched(tau, ats, b, op, out);
      if op.Limit? {
        var r := op.order.(qty := op.order.qty - Traded(out.fills));
        LaterRested(tau, ats, Matched(b, op, out), op.side, r);
      }
    } else if op.Cancel? {
      LaterWithout(tau, ats, b.bids, op.id);
      LaterWithout(tau, ats, b.asks, op.id);
    }
  }

  ghost predicate OpTimesIn(ats: set<int>, ops: seq<Op>) {
    forall i :: 0 <= i < |ops| && ops[i].Limit? ==> ops[i].order.at in ats
  }

  function LaterOps(tau: Clock, ops: seq<Op>): (r: seq<Op>)
    ensures |r| == |ops|
    ensures forall i :: 0 <= i < |ops| ==> r[i] == LaterOp(tau, ops[i])
  {
    if ops == [] then [] else [LaterOp(tau, ops[0])] + LaterOps(tau, ops[1..])
  }

  /** Whole runs: the retimed commands have exactly the same answers. */
  lemma {:induction false} LaterRun(tau: Clock, ats: set<int>, b: Book, ops: seq<Op>, outs: seq<Outcome>)
    requires Isotone(tau, ats) && BookTimesIn(ats, b) && OpTimesIn(ats, ops) && LegalRun(b, ops, outs)
    ensures LegalRun(LaterBook(tau, b), LaterOps(tau, ops), outs)
    ensures After(LaterBook(tau, b), LaterOps(tau, ops), outs) == LaterBook(tau, After(b, ops, outs))
    decreases |ops|
  {
    hide Legal, Next;
    if ops != [] {
      LaterNext(tau, ats, b, ops[0], outs[0]);
      assert LaterOps(tau, ops)[1..] == LaterOps(tau, ops[1..]);
      LaterRun(tau, ats, Next(b, ops[0], outs[0]), ops[1..], outs[1..]);
    }
  }
}
