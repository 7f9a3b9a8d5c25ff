/** Agreement of the engines over whole command streams. */
module Runs {
  import opened Market
  import opened Bags
  import opened Reference
  import opened Agreement
  import Slices

  function Replay(sb: Slices.State, ops: seq<Op>): Slices.State
    decreases |ops|
  {
    if ops == [] then sb else Replay(Slices.Step(sb, ops[0]).0, ops[1..])
  }

  /** The fill the slice book computes for each command. */
  function Expected(sb: Slices.State, ops: seq<Op>): seq<int>
    decreases |ops|
  {
    if ops == [] then []
    else [Slices.Step(sb, ops[0]).1] + Expected(Slices.Step(sb, ops[0]).0, ops[1..])
  }

  /** The filled quantity a client reads off each answer. */
  function Reported(outs: seq<Outcome>): seq<int> {
    if outs == [] then [] else [Traded(FillsOf(outs[0]))] + Reported(outs[1..])
  }

  ghost predicate UntiedRun(b: Book, ops: seq<Op>, outs: seq<Outcome>)
    requires LegalRun(b, ops, outs)
    decreases |ops|
  {
    ops == [] || (Untied(b, ops[0]) && UntiedRun(Next(b, ops[0], outs[0]), ops[1..], outs[1..]))
  }

  /** Every fill agrees and the slice book ends as the sorted contents of the reference book,
      whatever limit, market and cancel commands are sent. */
  lemma {:induction false} EnginesAgree(b: Book, sb: Slices.State, ops: seq<Op>, outs: seq<Outcome>)
    requires Sound(b) && Shows(b, sb) && LegalRun(b, ops, outs) && UntiedRun(b, ops, outs)
    ensures Expected(sb, ops) == Reported(outs)
    ensures Shows(After(b, ops, outs), Replay(sb, ops))
    decreases |ops|
  {
    hide Shows, Untied, Sound, Legal;
    if ops != [] {
      StepAgrees(b, sb, ops[0], outs[0]);
      NextSound(b, ops[0], outs[0]);
      EnginesAgree(Next(b, ops[0], outs[0]), Slices.Step(sb, ops[0]).0, ops[1..], outs[1..]);
    }
  }

  lemma RunCons(b: Book, op: Op, ops: seq<Op>, out: Outcome, outs: seq<Outcome>)
    requires Legal(b, op, out) && LegalRun(Next(b, op, out), ops, outs)
    ensures LegalRun(b, [op] + ops, [out] + outs)
    ensures After(b, [op] + ops, [out] + outs) == After(Next(b, op, out), ops, outs)
    ensures Reported([out] + outs) == [Traded(FillsOf(out))] + Reported(outs)
  {
    assert ([op] + ops)[1..] == ops && ([out] + outs)[1..] == outs;
  }

  lemma NoneExpected(sb: Slices.State)
    ensures Expected(sb, []) == []
  {
  }

  lemma ExpectedCons(sb: Slices.State, op: Op, ops: seq<Op>)
    ensures Expected(sb, [op] + ops) == [Slices.Step(sb, op).1] + Expected(Slices.Step(sb, op).0, ops)
  {
    assert ([op] + ops)[1..] == ops;
  }

  // ---------- a condition on the stream alone ----------

  /** No command reuses the id of an earlier limit order, and no two limit orders of one side
      have the same price and time. */
  ghost predicate Distinct(ops: seq<Op>) {
    forall i, j :: 0 <= i < j < |ops| && ops[i].Limit? && !ops[j].Cancel? ==>
      && IdOf(ops[i]) != IdOf(ops[j])
      && (ops[j].Limit? && ops[i].side == ops[j].side ==> !Tie(ops[i].order, ops[j].order))
  }

  ghost predicate Clear(b: Book, ops: seq<Op>) {
    forall i :: 0 <= i < |ops| ==> Untied(b, ops[i])
  }

  /** Whatever rests after a command rested before it, or is the order it placed. */
  lemma Origin(b: Book, op: Op, out: Outcome, side: Side, id: string)
    requires Sound(b) && Legal(b, op, out) && id in Next(b, op, out).Of(side)
    ensures (id in b.Of(side) && Tie(Next(b, op, out).Of(side)[id], b.Of(side)[id]))
         || (op.Limit? && op.side == side && Tie(Next(b, op, out).Of(side)[id], op.order))
  {
    if out.Filled? {
      var maker := op.side.Opposite();
      DrainKeeps(maker, b.Of(maker), IdOf(op), QtyOf(op), ScopeOf(op), out.fills);
    }
  }

  lemma ClearNext(b: Book, ops: seq<Op>, out: Outcome)
    requires Sound(b) && Distinct(ops) && Clear(b, ops) && ops != [] && Legal(b, ops[0], out)
    ensures Clear(Next(b, ops[0], out), ops[1..]) && Distinct(ops[1..])
  {
    var b' := Next(b, ops[0], out);
    assert b'.ids <= b.ids + if ops[0].Limit? then {IdOf(ops[0])} else {};
    forall i | 0 <= i < |ops[1..]|
      ensures Untied(b', ops[1..][i])
    {
      var op := ops[i + 1];
      assert Untied(b, op);
      if op.Limit? {
        forall id | id in b'.Of(op.side)
          ensures !Tie(b'.Of(op.side)[id], op.order)
        {
          Origin(b, ops[0], out, op.side, id);
        }
      }
    }
  }

  lemma {:induction false} DistinctUntied(b: Book, ops: seq<Op>, outs: seq<Outcome>)
    requires Sound(b) && Distinct(ops) && Clear(b, ops) && LegalRun(b, ops, outs)
    ensures UntiedRun(b, ops, outs)
    decreases |ops|
  {
    if ops != [] {
      NextSound(b, ops[0], outs[0]);
      ClearNext(b, ops, outs[0]);
      DistinctUntied(Next(b, ops[0], outs[0]), ops[1..], outs[1..]);
    }
  }

  /** From the empty book, a stream of distinct commands fills alike in both engines. */
  lemma DistinctStreamsAgree(ops: seq<Op>, outs: seq<Outcome>)
    requires Distinct(ops) && LegalRun(EMPTY, ops, outs)
    ensures Expected(Slices.EMPTY, ops) == Reported(outs)
    ensures Shows(After(EMPTY, ops, outs), Replay(Slices.EMPTY, ops))
  {
    DistinctUntied(EMPTY, ops, outs);
    EnginesAgree(EMPTY, Slices.EMPTY, ops, outs);
  }

  // ---------- ties do not matter until something is cancelled ----------

  /** A bag and a list with the same depth within every limit. */
  ghost predicate EqualDepth(side: Side, bag: Bag, s: seq<Rest>) {
    forall scope: Scope :: !scope.Exactly? ==> Depth(side, bag, scope) == Slices.Depth(side, s, scope)
  }

  /** Both books have the same depth within every limit. */
  ghost predicate SameDepth(b: Book, sb: Slices.State) {
    EqualDepth(Buy, b.bids, sb.bids) && EqualDepth(Sell, b.asks, sb.asks)
  }

  lemma TakeEqualDepth(side: Side, bag: Bag, s: seq<Rest>, taker: string, q: int, scope: Scope, fills: seq<Fill>)
    requires WellKeyed(bag) && Slices.Sorted(side, s) && Slices.Positive(s) && EqualDepth(side, bag, s)
    requires !scope.Exactly? && Match(side, bag, taker, q, scope, fills)
    ensures Slices.Take(side, s, q, scope).1 == Traded(fills)
    ensures EqualDepth(side, Drain(side, bag, taker, q, scope, fills), Slices.Take(side, s, q, scope).0)
  {
    hide Depth, Slices.Depth, Slices.Take, Slices.Sorted, Slices.Positive, Drain, WellKeyed;
    MatchTrades(side, bag, taker, q, scope, fills);
    Slices.TakeDepth(side, s, q, scope, Everything);
    forall t: Scope | !t.Exactly?
      ensures Depth(side, Drain(side, bag, taker, q, scope, fills), t)
           == Slices.Depth(side, Slices.Take(side, s, q, scope).0, t)
    {
      GreedyDepth(side, bag, taker, q, scope, fills, t);
      Slices.TakeDepth(side, s, q, scope, t);
    }
  }

  /** The same command, up to the time stamped on it. */
  predicate SameButTime(op: Op, op': Op) {
    if op.Limit? then op'.Limit? && op.side == op'.side && op.order.(at := op'.order.at) == op'.order else op == op'
  }

  lemma MatchSameDepth(b: Book, sb: Slices.State, op: Op, out: Outcome)
    requires Sound(b) && Slices.Sound(sb) && SameDepth(b, sb) && Legal(b, op, out) && out.Filled?
    ensures Slices.Match(sb, op.side, QtyOf(op), ScopeOf(op)).1 == Traded(out.fills)
    ensures SameDepth(Matched(b, op, out), Slices.Match(sb, op.side, QtyOf(op), ScopeOf(op)).0)
  {
    hide Match, EqualDepth;
    var maker := op.side.Opposite();
    TakeEqualDepth(maker, b.Of(maker), sb.Of(maker), IdOf(op), QtyOf(op), ScopeOf(op), out.fills);
  }

  lemma InsertEqualDepth(side: Side, bag: Bag, s: seq<Rest>, r: Rest, r': Rest)
    requires EqualDepth(side, bag, s) && r.id !in bag && r.price == r'.price && r.qty == r'.qty
    ensures EqualDepth(side, bag[r.id := r], Slices.Insert(side, s, r'))
  {
    forall t: Scope | !t.Exactly?
      ensures Depth(side, bag[r.id := r], t) == Slices.Depth(side, Slices.Insert(side, s, r'), t)
    {
      DepthWith(side, bag, t, r);
      Slices.InsertDepth(side, s, r', t);
    }
  }

  lemma RestSameDepth(b: Book, sb: Slices.State, side: Side, r: Rest, r': Rest)
    requires SameDepth(b, sb) && r.id !in b.Of(side) && r.price == r'.price && r.qty == r'.qty
    ensures r.qty > 0 ==> SameDepth(Rested(b, side, r), sb.With(side, Slices.Insert(side, sb.Of(side), r')))
    ensures r.qty <= 0 ==> SameDepth(Rested(b, side, r), sb)
  {
    hide EqualDepth;
    InsertEqualDepth(side, b.Of(side), sb.Of(side), r, r');
  }

  lemma StepSameDepth(b: Book, sb: Slices.State, op: Op, op': Op, out: Outcome)
    requires Sound(b) && Slices.Sound(sb) && SameDepth(b, sb) && SameButTime(op, op')
    requires Legal(b, op, out) && out.Filled?
    ensures Slices.Step(sb, op').1 == Traded(out.fills)
    ensures SameDepth(Next(b, op, out), Slices.Step(sb, op').0)
  {
    hide SameDepth, Match, Slices.Match;
    MatchSameDepth(b, sb, op, out);
    if op.Limit? {
      MatchedSound(b, op, out);
      RestSameDepth(Matched(b, op, out), Slices.Match(sb, op.side, QtyOf(op), ScopeOf(op)).0, op.side,
                    op.order.(qty := op.order.qty - Traded(out.fills)),
                    op'.order.(qty := op'.order.qty - Traded(out.fills)));
    }
  }

  /** Every command is accepted: nothing is cancelled and no id is refused. */
  ghost predicate AllFilled(outs: seq<Outcome>) {
    forall i :: 0 <= i < |outs| ==> outs[i].Filled?
  }

  ghost predicate SameButTimes(ops: seq<Op>, ops': seq<Op>) {
    |ops| == |ops'| && forall i :: 0 <= i < |ops| ==> SameButTime(ops[i], ops'[i])
  }

  /** Without cancels the engines fill alike on any accepted stream, even when their clocks
      disagree and orders tie: each fill depends on the depth profile alone. */
  lemma {:induction false} TimesDoNotMatter(b: Book, sb: Slices.State, ops: seq<Op>, ops': seq<Op>,
                                            outs: seq<Outcome>)
    requires Sound(b) && Slices.Sound(sb) && SameDepth(b, sb) && SameButTimes(ops, ops')
    requires LegalRun(b, ops, outs) && AllFilled(outs)
    ensures Expected(sb, ops') == Reported(outs)
    ensures SameDepth(After(b, ops, outs), Replay(sb, ops'))
    decreases |ops|
  {
    hide SameDepth, Sound, Slices.Sound, Legal;
    if ops != [] {
      StepSameDepth(b, sb, ops[0], ops'[0], outs[0]);
      NextSound(b, ops[0], outs[0]);
      Slices.StepSound(sb, ops'[0]);
      TimesDoNotMatter(Next(b, ops[0], outs[0]), Slices.Step(sb, ops'[0]).0, ops[1..], ops'[1..], outs[1..]);
    }
  }
}
