/** Price-time priority in plain terms of prices and times: which orders a taker meets, in what order, at what
    price, and when it stops. */
module Priority {
  import opened Market
  import opened Bags
  import opened Reference
  import Slices

  /** Cheaper, or as cheap and earlier. */
  predicate AskFirst(x: Rest, y: Rest) { x.price < y.price || (x.price == y.price && x.at < y.at) }

  /** Dearer, or as dear and earlier. */
  predicate BidFirst(x: Rest, y: Rest) { x.price > y.price || (x.price == y.price && x.at < y.at) }

  /** A buyer meets sellers: each fill is with a resting ask, at that ask's own price and for no more than it has,
      and every ask that goes first is taken whole before. */
  ghost predicate SellersInTurn(asks: Bag, taker: string, fills: seq<Fill>) {
    && (forall k :: 0 <= k < |fills| ==>
          && fills[k].buyId == taker && fills[k].sellId in asks
          && fills[k].price == asks[fills[k].sellId].price
          && 0 < fills[k].qty <= asks[fills[k].sellId].qty)
    && forall k, id :: 0 <= k < |fills| && id in asks && AskFirst(asks[id], asks[fills[k].sellId]) ==>
         exists m :: 0 <= m < k && fills[m].sellId == id && fills[m].qty == asks[id].qty
  }

  /** A seller meets buyers: the same with every bid that goes first. */
  ghost predicate BuyersInTurn(bids: Bag, taker: string, fills: seq<Fill>) {
    && (forall k :: 0 <= k < |fills| ==>
          && fills[k].sellId == taker && fills[k].buyId in bids
          && fills[k].price == bids[fills[k].buyId].price
          && 0 < fills[k].qty <= bids[fills[k].buyId].qty)
    && forall k, id :: 0 <= k < |fills| && id in bids && BidFirst(bids[id], bids[fills[k].buyId]) ==>
         exists m :: 0 <= m < k && fills[m].buyId == id && fills[m].qty == bids[id].qty
  }

  lemma FirstIsBefore(x: Rest, y: Rest)
    ensures Before(Sell, x, y) <==> AskFirst(x, y)
    ensures Before(Buy, x, y) <==> BidFirst(x, y)
  {
  }

  /** An order that goes before the k-th maker is taken whole before it. */
  lemma TakenBefore(side: Side, bag: Bag, taker: string, scope: Scope, fills: seq<Fill>, k: nat, id: string)
    returns (m: nat)
    requires GreedyPrefix(side, bag, taker, scope, fills) && k < |fills| && id in bag
    requires MakerId(side, fills[k]) in bag && Before(side, bag[id], bag[MakerId(side, fills[k])])
    ensures m < k && MakerId(side, fills[m]) == id && fills[m].qty == bag[id].qty
  {
    hide Before, Within;
    assert Touched(side, fills, k, id);
    m :| 0 <= m < k && MakerId(side, fills[m]) == id;
  }

  lemma SellersTaken(asks: Bag, taker: string, scope: Scope, fills: seq<Fill>)
    requires GreedyPrefix(Sell, asks, taker, scope, fills)
    ensures SellersInTurn(asks, taker, fills)
  {
    forall k, id | 0 <= k < |fills| && id in asks && AskFirst(asks[id], asks[fills[k].sellId])
      ensures exists m :: 0 <= m < k && fills[m].sellId == id && fills[m].qty == asks[id].qty
    {
      FirstIsBefore(asks[id], asks[fills[k].sellId]);
      var m := TakenBefore(Sell, asks, taker, scope, fills, k, id);
    }
    hide Before, AskFirst, Touched;
  }

  lemma BuyersTaken(bids: Bag, taker: string, scope: Scope, fills: seq<Fill>)
    requires GreedyPrefix(Buy, bids, taker, scope, fills)
    ensures BuyersInTurn(bids, taker, fills)
  {
    forall k, id | 0 <= k < |fills| && id in bids && BidFirst(bids[id], bids[fills[k].buyId])
      ensures exists m :: 0 <= m < k && fills[m].buyId == id && fills[m].qty == bids[id].qty
    {
      FirstIsBefore(bids[id], bids[fills[k].buyId]);
      var m := TakenBefore(Buy, bids, taker, scope, fills, k, id);
    }
    hide Before, BidFirst, Touched;
  }

  /** The taker meets the other side in turn. */
  ghost predicate FilledInTurn(b: Book, side: Side, taker: string, fills: seq<Fill>) {
    if side == Buy then SellersInTurn(b.asks, taker, fills) else BuyersInTurn(b.bids, taker, fills)
  }

  /** Every legal answer, and so every answer of the heap book: a buyer takes the cheapest asks first and among
      equal prices the earliest, a seller the dearest bids first and among equal prices the earliest, and nobody
      pays more or gets less than its limit. */
  lemma BestThenEarliestFirst(b: Book, op: Op, out: Outcome)
    requires Sound(b) && Legal(b, op, out) && out.Filled?
    ensures FilledInTurn(b, op.side, IdOf(op), out.fills)
    ensures op.Limit? && op.side == Buy ==>
      forall k :: 0 <= k < |out.fills| ==> out.fills[k].price <= op.order.price
    ensures op.Limit? && op.side == Sell ==>
      forall k :: 0 <= k < |out.fills| ==> out.fills[k].price >= op.order.price
  {
    var maker := op.side.Opposite();
    GreedyIsPrefix(maker, b.Of(maker), IdOf(op), QtyOf(op), ScopeOf(op), out.fills);
    if op.side == Buy {
      SellersTaken(b.asks, IdOf(op), ScopeOf(op), out.fills);
    } else {
      BuyersTaken(b.bids, IdOf(op), ScopeOf(op), out.fills);
    }
  }

  /** It stops only when it is filled or nothing it may trade with is left, and never trades more than asked. */
  lemma StopsOnlyWhenDone(b: Book, op: Op, out: Outcome)
    requires Sound(b) && Legal(b, op, out) && out.Filled?
    ensures var asked := if op.Limit? then op.order.qty else op.qty;
      var next := Next(b, op, out);
      && 0 <= Traded(out.fills) <= Max(0, asked)
      && (Traded(out.fills) < asked ==>
            && (op.Limit? && op.side == Buy ==> forall id :: id in next.asks ==> next.asks[id].price > op.order.price)
            && (op.Limit? && op.side == Sell ==> forall id :: id in next.bids ==> next.bids[id].price < op.order.price)
            && (op.Market? && op.side == Buy ==> next.asks == map[])
            && (op.Market? && op.side == Sell ==> next.bids == map[]))
  {
    var maker := op.side.Opposite();
    GreedyDepth(maker, b.Of(maker), IdOf(op), QtyOf(op), ScopeOf(op), out.fills, Everything);
    var left := Drain(maker, b.Of(maker), IdOf(op), QtyOf(op), ScopeOf(op), out.fills);
    assert Next(b, op, out).Of(maker) == left;
    if op.Market? && Traded(out.fills) < op.qty {
      NothingLeft(maker, left, op.qty - Traded(out.fills));
    }
  }

  lemma NothingLeft(side: Side, bag: Bag, q: int)
    requires q > 0 && Stuck(side, bag, q, Everything)
    ensures bag == map[]
  {
  }

  /** What an accepted command leaves: every maker keeps its price and time and what was not taken of it, and is
      gone once that is nothing; the rest of a limit order rests at its own price and time, the rest of a market
      order nowhere; nothing else changes. */
  lemma LeavesTheRest(b: Book, op: Op, out: Outcome)
    requires Sound(b) && Legal(b, op, out) && out.Filled?
    ensures var was, now := b.Of(op.side.Opposite()), Next(b, op, out).Of(op.side.Opposite());
      forall id :: IsLeft(op.side.Opposite(), was, now, out.fills, id)
    ensures var was, now := b.Of(op.side), Next(b, op, out).Of(op.side);
      if op.Limit? && op.order.qty > Traded(out.fills) then
        now == was[op.order.id := Rest(op.order.id, op.order.price, op.order.at, op.order.qty - Traded(out.fills))]
      else now == was
  {
    hide IsLeft, Drain, Greedy, Stuck;
    forall id
      ensures var maker := op.side.Opposite();
        IsLeft(maker, b.Of(maker), Next(b, op, out).Of(maker), out.fills, id)
    {
      MakerLeaves(b, op, out, id);
    }
  }

  /** What is left of a maker: its open quantity less what the fills took of it. */
  ghost predicate IsLeft(maker: Side, was: Bag, now: Bag, fills: seq<Fill>, id: string) {
    var left := (if id in was then was[id].qty else 0) - Volume(maker, fills, Single(id));
    && (id in now <==> left > 0)
    && (id in now ==> id in was && now[id] == Rest(id, was[id].price, was[id].at, left))
  }

  lemma MakerLeaves(b: Book, op: Op, out: Outcome, id: string)
    requires Sound(b) && Legal(b, op, out) && out.Filled?
    ensures var maker := op.side.Opposite();
      IsLeft(maker, b.Of(maker), Matched(b, op, out).Of(maker), out.fills, id)
  {
    var maker := op.side.Opposite();
    MatchedConserves(b, op, out, maker, Single(id));
    MatchedSound(b, op, out);
    DrainKeeps(maker, b.Of(maker), IdOf(op), QtyOf(op), ScopeOf(op), out.fills);
    hide Volume, Drain, Greedy, Stuck;
  }

  // ---------- the replayed book's lists ----------

  /** Bids dearest first, asks cheapest first, and the earlier of equal prices first. */
  ghost predicate InTurn(bids: seq<Rest>, asks: seq<Rest>) {
    && (forall i, j :: 0 <= i < j < |bids| ==>
          bids[i].price > bids[j].price || (bids[i].price == bids[j].price && bids[i].at <= bids[j].at))
    && (forall i, j :: 0 <= i < j < |asks| ==>
          asks[i].price < asks[j].price || (asks[i].price == asks[j].price && asks[i].at <= asks[j].at))
  }

  lemma SortedIsInTurn(bids: seq<Rest>, asks: seq<Rest>)
    ensures Slices.Sorted(Buy, bids) && Slices.Sorted(Sell, asks) <==> InTurn(bids, asks)
  {
  }

  /** A bid is inserted behind every bid that is dearer, or as dear and not later, and before all others. */
  lemma BidQueues(s: seq<Rest>, o: Rest) returns (k: nat)
    requires Slices.Sorted(Buy, s)
    ensures k <= |s| && Slices.Insert(Buy, s, o) == s[..k] + [o] + s[k..]
    ensures forall i :: 0 <= i < |s| ==>
      (i < k <==> s[i].price > o.price || (s[i].price == o.price && s[i].at <= o.at))
  {
    k := Slices.InsertPoint(Buy, s, o);
    forall i | 0 <= i < |s|
      ensures i < k <==> s[i].price > o.price || (s[i].price == o.price && s[i].at <= o.at)
    {
      assert i < k <==> !Before(Buy, o, s[i]);
    }
  }

  /** An ask is inserted behind every ask that is cheaper, or as cheap and not later, and before all others. */
  lemma AskQueues(s: seq<Rest>, o: Rest) returns (k: nat)
    requires Slices.Sorted(Sell, s)
    ensures k <= |s| && Slices.Insert(Sell, s, o) == s[..k] + [o] + s[k..]
    ensures forall i :: 0 <= i < |s| ==>
      (i < k <==> s[i].price < o.price || (s[i].price == o.price && s[i].at <= o.at))
  {
    k := Slices.InsertPoint(Sell, s, o);
    forall i | 0 <= i < |s|
      ensures i < k <==> s[i].price < o.price || (s[i].price == o.price && s[i].at <= o.at)
    {
      assert i < k <==> !Before(Sell, o, s[i]);
    }
  }

  // ---------- ids in use ----------

  /** An accepted limit order puts its id in use, whether or not any of it rests; a cancel that finds it takes it
      out; a market order leaves the ids as they are. */
  lemma IdsInUse(b: Book, op: Op, out: Outcome)
    requires Legal(b, op, out)
    ensures Next(b, op, out).ids
         == match op
            case Limit(_, o) => b.ids + {o.id}
            case Market(_, _, _) => b.ids
            case Cancel(id) => b.ids - {id}
    ensures out == DuplicateId <==> !op.Cancel? && (if op.Limit? then op.order.id else op.id) in b.ids
    ensures out == NotFound <==> op.Cancel? && op.id !in b.ids
    ensures out == Cancelled <==> op.Cancel? && op.id in b.ids
  {
  }
}
