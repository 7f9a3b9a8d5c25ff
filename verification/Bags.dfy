/** The reference matcher: one side of a book as an unordered bag of orders, from which a
    best order is always taken. It says nothing of heaps, indexes or sorted slices; where
    several orders tie for best, any of them may be taken. */
module Bags {
  import opened Market

  type Bag = map<string, Rest>

  ghost predicate WellKeyed(bag: Bag) {
    forall id | id in bag :: bag[id].id == id && bag[id].qty > 0
  }

  // ---------- depth: how much quantity rests within a scope ----------

  function Share(side: Side, scope: Scope, r: Rest): int {
    if Within(side, scope, r.price) then r.qty else 0
  }

  ghost function Pick(bag: Bag): (id: string)
    requires bag != map[]
    ensures id in bag
  {
    var id :| id in bag; id
  }

  ghost function Depth(side: Side, bag: Bag, scope: Scope): int
    decreases |bag|
  {
    if bag == map[] then 0
    else Share(side, scope, bag[Pick(bag)]) + Depth(side, bag - {Pick(bag)}, scope)
  }

  lemma {:induction false} DepthWithout(side: Side, bag: Bag, scope: Scope, id: string)
    requires id in bag
    ensures Depth(side, bag, scope) == Share(side, scope, bag[id]) + Depth(side, bag - {id}, scope)
    decreases |bag|
  {
    var k := Pick(bag);
    if k != id {
      DepthWithout(side, bag - {k}, scope, id);
      DepthWithout(side, bag - {id}, scope, k);
      assert bag - {k} - {id} == bag - {id} - {k};
    }
  }

  lemma DepthWith(side: Side, bag: Bag, scope: Scope, r: Rest)
    requires r.id !in bag
    ensures Depth(side, bag[r.id := r], scope) == Depth(side, bag, scope) + Share(side, scope, r)
  {
    DepthWithout(side, bag[r.id := r], scope, r.id);
    assert bag[r.id := r] - {r.id} == bag;
  }

  lemma {:induction false} DepthNonNegative(side: Side, bag: Bag, scope: Scope)
    requires WellKeyed(bag)
    ensures Depth(side, bag, scope) >= 0
    decreases |bag|
  {
    if bag != map[] {
      var id := Pick(bag);
      DepthWithout(side, bag, scope, id);
      DepthNonNegative(side, bag - {id}, scope);
    }
  }

  lemma DepthAtLeast(side: Side, bag: Bag, scope: Scope, id: string)
    requires WellKeyed(bag) && id in bag && Within(side, scope, bag[id].price)
    ensures Depth(side, bag, scope) >= bag[id].qty
  {
    DepthWithout(side, bag, scope, id);
    DepthNonNegative(side, bag - {id}, scope);
  }

  lemma {:induction false} DepthOfNothing(side: Side, bag: Bag, scope: Scope)
    requires forall id | id in bag :: !Within(side, scope, bag[id].price)
    ensures Depth(side, bag, scope) == 0
    decreases |bag|
  {
    if bag != map[] {
      var id := Pick(bag);
      DepthWithout(side, bag, scope, id);
      DepthOfNothing(side, bag - {id}, scope);
    }
  }

  // ---------- greedy matching ----------

  ghost predicate IsBest(side: Side, bag: Bag, id: string) {
    id in bag && forall k | k in bag :: !Before(side, bag[k], bag[id])
  }

  /** One legal fill: a best order of the bag, in scope, at its own price, for as much as
      both parties have left. */
  ghost predicate GoodFill(side: Side, bag: Bag, taker: string, q: int, scope: Scope, f: Fill) {
    var id := MakerId(side, f);
    && q > 0
    && IsBest(side, bag, id)
    && Within(side, scope, bag[id].price)
    && f == FillOf(side, id, taker, bag[id].price, Min(q, bag[id].qty))
  }

  function Consume(side: Side, bag: Bag, f: Fill): Bag
    requires MakerId(side, f) in bag
  {
    var id := MakerId(side, f);
    if bag[id].qty == f.qty then bag - {id} else bag[id := bag[id].(qty := bag[id].qty - f.qty)]
  }

  ghost predicate Greedy(side: Side, bag: Bag, taker: string, q: int, scope: Scope, fills: seq<Fill>)
    decreases |fills|
  {
    fills == [] ||
    (&& GoodFill(side, bag, taker, q, scope, fills[0])
     && Greedy(side, Consume(side, bag, fills[0]), taker, q - fills[0].qty, scope, fills[1..]))
  }

  /** Nothing more can trade: the taker is done or no order is in scope. */
  ghost predicate Stuck(side: Side, bag: Bag, q: int, scope: Scope) {
    q <= 0 || forall id | id in bag :: !Within(side, scope, bag[id].price)
  }

  ghost function Drain(side: Side, bag: Bag, taker: string, q: int, scope: Scope, fills: seq<Fill>): Bag
    requires Greedy(side, bag, taker, q, scope, fills)
    decreases |fills|
  {
    if fills == [] then bag
    else Drain(side, Consume(side, bag, fills[0]), taker, q - fills[0].qty, scope, fills[1..])
  }

  lemma {:induction false} GreedySnoc(side: Side, bag: Bag, taker: string, q: int, scope: Scope,
                                      fills: seq<Fill>, f: Fill)
    requires Greedy(side, bag, taker, q, scope, fills)
    requires GoodFill(side, Drain(side, bag, taker, q, scope, fills), taker, q - Traded(fills), scope, f)
    ensures Greedy(side, bag, taker, q, scope, fills + [f])
    ensures Drain(side, bag, taker, q, scope, fills + [f])
         == Consume(side, Drain(side, bag, taker, q, scope, fills), f)
    decreases |fills|
  {
    if fills == [] {
      assert fills + [f] == [f];
      assert [f][1..] == [];
    } else {
      assert (fills + [f])[1..] == fills[1..] + [f];
      GreedySnoc(side, Consume(side, bag, fills[0]), taker, q - fills[0].qty, scope, fills[1..], f);
    }
  }

  /** Greedy `fills` lead from `bag0` and quantity `q0` to `bag` and quantity `q`. */
  ghost predicate Leads(side: Side, bag0: Bag, taker: string, q0: int, scope: Scope, fills: seq<Fill>,
                        bag: Bag, q: int) {
    && Greedy(side, bag0, taker, q0, scope, fills)
    && bag == Drain(side, bag0, taker, q0, scope, fills)
    && q == q0 - Traded(fills)
  }

  lemma LeadsNowhere(side: Side, bag: Bag, taker: string, q: int, scope: Scope)
    ensures Leads(side, bag, taker, q, scope, [], bag, q)
    ensures q <= 0 ==> Stuck(side, bag, q, scope)
  {
  }

  lemma LeadsLeft(side: Side, bag0: Bag, taker: string, q0: int, scope: Scope, fills: seq<Fill>,
                  bag: Bag, q: int)
    requires Leads(side, bag0, taker, q0, scope, fills, bag, q)
    ensures q == q0 - Traded(fills)
  {
  }

  lemma LeadsOn(side: Side, bag0: Bag, taker: string, q0: int, scope: Scope, fills: seq<Fill>,
                bag: Bag, q: int, f: Fill)
    requires Leads(side, bag0, taker, q0, scope, fills, bag, q)
    requires GoodFill(side, bag, taker, q, scope, f)
    ensures Leads(side, bag0, taker, q0, scope, fills + [f], Consume(side, bag, f), q - f.qty)
  {
    GreedySnoc(side, bag0, taker, q0, scope, fills, f);
    TradedSnoc(fills, f);
  }

  /** A complete match: greedy fills until nothing more can trade. */
  ghost predicate Match(side: Side, bag: Bag, taker: string, q: int, scope: Scope, fills: seq<Fill>) {
    && Greedy(side, bag, taker, q, scope, fills)
    && Stuck(side, Drain(side, bag, taker, q, scope, fills), q - Traded(fills), scope)
  }

  lemma MatchCons(side: Side, bag: Bag, taker: string, q: int, scope: Scope, fills: seq<Fill>)
    requires fills != [] && GoodFill(side, bag, taker, q, scope, fills[0])
    requires Match(side, Consume(side, bag, fills[0]), taker, q - fills[0].qty, scope, fills[1..])
    ensures Match(side, bag, taker, q, scope, fills)
  {
    assert Traded(fills) == fills[0].qty + Traded(fills[1..]);
  }

  // ---------- what greedy matching guarantees ----------

  lemma ConsumeKeeps(side: Side, bag: Bag, taker: string, q: int, scope: Scope, f: Fill)
    requires WellKeyed(bag) && GoodFill(side, bag, taker, q, scope, f)
    ensures WellKeyed(Consume(side, bag, f))
    ensures 0 < f.qty <= q && MakerId(side, f) in bag
  {
  }

  lemma NothingTraded()
    ensures Traded([]) == 0
  {
  }

  lemma TradedCons(fills: seq<Fill>)
    requires fills != []
    ensures Traded(fills) == fills[0].qty + Traded(fills[1..])
  {
  }

  /** A fill lowers the depth of every limit scope by its quantity, floored at zero, because
      it comes off the best price there is. */
  lemma ConsumeDepth(side: Side, bag: Bag, taker: string, q: int, scope: Scope, f: Fill, s: Scope)
    requires WellKeyed(bag) && GoodFill(side, bag, taker, q, scope, f)
    requires !s.Exactly?
    ensures Depth(side, Consume(side, bag, f), s) == Max(0, Depth(side, bag, s) - f.qty)
  {
    var id := MakerId(side, f);
    var after := Consume(side, bag, f);
    DepthWithout(side, bag, s, id);
    DepthNonNegative(side, bag - {id}, s);
    if id in after {
      DepthWithout(side, after, s, id);
      assert after - {id} == bag - {id};
    }
    if !Within(side, s, bag[id].price) {
      DepthOfNothing(side, bag, s);
    }
  }

  /** However ties are broken, a run of fills lowers the whole depth profile by the traded
      quantity, and a complete match trades exactly what the scope can give. */
  lemma {:induction false} GreedyDepth(side: Side, bag: Bag, taker: string, q: int, scope: Scope,
                                       fills: seq<Fill>, s: Scope)
    requires WellKeyed(bag) && Greedy(side, bag, taker, q, scope, fills)
    requires !s.Exactly?
    ensures WellKeyed(Drain(side, bag, taker, q, scope, fills))
    ensures Depth(side, Drain(side, bag, taker, q, scope, fills), s)
         == Max(0, Depth(side, bag, s) - Traded(fills))
    ensures 0 <= Traded(fills) <= Max(0, q)
    decreases |fills|
  {
    hide Depth, GoodFill, Consume, WellKeyed, Traded;
    DepthNonNegative(side, bag, s);
    if fills == [] {
      NothingTraded();
    } else {
      GoodFillQty(side, bag, taker, q, scope, fills[0]);
      ConsumeKeeps(side, bag, taker, q, scope, fills[0]);
      ConsumeDepth(side, bag, taker, q, scope, fills[0], s);
      GreedyDepth(side, Consume(side, bag, fills[0]), taker, q - fills[0].qty, scope, fills[1..], s);
      TradedCons(fills);
    }
  }

  /** A complete match trades exactly the smaller of what was asked and what is in scope. */
  lemma MatchTrades(side: Side, bag: Bag, taker: string, q: int, scope: Scope, fills: seq<Fill>)
    requires WellKeyed(bag) && Match(side, bag, taker, q, scope, fills)
    requires !scope.Exactly?
    ensures Traded(fills) == Min(Max(0, q), Depth(side, bag, scope))
  {
    GreedyDepth(side, bag, taker, q, scope, fills, scope);
    GreedyWithinDepth(side, bag, taker, q, scope, fills);
    var after := Drain(side, bag, taker, q, scope, fills);
    if Traded(fills) < q {
      DepthOfNothing(side, after, scope);
    }
  }

  lemma {:induction false} GreedyWithinDepth(side: Side, bag: Bag, taker: string, q: int, scope: Scope,
                                             fills: seq<Fill>)
    requires WellKeyed(bag) && Greedy(side, bag, taker, q, scope, fills)
    requires !scope.Exactly?
    ensures Traded(fills) <= Depth(side, bag, scope)
    decreases |fills|
  {
    if fills == [] {
      DepthNonNegative(side, bag, scope);
    } else {
      ConsumeKeeps(side, bag, taker, q, scope, fills[0]);
      ConsumeDepth(side, bag, taker, q, scope, fills[0], scope);
      DepthAtLeast(side, bag, scope, MakerId(side, fills[0]));
      GreedyWithinDepth(side, Consume(side, bag, fills[0]), taker, q - fills[0].qty, scope, fills[1..]);
    }
  }

  /** Draining only removes orders or lowers their open quantity. */
  lemma {:induction false} DrainKeeps(side: Side, bag: Bag, taker: string, q: int, scope: Scope, fills: seq<Fill>)
    requires WellKeyed(bag) && Greedy(side, bag, taker, q, scope, fills)
    ensures WellKeyed(Drain(side, bag, taker, q, scope, fills))
    ensures forall id | id in Drain(side, bag, taker, q, scope, fills) ::
              id in bag && Drain(side, bag, taker, q, scope, fills)[id]
                        == bag[id].(qty := Drain(side, bag, taker, q, scope, fills)[id].qty)
    decreases |fills|
  {
    if fills != [] {
      DrainKeeps(side, Consume(side, bag, fills[0]), taker, q - fills[0].qty, scope, fills[1..]);
    }
  }

  // ---------- the closed form: a greedy prefix in price-time order ----------

  /** Whether one of the first `n` fills is with order `id`. */
  ghost predicate Touched(side: Side, fills: seq<Fill>, n: nat, id: string)
    requires n <= |fills|
  {
    exists k :: 0 <= k < n && MakerId(side, fills[k]) == id
  }

  /** Each fill is with a different order of the bag, in scope, at that order's own price. */
  ghost predicate FillsMakers(side: Side, bag: Bag, taker: string, scope: Scope, fills: seq<Fill>) {
    && (forall k :: 0 <= k < |fills| ==>
          var id := MakerId(side, fills[k]);
          && id in bag
          && Within(side, scope, bag[id].price)
          && 0 < fills[k].qty <= bag[id].qty
          && fills[k] == FillOf(side, id, taker, bag[id].price, fills[k].qty))
    && (forall k, l :: 0 <= k < l < |fills| ==> MakerId(side, fills[k]) != MakerId(side, fills[l]))
  }

  /** The fills walk the bag in price-time order, skip nobody, and only the last
      order they touch can be left partly filled. */
  ghost predicate GreedyPrefix(side: Side, bag: Bag, taker: string, scope: Scope, fills: seq<Fill>) {
    && FillsMakers(side, bag, taker, scope, fills)
    && (forall k :: 0 <= k < |fills| - 1 ==> fills[k].qty == bag[MakerId(side, fills[k])].qty)
    && (forall k, id :: 0 <= k < |fills| && id in bag && !Touched(side, fills, k, id) ==>
          !Before(side, bag[id], bag[MakerId(side, fills[k])]))
  }

  lemma {:induction false} GreedyIsPrefix(side: Side, bag: Bag, taker: string, q: int, scope: Scope, fills: seq<Fill>)
    requires WellKeyed(bag) && Greedy(side, bag, taker, q, scope, fills)
    ensures GreedyPrefix(side, bag, taker, scope, fills)
    decreases |fills|
  {
    if |fills| == 1 {
      assert FillsMakers(side, bag, taker, scope, fills);
    } else if fills != [] {
      var id, rest := MakerId(side, fills[0]), fills[1..];
      assert GoodFill(side, Consume(side, bag, fills[0]), taker, q - fills[0].qty, scope, rest[0]);
      assert Consume(side, bag, fills[0]) == bag - {id};
      GreedyIsPrefix(side, bag - {id}, taker, q - fills[0].qty, scope, rest);
      PrefixCons(side, bag, taker, scope, fills);
    }
  }

  lemma TouchedTail(side: Side, fills: seq<Fill>, n: nat, id: string)
    requires 0 < n <= |fills|
    ensures Touched(side, fills, n, id)
       <==> MakerId(side, fills[0]) == id || Touched(side, fills[1..], n - 1, id)
  {
    var rest := fills[1..];
    if k :| 0 <= k < n - 1 && MakerId(side, rest[k]) == id {
      assert fills[k + 1] == rest[k];
    }
    if k :| 0 < k < n && MakerId(side, fills[k]) == id {
      assert rest[k - 1] == fills[k];
    }
  }

  lemma PrefixCons(side: Side, bag: Bag, taker: string, scope: Scope, fills: seq<Fill>)
    requires |fills| > 1 && WellKeyed(bag)
    requires IsBest(side, bag, MakerId(side, fills[0]))
    requires FillsMakers(side, bag, taker, scope, fills[..1])
    requires fills[0].qty == bag[MakerId(side, fills[0])].qty
    requires GreedyPrefix(side, bag - {MakerId(side, fills[0])}, taker, scope, fills[1..])
    ensures GreedyPrefix(side, bag, taker, scope, fills)
  {
    var id, rest := MakerId(side, fills[0]), fills[1..];
    assert forall k :: 0 < k < |fills| ==> fills[k] == rest[k - 1];
    assert fills[0] == fills[..1][0];
    assert FillsMakers(side, bag, taker, scope, fills);
    forall k, x | 0 < k < |fills| && x in bag && !Touched(side, fills, k, x)
      ensures !Before(side, bag[x], bag[MakerId(side, fills[k])])
    {
      TouchedTail(side, fills, k, x);
      assert x in bag - {id} && MakerId(side, rest[k - 1]) in bag - {id};
    }
  }

  lemma {:induction false} MakersTrade(side: Side, bag: Bag, taker: string, scope: Scope, fills: seq<Fill>)
    requires FillsMakers(side, bag, taker, scope, fills)
    ensures Traded(fills) >= 0
    decreases |fills|
  {
    if fills != [] {
      MakersTrade(side, bag, taker, scope, fills[1..]);
    }
  }

  lemma PrefixTail(side: Side, bag: Bag, taker: string, scope: Scope, fills: seq<Fill>)
    requires |fills| > 1 && GreedyPrefix(side, bag, taker, scope, fills)
    ensures GreedyPrefix(side, bag - {MakerId(side, fills[0])}, taker, scope, fills[1..])
  {
    var id, rest := MakerId(side, fills[0]), fills[1..];
    assert forall k :: 0 < k < |fills| ==> fills[k] == rest[k - 1];
    assert FillsMakers(side, bag - {id}, taker, scope, rest);
    forall k, x | 0 <= k < |rest| && x in bag - {id} && !Touched(side, rest, k, x)
      ensures !Before(side, bag[x], bag[MakerId(side, rest[k])])
    {
      TouchedTail(side, fills, k + 1, x);
    }
  }

  /** The closed form of a complete match: a greedy prefix in price-time order that trades
      the smaller of the quantity asked and the quantity in scope. */
  ghost predicate FillsInPriority(side: Side, bag: Bag, taker: string, q: int, scope: Scope, fills: seq<Fill>) {
    && GreedyPrefix(side, bag, taker, scope, fills)
    && Traded(fills) == Min(Max(0, q), Depth(side, bag, scope))
  }

  lemma FirstIsBest(side: Side, bag: Bag, taker: string, scope: Scope, fills: seq<Fill>)
    requires fills != [] && GreedyPrefix(side, bag, taker, scope, fills)
    ensures IsBest(side, bag, MakerId(side, fills[0]))
  {
    forall id | id in bag ensures !Before(side, bag[id], bag[MakerId(side, fills[0])]) {
      assert !Touched(side, fills, 0, id);
    }
  }

  lemma TailMakers(side: Side, bag: Bag, taker: string, scope: Scope, fills: seq<Fill>)
    requires fills != [] && FillsMakers(side, bag, taker, scope, fills)
    ensures FillsMakers(side, bag, taker, scope, fills[1..])
  {
    hide Within;
  }

  lemma PriorityHead(side: Side, bag: Bag, taker: string, q: int, scope: Scope, fills: seq<Fill>)
    requires WellKeyed(bag) && !scope.Exactly? && fills != []
    requires FillsInPriority(side, bag, taker, q, scope, fills)
    ensures GoodFill(side, bag, taker, q, scope, fills[0])
    ensures fills[0].qty <= Depth(side, bag, scope)
  {
    var id := MakerId(side, fills[0]);
    assert IsBest(side, bag, id) by { FirstIsBest(side, bag, taker, scope, fills); }
    DepthAtLeast(side, bag, scope, id);
    TailMakers(side, bag, taker, scope, fills);
    MakersTrade(side, bag, taker, scope, fills[1..]);
    hide IsBest, Depth, Touched;
    assert fills[0] == FillOf(side, id, taker, bag[id].price, fills[0].qty);
  }

  lemma PriorityTail(side: Side, bag: Bag, taker: string, q: int, scope: Scope, fills: seq<Fill>)
    requires WellKeyed(bag) && !scope.Exactly? && fills != []
    requires FillsInPriority(side, bag, taker, q, scope, fills)
    requires GoodFill(side, bag, taker, q, scope, fills[0]) && fills[0].qty <= Depth(side, bag, scope)
    ensures FillsInPriority(side, Consume(side, bag, fills[0]), taker, q - fills[0].qty, scope, fills[1..])
  {
    hide Depth, GreedyPrefix, GoodFill, Consume, Traded, WellKeyed, Min, Max;
    GoodFillQty(side, bag, taker, q, scope, fills[0]);
    var after := Consume(side, bag, fills[0]);
    ConsumeDepth(side, bag, taker, q, scope, fills[0], scope);
    FirstIsWhole(side, bag, taker, scope, fills);
    StillToTrade(q, Depth(side, bag, scope), fills[0].qty, Traded(fills));
    TradedCons(fills);
    if |fills| > 1 {
      PrefixTail(side, bag, taker, scope, fills);
    } else {
      assert fills[1..] == [];
      NoPrefix(side, after, taker, scope);
    }
  }

  lemma GoodFillQty(side: Side, bag: Bag, taker: string, q: int, scope: Scope, f: Fill)
    requires WellKeyed(bag) && GoodFill(side, bag, taker, q, scope, f)
    ensures 0 < f.qty <= q && MakerId(side, f) in bag
  {
  }

  /** What is left to trade after one fill. */
  lemma StillToTrade(q: int, depth: int, filled: int, total: int)
    requires total == Min(Max(0, q), depth)
    ensures 0 < filled <= q && filled <= depth ==> total - filled == Min(Max(0, q - filled), Max(0, depth - filled))
  {
  }

  /** Every order but the last is filled whole. */
  lemma FirstIsWhole(side: Side, bag: Bag, taker: string, scope: Scope, fills: seq<Fill>)
    requires |fills| > 0 && GreedyPrefix(side, bag, taker, scope, fills) && MakerId(side, fills[0]) in bag
    ensures |fills| > 1 ==> Consume(side, bag, fills[0]) == bag - {MakerId(side, fills[0])}
  {
  }

  lemma NoPrefix(side: Side, bag: Bag, taker: string, scope: Scope)
    ensures GreedyPrefix(side, bag, taker, scope, [])
  {
  }

  lemma {:induction false} PriorityIsMatch(side: Side, bag: Bag, taker: string, q: int, scope: Scope,
                                           fills: seq<Fill>)
    requires WellKeyed(bag) && !scope.Exactly?
    requires FillsInPriority(side, bag, taker, q, scope, fills)
    ensures Match(side, bag, taker, q, scope, fills)
    decreases |fills|
  {
    if fills == [] {
      if id :| id in bag && Within(side, scope, bag[id].price) {
        DepthAtLeast(side, bag, scope, id);
      }
    } else {
      PriorityHead(side, bag, taker, q, scope, fills);
      PriorityTail(side, bag, taker, q, scope, fills);
      ConsumeKeeps(side, bag, taker, q, scope, fills[0]);
      PriorityIsMatch(side, Consume(side, bag, fills[0]), taker, q - fills[0].qty, scope, fills[1..]);
      MatchCons(side, bag, taker, q, scope, fills);
    }
  }

  /** The step-by-step matcher and the closed form describe the same fills. */
  lemma MatchIffInPriority(side: Side, bag: Bag, taker: string, q: int, scope: Scope, fills: seq<Fill>)
    requires WellKeyed(bag) && !scope.Exactly?
    ensures Match(side, bag, taker, q, scope, fills)
       <==> FillsInPriority(side, bag, taker, q, scope, fills)
  {
    if Match(side, bag, taker, q, scope, fills) {
      GreedyIsPrefix(side, bag, taker, q, scope, fills);
      MatchTrades(side, bag, taker, q, scope, fills);
    }
    if FillsInPriority(side, bag, taker, q, scope, fills) {
      PriorityIsMatch(side, bag, taker, q, scope, fills);
    }
  }
}
