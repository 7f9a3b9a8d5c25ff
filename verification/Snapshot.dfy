/** The aggregated view of the heap book: one level per price, best price first. */
module Snapshot {
  import opened Market
  import opened Bags
  import opened HeapBook

  datatype Level = Level(price: real, qty: int)

  /** `side` Buy sorts descending, Sell ascending. */
  predicate Better(side: Side, x: Level, y: Level) {
    Rank(side, x.price) < Rank(side, y.price)
  }

  ghost predicate SortedTo(side: Side, ls: seq<Level>, n: int)
    requires 0 <= n <= |ls|
  {
    forall i, j :: 0 <= i < n && i < j < |ls| ==> !Better(side, ls[j], ls[i])
  }

  /** No level between `i` and `j` is better than level `i`. */
  ghost predicate BestOf(side: Side, ls: seq<Level>, i: int, j: int)
    requires 0 <= i < |ls| && j <= |ls|
  {
    forall k :: i < k < j ==> !Better(side, ls[k], ls[i])
  }

  function Exchanged(ls: seq<Level>, i: int, j: int): seq<Level>
    requires 0 <= i < j < |ls|
  {
    ls[i := ls[j]][j := ls[i]]
  }

  lemma ExchangeKeeps(side: Side, ls: seq<Level>, i: int, j: int)
    requires 0 <= i < j < |ls| && SortedTo(side, ls, i) && Better(side, ls[j], ls[i])
    requires BestOf(side, ls, i, j)
    ensures SortedTo(side, Exchanged(ls, i, j), i) && BestOf(side, Exchanged(ls, i, j), i, j + 1)
  {
  }

  method Exchange(ls: array<Level>, i: int, j: int)
    requires 0 <= i < j < ls.Length
    modifies ls
    ensures ls[..] == Exchanged(old(ls[..]), i, j)
    ensures multiset(ls[..]) == old(multiset(ls[..]))
  {
    ls[i], ls[j] := ls[j], ls[i];
  }

  /** sortLevels: an exchange sort in place. */
  method SortLevels(ls: array<Level>, side: Side)
    modifies ls
    ensures SortedTo(side, ls[..], ls.Length)
    ensures multiset(ls[..]) == old(multiset(ls[..]))
  {
    for i := 0 to ls.Length
      invariant SortedTo(side, ls[..], i)
      invariant multiset(ls[..]) == old(multiset(ls[..]))
    {
      for j := i + 1 to ls.Length
        invariant SortedTo(side, ls[..], i) && BestOf(side, ls[..], i, j)
        invariant multiset(ls[..]) == old(multiset(ls[..]))
      {
        if Better(side, ls[j], ls[i]) {
          ExchangeKeeps(side, ls[..], i, j);
          Exchange(ls, i, j);
        }
      }
    }
  }

  /** `m` gives the depth of every price level of `bag`, and of no other price. */
  ghost predicate ChartsLevels(side: Side, bag: Bag, m: map<real, int>) {
    && (forall p :: p in m <==> exists id :: id in bag && bag[id].price == p)
    && (forall p :: p in m ==> m[p] == Depth(side, bag, Exactly(p)))
  }

  lemma ChartEmpty(side: Side)
    ensures ChartsLevels(side, map[], map[])
  {
  }

  lemma ChartOneMore(side: Side, bag: Bag, m: map<real, int>, r: Rest)
    requires ChartsLevels(side, bag, m) && r.id !in bag
    ensures ChartsLevels(side, bag[r.id := r], m[r.price := (if r.price in m then m[r.price] else 0) + r.qty])
  {
    var bag' := bag[r.id := r];
    var m' := m[r.price := (if r.price in m then m[r.price] else 0) + r.qty];
    forall p
      ensures p in m' <==> exists id :: id in bag' && bag'[id].price == p
    {
      if p in m' && p != r.price {
        var id :| id in bag && bag[id].price == p;
        assert id in bag' && bag'[id].price == p;
      }
      if id :| id in bag' && bag'[id].price == p && id != r.id {
        assert id in bag && bag[id].price == p;
      }
      assert r.id in bag' && bag'[r.id].price == r.price;
    }
    forall p | p in m'
      ensures m'[p] == Depth(side, bag', Exactly(p))
    {
      DepthWith(side, bag, Exactly(p), r);
      if p !in m {
        DepthOfNothing(side, bag, Exactly(p));
      }
    }
  }

  /** The part of the bag held by the first `k` entries of the heap. */
  ghost function BagTo(h: HalfBook, k: int): Bag
    requires h.Valid()
    reads h, h.Repr
  {
    map id | id in h.bag && h.index[id].idx < k :: h.bag[id]
  }

  lemma BagStep(h: HalfBook, k: int)
    requires h.Valid() && 0 <= k < |h.a|
    ensures h.a[k].o in h.Repr && h.a[k].o.remaining > 0 && h.a[k].o.id !in BagTo(h, k)
    ensures BagTo(h, k + 1) == BagTo(h, k)[h.a[k].o.id := RestOf(h.a[k].o)]
  {
    assert h.a[k] in Elems(h.a);
    assert Filed(h.index, h.a[k]) && Booked(h.side, h.bag, h.a[k].o);
  }

  lemma BagEnds(h: HalfBook)
    requires h.Valid()
    ensures BagTo(h, 0) == map[] && BagTo(h, |h.a|) == h.bag
  {
  }

  /** The aggregation loop over one heap. */
  method Aggregate(h: HalfBook) returns (m: map<real, int>)
    requires h.Valid()
    ensures ChartsLevels(h.side, h.bag, m)
  {
    hide HalfBook.Valid, BagTo, ChartsLevels;
    BagEnds(h);
    ChartEmpty(h.side);
    m := map[];
    for k := 0 to |h.a|
      invariant ChartsLevels(h.side, BagTo(h, k), m)
    {
      BagStep(h, k);
      var o := h.a[k].o;
      if o.remaining > 0 {
        ChartOneMore(h.side, BagTo(h, k), m, RestOf(o));
        m := m[o.price := (if o.price in m then m[o.price] else 0) + o.remaining];
      }
    }
  }

  ghost predicate DistinctPrices(ls: seq<Level>) {
    forall i, j :: 0 <= i < j < |ls| ==> ls[i].price != ls[j].price
  }

  /** List the levels of a map, in whatever order the map is ranged over. */
  method ListLevels(m: map<real, int>) returns (ls: seq<Level>)
    ensures DistinctPrices(ls)
    ensures forall p, q :: Level(p, q) in ls <==> p in m && m[p] == q
  {
    ls := [];
    var todo := m.Items;
    while todo != {}
      invariant DistinctPrices(ls) && todo <= m.Items
      invariant forall p, q :: Level(p, q) in ls <==> (p, q) in m.Items && (p, q) !in todo
      decreases |todo|
    {
      var item :| item in todo;
      forall i | 0 <= i < |ls|
        ensures ls[i].price != item.0
      {
        assert Level(ls[i].price, ls[i].qty) in ls;
      }
      ls := ls + [Level(item.0, item.1)];
      todo := todo - {item};
    }
  }

  lemma {:induction false} OnlyOnce(ls: seq<Level>, x: Level)
    requires DistinctPrices(ls)
    ensures multiset(ls)[x] <= 1
    decreases |ls|
  {
    if ls != [] {
      OnlyOnce(ls[1..], x);
      assert ls == [ls[0]] + ls[1..];
      if x == ls[0] {
        assert x !in ls[1..];
      }
    }
  }

  lemma Twice(ls: seq<Level>, i: int, j: int)
    requires 0 <= i < j < |ls| && ls[i] == ls[j]
    ensures multiset(ls)[ls[i]] >= 2
  {
    assert ls == ls[..j] + [ls[j]] + ls[j + 1..];
    assert ls[i] in ls[..j];
  }

  lemma ReorderedDistinct(ls: seq<Level>, ls': seq<Level>)
    requires DistinctPrices(ls) && multiset(ls) == multiset(ls')
    ensures DistinctPrices(ls')
  {
    forall i, j | 0 <= i < j < |ls'|
      ensures ls'[i].price != ls'[j].price
    {
      assert ls'[i] in multiset(ls') && ls'[j] in multiset(ls');
      assert ls'[i] in ls && ls'[j] in ls;
      OnlyOnce(ls, ls'[i]);
      if ls'[i] == ls'[j] {
        Twice(ls', i, j);
      }
    }
  }

  /** A depth chart: one level per price with resting quantity, strictly best price first, each
      showing exactly the quantity resting there. */
  ghost predicate IsChart(side: Side, bag: Bag, ls: seq<Level>) {
    && (forall i, j :: 0 <= i < j < |ls| ==> Better(side, ls[i], ls[j]))
    && (forall i :: 0 <= i < |ls| ==> ls[i].qty == Depth(side, bag, Exactly(ls[i].price)) && ls[i].qty > 0)
    && (forall id :: id in bag ==> exists i :: 0 <= i < |ls| && ls[i].price == bag[id].price)
  }

  lemma ChartFromLevels(side: Side, bag: Bag, m: map<real, int>, ls: seq<Level>)
    requires WellKeyed(bag) && ChartsLevels(side, bag, m)
    requires DistinctPrices(ls) && SortedTo(side, ls, |ls|)
    requires forall p, q :: Level(p, q) in ls <==> p in m && m[p] == q
    ensures IsChart(side, bag, ls)
  {
    forall i | 0 <= i < |ls|
      ensures ls[i].qty == Depth(side, bag, Exactly(ls[i].price)) && ls[i].qty > 0
    {
      assert Level(ls[i].price, ls[i].qty) in ls;
      var id :| id in bag && bag[id].price == ls[i].price;
      DepthAtLeast(side, bag, Exactly(ls[i].price), id);
    }
    forall id | id in bag
      ensures exists i :: 0 <= i < |ls| && ls[i].price == bag[id].price
    {
      assert Level(bag[id].price, m[bag[id].price]) in ls;
    }
  }

  method Chart(h: HalfBook) returns (ls: seq<Level>)
    requires h.Valid() && WellKeyed(h.bag)
    ensures IsChart(h.side, h.bag, ls)
  {
    var m := Aggregate(h);
    var listed := ListLevels(m);
    var sorted := new Level[|listed|](i requires 0 <= i < |listed| => listed[i]);
    assert sorted[..] == listed;
    SortLevels(sorted, h.side);
    ls := sorted[..];
    ReorderedDistinct(listed, ls);
    assert forall x :: x in ls <==> x in multiset(ls);
    ChartFromLevels(h.side, h.bag, m, ls);
  }

  /** Snapshot as a sequential call. */
  method TakeSnapshot(book: OrderBook) returns (bids: seq<Level>, asks: seq<Level>)
    requires book.Valid()
    ensures IsChart(Buy, book.View().bids, bids)
    ensures IsChart(Sell, book.View().asks, asks)
    ensures forall i, j :: 0 <= i < j < |bids| ==> bids[i].price > bids[j].price
    ensures forall i, j :: 0 <= i < j < |asks| ==> asks[i].price < asks[j].price
  {
    bids := Chart(book.bids);
    asks := Chart(book.asks);
  }
}
