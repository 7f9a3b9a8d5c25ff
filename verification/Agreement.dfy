/** The two engines agree: the sorted-slice book simulates every legal run of the reference book,
    which the heap book refines. */
module Agreement {
  import opened Market
  import opened Bags
  import opened Reference
  import Slices

  /** Strict price-time order. */
  ghost predicate Strict(side: Side, s: seq<Rest>) {
    forall i, j :: 0 <= i < j < |s| ==> Before(side, s[i], s[j])
  }

  /** The list and the bag hold the same orders. */
  ghost predicate Holds(s: seq<Rest>, bag: Bag) {
    && (forall r :: r in s ==> r.id in bag && bag[r.id] == r)
    && (forall id :: id in bag ==> bag[id] in s)
  }

  /** `s` is `bag` sorted by price and time, with no ties. */
  ghost predicate Sorts(side: Side, s: seq<Rest>, bag: Bag) {
    Strict(side, s) && Holds(s, bag)
  }

  // ---------- list operations ----------

  lemma TailHolds(side: Side, s: seq<Rest>, bag: Bag)
    requires WellKeyed(bag) && Sorts(side, s, bag) && s != []
    ensures Sorts(side, s[1..], bag - {s[0].id})
  {
    assert s == [s[0]] + s[1..];
    forall r | r in s[1..]
      ensures r.id in bag - {s[0].id}
    {
      var k :| 0 <= k < |s[1..]| && s[1..][k] == r;
      assert s[k + 1] == r && Before(side, s[0], s[k + 1]);
    }
  }

  lemma ReducedHolds(side: Side, s: seq<Rest>, bag: Bag, q: int)
    requires WellKeyed(bag) && Sorts(side, s, bag) && s != []
    ensures Sorts(side, [s[0].(qty := q)] + s[1..], bag[s[0].id := s[0].(qty := q)])
  {
    TailHolds(side, s, bag);
    var r, t := s[0].(qty := q), s[1..];
    assert s == [s[0]] + t;
    assert s[0] in s;
    assert Strict(side, [r] + t) by {
      forall i, j | 0 <= i < j < |s| ensures Before(side, ([r] + t)[i], ([r] + t)[j]) {
        assert Before(side, s[i], s[j]);
      }
    }
    hide Strict, Before;
    assert Holds([r] + t, bag[r.id := r]) by {
      assert Holds(t, bag - {r.id});
    }
  }

  lemma HeadHeld(s: seq<Rest>, bag: Bag)
    requires Holds(s, bag) && s != []
    ensures s[0].id in bag && bag[s[0].id] == s[0]
  {
    assert s[0] in s;
  }

  /** A bag has at most one strict price-time order. */
  lemma {:induction false} SortsUnique(side: Side, s: seq<Rest>, t: seq<Rest>, bag: Bag)
    requires WellKeyed(bag) && Sorts(side, s, bag) && Sorts(side, t, bag)
    ensures s == t
    decreases |s|
  {
    if bag == map[] {
      if s != [] {
        HeadHeld(s, bag);
      }
      if t != [] {
        HeadHeld(t, bag);
      }
    } else {
      HeadIsBest(side, s, bag);
      HeadIsBest(side, t, bag);
      assert s[0] == t[0];
      TailHolds(side, s, bag);
      TailHolds(side, t, bag);
      SortsUnique(side, s[1..], t[1..], bag - {s[0].id});
    }
  }

  lemma HeadIsBest(side: Side, s: seq<Rest>, bag: Bag)
    requires Sorts(side, s, bag) && bag != map[]
    ensures s != [] && s[0].id in bag && bag[s[0].id] == s[0]
    ensures forall id :: id in bag && !Before(side, s[0], bag[id]) ==> bag[id] == s[0]
  {
    assert bag[Pick(bag)] in s;
    assert s[0] in s;
    forall id | id in bag && !Before(side, s[0], bag[id])
      ensures bag[id] == s[0]
    {
      var k :| 0 <= k < |s| && s[k] == bag[id];
    }
  }

  lemma InsertHolds(side: Side, s: seq<Rest>, bag: Bag, r: Rest)
    requires Sorts(side, s, bag) && r.id !in bag && NewKey(bag, r)
    ensures Sorts(side, Slices.Insert(side, s, r), bag[r.id := r])
  {
    StrictIsSorted(side, s);
    InsertedHolds(side, s, bag, r);
    InsertedStrict(side, s, bag, r);
  }

  lemma StrictIsSorted(side: Side, s: seq<Rest>)
    requires Strict(side, s)
    ensures Slices.Sorted(side, s)
  {
  }

  lemma InsertedHolds(side: Side, s: seq<Rest>, bag: Bag, r: Rest)
    requires Slices.Sorted(side, s) && Holds(s, bag) && r.id !in bag
    ensures Holds(Slices.Insert(side, s, r), bag[r.id := r])
  {
    hide Slices.Insert, Slices.Sorted;
    Slices.InsertSorted(side, s, r);
  }

  lemma InsertedStrict(side: Side, s: seq<Rest>, bag: Bag, r: Rest)
    requires Strict(side, s) && Slices.Sorted(side, s) && Holds(s, bag) && NewKey(bag, r)
    ensures Strict(side, Slices.Insert(side, s, r))
  {
    hide Slices.Insert, Slices.Sorted, Strict;
    var k := Slices.InsertPoint(side, s, r);
    forall i | 0 <= i < |s| ensures !Tie(s[i], r) {
      assert s[i] in s;
    }
    InsertStrict(side, s, r, k);
  }

  predicate Tie(x: Rest, y: Rest) { x.price == y.price && x.at == y.at }

  ghost predicate NewKey(bag: Bag, r: Rest) {
    forall id | id in bag :: !Tie(bag[id], r)
  }

  lemma InsertStrict(side: Side, s: seq<Rest>, r: Rest, k: nat)
    requires Strict(side, s) && k <= |s|
    requires forall i :: 0 <= i < |s| ==> !Tie(s[i], r)
    requires forall i :: 0 <= i < k ==> !Before(side, r, s[i])
    requires forall i :: k <= i < |s| ==> Before(side, r, s[i])
    ensures Strict(side, s[..k] + [r] + s[k..])
  {
  }

  lemma DropStrict(side: Side, s: seq<Rest>, k: nat)
    requires Strict(side, s) && k < |s|
    ensures Strict(side, Slices.Drop(s, k)) && s[k] !in Slices.Drop(s, k)
  {
    forall i | 0 <= i < |s| && i != k
      ensures s[i] != s[k]
    {
      assert if i < k then Before(side, s[i], s[k]) else Before(side, s[k], s[i]);
    }
  }

  lemma DropMembers(s: seq<Rest>, k: nat)
    requires k < |s|
    ensures forall r :: r in s <==> r == s[k] || r in Slices.Drop(s, k)
  {
    assert s == s[..k] + [s[k]] + s[k + 1..];
  }

  lemma DropHolds(side: Side, s: seq<Rest>, bag: Bag, id: string)
    requires WellKeyed(bag) && Sorts(side, s, bag)
    ensures id in bag <==> Slices.Find(s, id) < |s|
    ensures id in bag ==> Sorts(side, Slices.Drop(s, Slices.Find(s, id)), bag - {id})
  {
    var k := Slices.Find(s, id);
    if k < |s| {
      DropStrict(side, s, k);
      DropMembers(s, k);
    }
  }

  // ---------- one command ----------

  /** Matching the list front and matching the bag trade the same quantity and leave the
      same orders. */
  lemma {:induction false} TakeSimulates(side: Side, s: seq<Rest>, bag: Bag, taker: string, q: int, scope: Scope,
                                         fills: seq<Fill>)
    requires WellKeyed(bag) && Sorts(side, s, bag) && Match(side, bag, taker, q, scope, fills)
    ensures Slices.Take(side, s, q, scope).1 == Traded(fills)
    ensures Sorts(side, Slices.Take(side, s, q, scope).0, Drain(side, bag, taker, q, scope, fills))
    decreases |fills|
  {
    hide Sorts, IsBest, WellKeyed;
    if fills == [] {
      StuckHead(side, s, bag, taker, q, scope);
    } else {
      var f := fills[0];
      FillsHead(side, s, bag, taker, q, scope, f);
      ConsumeKeeps(side, bag, taker, q, scope, f);
      MatchTail(side, bag, taker, q, scope, fills);
      if s[0].qty <= q {
        TailHolds(side, s, bag);
        TakeSimulates(side, s[1..], bag - {s[0].id}, taker, q - f.qty, scope, fills[1..]);
      } else {
        ReducedHolds(side, s, bag, s[0].qty - q);
        assert fills[1..] == [];
      }
    }
  }

  lemma StuckHead(side: Side, s: seq<Rest>, bag: Bag, taker: string, q: int, scope: Scope)
    requires Sorts(side, s, bag) && Match(side, bag, taker, q, scope, [])
    ensures q <= 0 || s == [] || !Within(side, scope, s[0].price)
  {
    assert s != [] ==> s[0] in s;
  }

  /** A legal fill is with the head of the list. */
  lemma FillsHead(side: Side, s: seq<Rest>, bag: Bag, taker: string, q: int, scope: Scope, f: Fill)
    requires WellKeyed(bag) && Sorts(side, s, bag) && GoodFill(side, bag, taker, q, scope, f)
    ensures s != [] && MakerId(side, f) == s[0].id && bag[s[0].id] == s[0]
    ensures q > 0 && Within(side, scope, s[0].price) && f.qty == Min(q, s[0].qty)
  {
    HeadIsBest(side, s, bag);
  }

  lemma MatchTail(side: Side, bag: Bag, taker: string, q: int, scope: Scope, fills: seq<Fill>)
    requires Match(side, bag, taker, q, scope, fills) && fills != []
    ensures Match(side, Consume(side, bag, fills[0]), taker, q - fills[0].qty, scope, fills[1..])
  {
    assert Traded(fills) == fills[0].qty + Traded(fills[1..]);
  }

  /** The slice book shows the reference book, each side sorted by price and time. */
  ghost predicate Shows(b: Book, sb: Slices.State) {
    Sorts(Buy, sb.bids, b.bids) && Sorts(Sell, sb.asks, b.asks)
  }

  /** The hypotheses of agreement, per command: the id is not in use, and a limit order ties
      with no order resting on its own side. */
  ghost predicate Untied(b: Book, op: Op) {
    && (op.Cancel? || IdOf(op) !in b.ids)
    && (op.Limit? ==> NewKey(b.Of(op.side), op.order))
  }

  lemma MatchShows(b: Book, sb: Slices.State, op: Op, out: Outcome)
    requires Sound(b) && Shows(b, sb) && Legal(b, op, out) && out.Filled?
    ensures Slices.Match(sb, op.side, QtyOf(op), ScopeOf(op)).1 == Traded(out.fills)
    ensures Shows(Matched(b, op, out), Slices.Match(sb, op.side, QtyOf(op), ScopeOf(op)).0)
  {
    hide Sorts, Match;
    var maker := op.side.Opposite();
    TakeSimulates(maker, sb.Of(maker), b.Of(maker), IdOf(op), QtyOf(op), ScopeOf(op), out.fills);
  }

  lemma RestShows(b: Book, sb: Slices.State, side: Side, r: Rest)
    requires Shows(b, sb) && r.id !in b.Of(side) && NewKey(b.Of(side), r)
    ensures r.qty > 0 ==> Shows(Rested(b, side, r), sb.With(side, Slices.Insert(side, sb.Of(side), r)))
    ensures r.qty <= 0 ==> Shows(Rested(b, side, r), sb)
  {
    hide Sorts;
    InsertHolds(side, sb.Of(side), b.Of(side), r);
  }

  lemma CancelShows(b: Book, sb: Slices.State, id: string)
    requires Sound(b) && Shows(b, sb)
    ensures Shows(Book(b.bids - {id}, b.asks - {id}, b.ids - {id}), Slices.Step(sb, Op.Cancel(id)).0)
  {
    hide Sorts;
    DropHolds(Buy, sb.bids, b.bids, id);
    DropHolds(Sell, sb.asks, b.asks, id);
    assert id !in b.bids ==> b.bids - {id} == b.bids;
    assert id !in b.asks ==> b.asks - {id} == b.asks;
  }

  /** One command: the slice book fills what the reference book fills, and still shows it. */
  lemma StepAgrees(b: Book, sb: Slices.State, op: Op, out: Outcome)
    requires Sound(b) && Shows(b, sb) && Untied(b, op) && Legal(b, op, out)
    ensures Slices.Step(sb, op).1 == Traded(FillsOf(out))
    ensures Shows(Next(b, op, out), Slices.Step(sb, op).0)
  {
    hide Sorts, Match;
    if op.Cancel? {
      CancelShows(b, sb, op.id);
      assert op.id !in b.ids ==> b == Book(b.bids - {op.id}, b.asks - {op.id}, b.ids - {op.id});
    } else {
      MatchShows(b, sb, op, out);
      if op.Limit? {
        RestShows(Matched(b, op, out), Slices.Match(sb, op.side, QtyOf(op), ScopeOf(op)).0, op.side,
                  op.order.(qty := op.order.qty - Traded(out.fills)));
      }
    }
  }
}
