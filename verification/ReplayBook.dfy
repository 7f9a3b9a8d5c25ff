/** The validator's engine: two sorted lists changed in place by matching loops, binary-search
    insertion and linear-scan deletion, proved against `Slices.Step`. */
module ReplayBook {
  import opened Market
  import opened Priority
  import opened Slices

  /** The matching loop of matchBuy, matchSell and both branches of PlaceMarket. */
  method Sweep(side: Side, s0: seq<Rest>, q0: int, scope: Scope)
    returns (s: seq<Rest>, q: int, filled: int)
    requires Positive(s0)
    ensures Take(side, s0, q0, scope) == (s, filled)
    ensures q == q0 - filled
  {
    s, q, filled := s0, q0, 0;
    while |s| > 0 && q > 0
      invariant Positive(s)
      invariant q == q0 - filled
      invariant Take(side, s0, q0, scope)
             == (Take(side, s, q, scope).0, filled + Take(side, s, q, scope).1)
      decreases |s|, q
    {
      if !Within(side, scope, s[0].price) {
        break;
      }
      var take := Min(q, s[0].qty);
      filled := filled + take;
      q := q - take;
      if s[0].qty == take {
        s := s[1..];
      } else {
        s := [s[0].(qty := s[0].qty - take)] + s[1..];
      }
    }
  }

  /** sort.Search over the insertion predicate: a binary search for the first resting order
      that `o` precedes. */
  method InsertionPoint(side: Side, s: seq<Rest>, o: Rest) returns (lo: nat)
    requires Sorted(side, s)
    ensures lo <= |s|
    ensures forall i :: 0 <= i < lo ==> !Before(side, o, s[i])
    ensures forall i :: lo <= i < |s| ==> Before(side, o, s[i])
  {
    lo := 0;
    var hi := |s|;
    while lo < hi
      invariant 0 <= lo <= hi <= |s|
      invariant forall i :: 0 <= i < lo ==> !Before(side, o, s[i])
      invariant forall i :: hi <= i < |s| ==> Before(side, o, s[i])
    {
      var mid := (lo + hi) / 2;
      assert forall i :: 0 <= i < mid ==> !Before(side, s[mid], s[i]);
      assert forall i :: mid < i < |s| ==> !Before(side, s[i], s[mid]);
      if !Before(side, o, s[mid]) {
        lo := mid + 1;
      } else {
        hi := mid;
      }
    }
  }

  /** The scan of Cancel over one side. */
  method Locate(s: seq<Rest>, id: string) returns (k: nat)
    ensures k == Find(s, id)
  {
    k := 0;
    while k < |s|
      invariant k <= |s|
      invariant forall i :: 0 <= i < k ==> s[i].id != id
    {
      if s[k].id == id {
        break;
      }
      k := k + 1;
    }
  }

  lemma SoundIsInTurn(b: State)
    requires Sound(b)
    ensures InTurn(b.bids, b.asks)
  {
    SortedIsInTurn(b.bids, b.asks);
  }

  /** A limit order: match the other side, then insert what is left. */
  lemma LimitSteps(b: State, side: Side, o: Rest)
    ensures var maker := side.Opposite();
      var (s, filled) := Take(maker, b.Of(maker), o.qty, AsGoodAs(o.price));
      var left := o.qty - filled;
      Step(b, Limit(side, o))
      == (if left > 0 then b.With(maker, s).With(side, Insert(side, b.Of(side), o.(qty := left)))
          else b.With(maker, s), filled)
  {
  }

  class Book {
    var bids: seq<Rest>
    var asks: seq<Rest>
    /** The run this book replays. */
    ghost const run: string

    ghost function View(): State
      reads this
    {
      State(bids, asks)
    }

    ghost predicate Valid()
      reads this
    {
      Sound(View())
    }

    constructor (ghost run: string)
      ensures Valid() && View() == EMPTY && this.run == run
    {
      bids, asks := [], [];
      this.run := run;
    }

    method Place(side: Side, o: Rest) returns (filled: int)
      requires Valid()
      modifies this
      ensures Valid() && InTurn(bids, asks)
      ensures (View(), filled) == Step(old(View()), Limit(side, o))
    {
      StepSound(View(), Limit(side, o));
      SoundIsInTurn(Step(View(), Limit(side, o)).0);
      LimitSteps(View(), side, o);
      hide Step, Take, Insert, Uncrossed, InTurn;
      var left;
      match side
      case Buy =>
        asks, left, filled := Sweep(Sell, asks, o.qty, AsGoodAs(o.price));
        if left > 0 {
          InsertBid(o.(qty := left));
        }
      case Sell =>
        bids, left, filled := Sweep(Buy, bids, o.qty, AsGoodAs(o.price));
        if left > 0 {
          InsertAsk(o.(qty := left));
        }
    }

    method InsertBid(o: Rest)
      requires Sorted(Buy, bids)
      modifies this`bids
      ensures bids == Insert(Buy, old(bids), o)
    {
      var k := InsertionPoint(Buy, bids, o);
      InsertAt(Buy, bids, o, k);
      bids := bids[..k] + [o] + bids[k..];
    }

    method InsertAsk(o: Rest)
      requires Sorted(Sell, asks)
      modifies this`asks
      ensures asks == Insert(Sell, old(asks), o)
    {
      var k := InsertionPoint(Sell, asks, o);
      InsertAt(Sell, asks, o, k);
      asks := asks[..k] + [o] + asks[k..];
    }

    method PlaceMarket(side: Side, ghost id: string, qty: int) returns (filled: int)
      requires Valid()
      modifies this
      ensures Valid() && InTurn(bids, asks)
      ensures (View(), filled) == Step(old(View()), Op.Market(side, id, qty))
    {
      StepSound(View(), Op.Market(side, id, qty));
      SoundIsInTurn(Step(View(), Op.Market(side, id, qty)).0);
      var left;
      match side
      case Buy => asks, left, filled := Sweep(Sell, asks, qty, Everything);
      case Sell => bids, left, filled := Sweep(Buy, bids, qty, Everything);
    }

    method Cancel(id: string) returns (found: bool)
      requires Valid()
      modifies this
      ensures Valid() && InTurn(bids, asks)
      ensures View() == Step(old(View()), Op.Cancel(id)).0
      ensures found <==> exists r :: (r in old(bids) || r in old(asks)) && r.id == id
    {
      StepSound(View(), Op.Cancel(id));
      SoundIsInTurn(Step(View(), Op.Cancel(id)).0);
      hide InTurn, Sorted, Slices.Uncrossed, Positive;
      var i := Locate(bids, id);
      if i < |bids| {
        bids := bids[..i] + bids[i + 1..];
        return true;
      }
      i := Locate(asks, id);
      if i < |asks| {
        asks := asks[..i] + asks[i + 1..];
        return true;
      }
      return false;
    }

    method BestBid() returns (price: real, ok: bool)
      requires Valid()
      ensures ok <==> bids != []
      ensures ok ==> exists i :: 0 <= i < |bids| && bids[i].price == price
      ensures ok ==> forall i :: 0 <= i < |bids| ==> bids[i].price <= price
    {
      if |bids| == 0 {
        return 0.0, false;
      }
      assert forall i :: 0 < i < |bids| ==> !Before(Buy, bids[i], bids[0]);
      return bids[0].price, true;
    }

    method BestAsk() returns (price: real, ok: bool)
      requires Valid()
      ensures ok <==> asks != []
      ensures ok ==> exists i :: 0 <= i < |asks| && asks[i].price == price
      ensures ok ==> forall i :: 0 <= i < |asks| ==> price <= asks[i].price
    {
      if |asks| == 0 {
        return 0.0, false;
      }
      assert forall i :: 0 < i < |asks| ==> !Before(Sell, asks[i], asks[0]);
      return asks[0].price, true;
    }
  }
}
