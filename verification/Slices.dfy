/** The sorted-slice book as values: what each operation of the validator's engine does to its
    two sorted lists. */
module Slices {
  import opened Market
  import Bags

  datatype State = State(bids: seq<Rest>, asks: seq<Rest>) {
    function Of(side: Side): seq<Rest> { if side == Buy then bids else asks }

    function With(side: Side, s: seq<Rest>): State {
      if side == Buy then this.(bids := s) else this.(asks := s)
    }
  }

  const EMPTY := State([], [])

  ghost predicate Sorted(side: Side, s: seq<Rest>) {
    forall i, j :: 0 <= i < j < |s| ==> !Before(side, s[j], s[i])
  }

  ghost predicate Positive(s: seq<Rest>) {
    forall i :: 0 <= i < |s| ==> s[i].qty > 0
  }

  /** Match `q` against the front of `s` for as long as its head is in scope. */
  function Take(side: Side, s: seq<Rest>, q: int, scope: Scope): (r: (seq<Rest>, int))
    decreases |s|
  {
    if q <= 0 || s == [] || !Within(side, scope, s[0].price) then (s, 0)
    else if s[0].qty <= q then
      var (rest, filled) := Take(side, s[1..], q - s[0].qty, scope);
      (rest, s[0].qty + filled)
    else ([s[0].(qty := s[0].qty - q)] + s[1..], q)
  }

  /** Insert `o` behind every order it does not precede, so ties keep arrival order. */
  function Insert(side: Side, s: seq<Rest>, o: Rest): (r: seq<Rest>)
    decreases |s|
  {
    if s == [] || Before(side, o, s[0]) then [o] + s
    else [s[0]] + Insert(side, s[1..], o)
  }

  /** The position of the first order with this id, or the length. */
  function Find(s: seq<Rest>, id: string): (k: nat)
    ensures k <= |s|
    ensures forall i :: 0 <= i < k ==> s[i].id != id
    ensures k < |s| ==> s[k].id == id
    decreases |s|
  {
    if s == [] || s[0].id == id then 0 else 1 + Find(s[1..], id)
  }

  function Drop(s: seq<Rest>, k: nat): seq<Rest>
    requires k < |s|
  {
    s[..k] + s[k + 1..]
  }

  function Match(b: State, side: Side, q: int, scope: Scope): (r: (State, int)) {
    var maker := side.Opposite();
    var (s, filled) := Take(maker, b.Of(maker), q, scope);
    (b.With(maker, s), filled)
  }

  function Step(b: State, op: Op): (r: (State, int)) {
    match op
    case Limit(side, o) =>
      var (matched, filled) := Match(b, side, o.qty, AsGoodAs(o.price));
      if o.qty - filled > 0
      then (matched.With(side, Insert(side, matched.Of(side), o.(qty := o.qty - filled))), filled)
      else (matched, filled)
    case Market(side, _, q) => Match(b, side, q, Everything)
    case Cancel(id) =>
      if Find(b.bids, id) < |b.bids| then (b.(bids := Drop(b.bids, Find(b.bids, id))), 0)
      else if Find(b.asks, id) < |b.asks| then (b.(asks := Drop(b.asks, Find(b.asks, id))), 0)
      else (b, 0)
  }

  ghost predicate Uncrossed(b: State) {
    forall i, j :: 0 <= i < |b.bids| && 0 <= j < |b.asks| ==> b.bids[i].price < b.asks[j].price
  }

  ghost predicate Sound(b: State) {
    && Sorted(Buy, b.bids) && Sorted(Sell, b.asks)
    && Positive(b.bids) && Positive(b.asks)
    && Uncrossed(b)
  }

  // ---------- what the list operations guarantee ----------

  ghost function Depth(side: Side, s: seq<Rest>, scope: Scope): int {
    if s == [] then 0 else Bags.Share(side, scope, s[0]) + Depth(side, s[1..], scope)
  }

  lemma {:induction false} DepthNonNegative(side: Side, s: seq<Rest>, scope: Scope)
    requires Positive(s)
    ensures Depth(side, s, scope) >= 0
    decreases |s|
  {
    if s != [] {
      DepthNonNegative(side, s[1..], scope);
    }
  }

  /** On a sorted side nothing behind an out-of-scope head is in scope. */
  lemma {:induction false} DepthBehindHead(side: Side, s: seq<Rest>, scope: Scope)
    requires Sorted(side, s) && !scope.Exactly?
    requires s != [] ==> !Within(side, scope, s[0].price)
    ensures Depth(side, s, scope) == 0
    decreases |s|
  {
    if |s| > 1 {
      assert !Before(side, s[1], s[0]);
      assert Sorted(side, s[1..]);
      DepthBehindHead(side, s[1..], scope);
    }
  }

  /** `rest` is a suffix of `s` whose first order may be partly filled. */
  ghost predicate Remains(s: seq<Rest>, rest: seq<Rest>) {
    && |rest| <= |s|
    && (rest != [] ==>
          && rest[0] == s[|s| - |rest|].(qty := rest[0].qty) && rest[0].qty <= s[|s| - |rest|].qty
          && rest[1..] == s[|s| - |rest| + 1..])
  }

  lemma RemainsOfMore(s: seq<Rest>, rest: seq<Rest>)
    requires s != [] && Remains(s[1..], rest)
    ensures Remains(s, rest)
  {
    var n := |s| - |rest|;
    assert rest != [] ==> s[1..][n - 1] == s[n] && s[1..][n..] == s[n + 1..];
  }

  lemma RemainsPartly(s: seq<Rest>, q: int)
    requires s != [] && 0 <= q
    ensures Remains(s, s) && Remains(s, [s[0].(qty := s[0].qty - q)] + s[1..])
  {
    assert ([s[0].(qty := s[0].qty - q)] + s[1..])[1..] == s[1..];
  }

  /** Taking leaves a suffix whose first order may be partly filled; what it takes is the
      smaller of the quantity asked and the quantity in scope; and what is left is stuck. */
  lemma {:induction false} TakeSuffix(side: Side, s: seq<Rest>, q: int, scope: Scope)
    requires Positive(s)
    ensures var (rest, filled) := Take(side, s, q, scope);
      && 0 <= filled <= Max(0, q) && Remains(s, rest) && Positive(rest)
      && (q - filled <= 0 || rest == [] || !Within(side, scope, rest[0].price))
    decreases |s|
  {
    hide Within, Remains;
    if s == [] {
      NothingRemains();
    } else if q <= 0 || !Within(side, scope, s[0].price) {
      RemainsPartly(s, 0);
    } else if s[0].qty <= q {
      TakeSuffix(side, s[1..], q - s[0].qty, scope);
      RemainsOfMore(s, Take(side, s[1..], q - s[0].qty, scope).0);
    } else {
      RemainsPartly(s, q);
    }
  }

  lemma NothingRemains()
    ensures Remains([], [])
  {
  }

  lemma TakeSorted(side: Side, s: seq<Rest>, q: int, scope: Scope)
    requires Positive(s) && Sorted(side, s)
    ensures Sorted(side, Take(side, s, q, scope).0)
    ensures forall i :: 0 <= i < |Take(side, s, q, scope).0| ==>
              exists j :: 0 <= j < |s| && s[j] == Take(side, s, q, scope).0[i].(qty := s[j].qty)
  {
    TakeSuffix(side, s, q, scope);
    var rest := Take(side, s, q, scope).0;
    forall i | 0 <= i < |rest|
      ensures s[|s| - |rest| + i] == rest[i].(qty := s[|s| - |rest| + i].qty)
    {
      if i > 0 {
        assert rest[i] == rest[1..][i - 1];
      }
    }
  }

  lemma DepthCons(side: Side, r: Rest, s: seq<Rest>, t: Scope)
    ensures Depth(side, [r] + s, t) == (if Within(side, t, r.price) then r.qty else 0) + Depth(side, s, t)
  {
    assert ([r] + s)[1..] == s;
  }

  /** A sorted side: what is behind a head out of scope is out of scope too. */
  lemma DepthOfSorted(side: Side, s: seq<Rest>, t: Scope)
    requires Positive(s) && Sorted(side, s) && s != [] && !t.Exactly?
    ensures Depth(side, s[1..], t) >= 0 && s[0].qty > 0
    ensures if Within(side, t, s[0].price) then Depth(side, s, t) == s[0].qty + Depth(side, s[1..], t)
            else Depth(side, s, t) == Depth(side, s[1..], t) == 0
    ensures Positive(s[1..]) && Sorted(side, s[1..])
  {
    DepthNonNegative(side, s[1..], t);
    if !Within(side, t, s[0].price) {
      DepthBehindHead(side, s, t);
    }
  }

  /** What a take fills on a sorted side. */
  lemma {:induction false} TakeFills(side: Side, s: seq<Rest>, q: int, scope: Scope)
    requires Positive(s) && Sorted(side, s) && !scope.Exactly?
    ensures Take(side, s, q, scope).1 == Min(Max(0, q), Depth(side, s, scope))
    decreases |s|
  {
    DepthNonNegative(side, s, scope);
    if s != [] {
      hide Depth, Sorted, Positive, Within;
      DepthOfSorted(side, s, scope);
      if q > 0 && Within(side, scope, s[0].price) && s[0].qty <= q {
        TakeFills(side, s[1..], q - s[0].qty, scope);
      }
    }
  }

  /** What it leaves, within every limit. */
  lemma {:induction false} TakeLeaves(side: Side, s: seq<Rest>, q: int, scope: Scope, t: Scope)
    requires Positive(s) && Sorted(side, s) && !scope.Exactly? && !t.Exactly?
    ensures Depth(side, Take(side, s, q, scope).0, t) == Max(0, Depth(side, s, t) - Take(side, s, q, scope).1)
    ensures 0 <= Take(side, s, q, scope).1
    decreases |s|
  {
    DepthNonNegative(side, s, t);
    if s != [] {
      hide Depth, Sorted, Positive, Within;
      DepthOfSorted(side, s, t);
      if q > 0 && Within(side, scope, s[0].price) {
        if s[0].qty <= q {
          TakeLeaves(side, s[1..], q - s[0].qty, scope, t);
        } else {
          DepthCons(side, s[0].(qty := s[0].qty - q), s[1..], t);
        }
      }
    }
  }

  /** The depth profile of a sorted side after a take. */
  lemma TakeDepth(side: Side, s: seq<Rest>, q: int, scope: Scope, t: Scope)
    requires Positive(s) && Sorted(side, s) && !scope.Exactly? && !t.Exactly?
    ensures Depth(side, Take(side, s, q, scope).0, t) == Max(0, Depth(side, s, t) - Take(side, s, q, scope).1)
    ensures Take(side, s, q, scope).1 == Min(Max(0, q), Depth(side, s, scope))
  {
    TakeFills(side, s, q, scope);
    TakeLeaves(side, s, q, scope, t);
  }

  /** Insertion puts the order at the one position that keeps earlier ties ahead of it. */
  lemma {:induction false} InsertAt(side: Side, s: seq<Rest>, o: Rest, k: nat)
    requires k <= |s|
    requires forall i :: 0 <= i < k ==> !Before(side, o, s[i])
    requires k < |s| ==> Before(side, o, s[k])
    ensures Insert(side, s, o) == s[..k] + [o] + s[k..]
    decreases |s|
  {
    hide Insert, Before;
    InsertUnfolds(side, s, o);
    if k == 0 {
      CutAtHead(s, o);
    } else {
      assert !Before(side, o, s[0]);
      ShiftedBefore(side, s, o, k);
      InsertAt(side, s[1..], o, k - 1);
      CutAfterHead(s, o, k);
    }
  }

  lemma InsertUnfolds(side: Side, s: seq<Rest>, o: Rest)
    ensures Insert(side, s, o)
         == if s == [] || Before(side, o, s[0]) then [o] + s else [s[0]] + Insert(side, s[1..], o)
  {
  }

  lemma ShiftedBefore(side: Side, s: seq<Rest>, o: Rest, k: nat)
    requires 0 < k <= |s|
    requires forall i :: 0 <= i < k ==> !Before(side, o, s[i])
    ensures forall i :: 0 <= i < k - 1 ==> !Before(side, o, s[1..][i])
    ensures k < |s| ==> s[1..][k - 1] == s[k]
  {
    hide Before;
  }

  lemma CutAtHead(s: seq<Rest>, o: Rest)
    ensures s[..0] + [o] + s[0..] == [o] + s
  {
  }

  lemma CutAfterHead(s: seq<Rest>, o: Rest, k: nat)
    requires 0 < k <= |s|
    ensures [s[0]] + (s[1..][..k - 1] + [o] + s[1..][k - 1..]) == s[..k] + [o] + s[k..]
  {
  }

  /** A position for `InsertAt` in a sorted side: everything from there on comes after `o`. */
  lemma {:induction false} InsertPoint(side: Side, s: seq<Rest>, o: Rest) returns (k: nat)
    requires Sorted(side, s)
    ensures k <= |s|
    ensures forall i :: 0 <= i < k ==> !Before(side, o, s[i])
    ensures forall i :: k <= i < |s| ==> Before(side, o, s[i])
    ensures Insert(side, s, o) == s[..k] + [o] + s[k..]
    decreases |s|
  {
    if s == [] || Before(side, o, s[0]) {
      k := 0;
    } else {
      assert Sorted(side, s[1..]);
      k := InsertPoint(side, s[1..], o);
      k := k + 1;
      forall i | k <= i < |s|
        ensures Before(side, o, s[i])
      {
        assert s[i] == s[1..][i - 1];
      }
      InsertAt(side, s, o, k);
    }
  }

  lemma InsertSorted(side: Side, s: seq<Rest>, o: Rest)
    requires Sorted(side, s)
    ensures Sorted(side, Insert(side, s, o))
    ensures forall r :: r in Insert(side, s, o) <==> r == o || r in s
    ensures |Insert(side, s, o)| == |s| + 1
  {
    var k := InsertPoint(side, s, o);
  }

  lemma {:induction false} InsertDepth(side: Side, s: seq<Rest>, o: Rest, scope: Scope)
    ensures Depth(side, Insert(side, s, o), scope) == Depth(side, s, scope) + Bags.Share(side, scope, o)
    decreases |s|
  {
    if s == [] || Before(side, o, s[0]) {
      assert ([o] + s)[1..] == s;
    } else {
      assert ([s[0]] + Insert(side, s[1..], o))[1..] == Insert(side, s[1..], o);
      InsertDepth(side, s[1..], o, scope);
    }
  }

  // ---------- reachable books ----------

  lemma MatchSound(b: State, side: Side, q: int, scope: Scope)
    requires Sound(b)
    ensures Sound(Match(b, side, q, scope).0)
  {
    var maker := side.Opposite();
    TakeSuffix(maker, b.Of(maker), q, scope);
    TakeSorted(maker, b.Of(maker), q, scope);
  }

  /** An order that rests after matching crosses nothing. */
  lemma RestSound(b: State, side: Side, o: Rest)
    requires Sound(b) && o.qty > 0
    requires b.Of(side.Opposite()) != [] ==>
               !Within(side.Opposite(), AsGoodAs(o.price), b.Of(side.Opposite())[0].price)
    ensures Sound(b.With(side, Insert(side, b.Of(side), o)))
  {
    var own, opposite := b.Of(side), b.Of(side.Opposite());
    InsertSorted(side, own, o);
    forall j | 0 <= j < |opposite|
      ensures !Within(side.Opposite(), AsGoodAs(o.price), opposite[j].price)
    {
      assert j > 0 ==> !Before(side.Opposite(), opposite[j], opposite[0]);
    }
    forall i | 0 <= i < |own| + 1
      ensures Insert(side, own, o)[i] == o || Insert(side, own, o)[i] in own
    {
      assert Insert(side, own, o)[i] in Insert(side, own, o);
    }
  }

  lemma DropSound(b: State, side: Side, k: nat)
    requires Sound(b) && k < |b.Of(side)|
    ensures Sound(b.With(side, Drop(b.Of(side), k)))
  {
  }

  /** Every operation keeps both sides sorted, every resting quantity positive and the book
      uncrossed. */
  lemma StepSound(b: State, op: Op)
    requires Sound(b)
    ensures Sound(Step(b, op).0)
  {
    match op
    case Limit(side, o) =>
      MatchSound(b, side, o.qty, AsGoodAs(o.price));
      var (matched, filled) := Match(b, side, o.qty, AsGoodAs(o.price));
      if o.qty - filled > 0 {
        TakeSuffix(side.Opposite(), b.Of(side.Opposite()), o.qty, AsGoodAs(o.price));
        RestSound(matched, side, o.(qty := o.qty - filled));
      }
    case Market(side, _, q) =>
      MatchSound(b, side, q, Everything);
    case Cancel(id) =>
      if Find(b.bids, id) < |b.bids| {
        DropSound(b, Buy, Find(b.bids, id));
      } else if Find(b.asks, id) < |b.asks| {
        DropSound(b, Sell, Find(b.asks, id));
      }
  }
}
