/** The heap order book as a function: the book and the two heap arrays determine every answer, ties included.
    Every answer is one the reference book may give. */
module ExactBook {
  import opened Market
  import opened Bags
  import opened BinaryHeap
  import opened Reference

  datatype State = State(book: Book, bids: seq<Slot>, asks: seq<Slot>) {
    function Of(side: Side): seq<Slot> { if side == Buy then bids else asks }

    function With(side: Side, a: seq<Slot>): State { if side == Buy then this.(bids := a) else this.(asks := a) }
  }

  const EMPTY := State(Reference.EMPTY, [], [])

  function SlotFor(r: Rest): Slot { Slot(r.id, r.price, r.at) }

  // ---------- one command ----------

  datatype Swept = Swept(a: seq<Slot>, bag: Bag, fills: seq<Fill>, left: int)

  /** The matching loop: trade with the order at the root, pop it if that exhausts it, and go on. */
  function Sweep(side: Side, a: seq<Slot>, bag: Bag, taker: string, q: int, scope: Scope): Swept
    decreases |a|
  {
    if q <= 0 || a == [] || a[0].id !in bag || !Within(side, scope, a[0].price) then Swept(a, bag, [], q)
    else
      var id := a[0].id;
      var f := FillOf(side, id, taker, a[0].price, Min(q, bag[id].qty));
      if bag[id].qty <= q then
        var w := Sweep(side, Pop(side, a), bag - {id}, taker, q - bag[id].qty, scope);
        w.(fills := [f] + w.fills)
      else Swept(a, bag[id := bag[id].(qty := bag[id].qty - q)], [f], 0)
  }

  /** The position of the slot with this id, or the length. */
  function Find(a: seq<Slot>, id: string): (k: nat)
    ensures k <= |a|
    ensures forall i :: 0 <= i < k ==> a[i].id != id
    ensures k < |a| ==> a[k].id == id
  {
    if a == [] || a[0].id == id then 0 else 1 + Find(a[1..], id)
  }

  function Without(side: Side, a: seq<Slot>, id: string): seq<Slot> {
    if Find(a, id) < |a| then Remove(side, a, Find(a, id)) else a
  }

  function Matched(x: State, op: Op): Swept
    requires !op.Cancel?
  {
    var maker := op.side.Opposite();
    Sweep(maker, x.Of(maker), x.book.Of(maker), IdOf(op), QtyOf(op), ScopeOf(op))
  }

  function Taken(x: State, op: Op): State
    requires !op.Cancel?
  {
    var maker, w := op.side.Opposite(), Matched(x, op);
    x.With(maker, w.a).(book := x.book.With(maker, w.bag))
  }

  /** Rest what is left of a limit order; its id is in use from now on. */
  function Rested(x: State, side: Side, r: Rest): State {
    var ids := x.book.ids + {r.id};
    if r.qty > 0
    then x.With(side, Push(side, x.Of(side), SlotFor(r)))
          .(book := x.book.With(side, x.book.Of(side)[r.id := r]).(ids := ids))
    else x.(book := x.book.(ids := ids))
  }

  function Do(x: State, op: Op): (State, Outcome) {
    match op
    case Cancel(id) =>
      if id !in x.book.ids then (x, NotFound)
      else
        (State(Book(x.book.bids - {id}, x.book.asks - {id}, x.book.ids - {id}),
               Without(Buy, x.bids, id), Without(Sell, x.asks, id)),
         Cancelled)
    case _ =>
      if IdOf(op) in x.book.ids then (x, DuplicateId)
      else
        var w, y := Matched(x, op), Taken(x, op);
        (if op.Limit? then Rested(y, op.side, op.order.(qty := w.left)) else y, Filled(w.fills))
  }

  function Answers(x: State, ops: seq<Op>): seq<Outcome>
    decreases |ops|
  {
    if ops == [] then [] else [Do(x, ops[0]).1] + Answers(Do(x, ops[0]).0, ops[1..])
  }

  function DoAll(x: State, ops: seq<Op>): State
    decreases |ops|
  {
    if ops == [] then x else DoAll(Do(x, ops[0]).0, ops[1..])
  }

  // ---------- the arrays are heaps of what rests ----------

  /** Each resting order has its slot, once, and nothing else has. */
  ghost predicate Holds(a: seq<Slot>, bag: Bag) {
    && (forall x :: x in a ==> x.id in bag && x == SlotFor(bag[x.id]))
    && (forall id :: id in bag ==> SlotFor(bag[id]) in a)
    && (forall x :: multiset(a)[x] <= 1)
  }

  ghost predicate Heaps(side: Side, a: seq<Slot>, bag: Bag) {
    HeapOrdered(side, a, |a|) && Holds(a, bag)
  }

  ghost predicate Good(x: State) {
    && Sound(x.book)
    && Heaps(Buy, x.bids, x.book.bids) && Heaps(Sell, x.asks, x.book.asks)
  }

  lemma TopIsBest(side: Side, a: seq<Slot>, bag: Bag)
    requires WellKeyed(bag) && Heaps(side, a, bag) && a != []
    ensures IsBest(side, bag, a[0].id) && a[0] == SlotFor(bag[a[0].id])
  {
    assert a[0] in a;
    forall k | k in bag ensures !Before(side, bag[k], bag[a[0].id]) {
      var m :| 0 <= m < |a| && a[m] == SlotFor(bag[k]);
      RootIsBest(side, a, m);
    }
  }

  lemma PopHolds(side: Side, a: seq<Slot>, bag: Bag)
    requires WellKeyed(bag) && Heaps(side, a, bag) && a != []
    ensures Heaps(side, Pop(side, a), bag - {a[0].id})
  {
    PopOrdered(side, a);
    PopKeeps(side, a);
    hide HeapOrdered, Pop;
    LosesOne(a, Pop(side, a), bag, a[0]);
  }

  lemma LosesOne(a: seq<Slot>, b: seq<Slot>, bag: Bag, x: Slot)
    requires WellKeyed(bag) && Holds(a, bag) && x in a && multiset(b) == multiset(a) - multiset{x}
    ensures Holds(b, bag - {x.id})
  {
    assert forall y :: y in b <==> y in multiset(b);
    assert forall y :: y in a <==> y in multiset(a);
    assert multiset(a)[x] == 1;
  }

  lemma ReducedHolds(a: seq<Slot>, bag: Bag, id: string, q: int)
    requires Holds(a, bag) && id in bag
    ensures Holds(a, bag[id := bag[id].(qty := q)])
  {
  }

  lemma PushHolds(side: Side, a: seq<Slot>, bag: Bag, r: Rest)
    requires Heaps(side, a, bag) && r.id !in bag
    ensures Heaps(side, Push(side, a, SlotFor(r)), bag[r.id := r])
  {
    PushOrdered(side, a, SlotFor(r));
    PushKeeps(side, a, SlotFor(r));
    hide HeapOrdered, Push;
    GainsOne(a, Push(side, a, SlotFor(r)), bag, r);
  }

  lemma GainsOne(a: seq<Slot>, b: seq<Slot>, bag: Bag, r: Rest)
    requires Holds(a, bag) && r.id !in bag && multiset(b) == multiset(a) + multiset{SlotFor(r)}
    ensures Holds(b, bag[r.id := r])
  {
    assert forall y :: y in b <==> y in multiset(b);
    assert forall y :: y in a <==> y in multiset(a);
    assert SlotFor(r) !in a;
  }

  lemma WithoutHolds(side: Side, a: seq<Slot>, bag: Bag, id: string)
    requires WellKeyed(bag) && Heaps(side, a, bag)
    ensures Heaps(side, Without(side, a, id), bag - {id})
  {
    var k := Find(a, id);
    if k < |a| {
      assert a[k] in a;
      RemoveOrdered(side, a, k);
      RemoveKeeps(side, a, k);
      hide HeapOrdered, Remove;
      LosesOne(a, Remove(side, a, k), bag, a[k]);
    } else {
      assert id in bag ==> SlotFor(bag[id]) in a;
      assert bag - {id} == bag;
    }
  }

  // ---------- every answer is legal ----------

  lemma LeadsCons(side: Side, bag: Bag, taker: string, q: int, scope: Scope, f: Fill, fills: seq<Fill>,
                  bag': Bag, q': int)
    requires GoodFill(side, bag, taker, q, scope, f)
    requires Leads(side, Consume(side, bag, f), taker, q - f.qty, scope, fills, bag', q')
    ensures Leads(side, bag, taker, q, scope, [f] + fills, bag', q')
  {
    assert ([f] + fills)[1..] == fills;
  }

  /** The loop's fills are a complete greedy match, and the array is again a heap of what is left. */
  lemma {:induction false} SweepMatches(side: Side, a: seq<Slot>, bag: Bag, taker: string, q: int, scope: Scope)
    requires WellKeyed(bag) && Heaps(side, a, bag) && !scope.Exactly?
    ensures var w := Sweep(side, a, bag, taker, q, scope);
      && Heaps(side, w.a, w.bag)
      && Leads(side, bag, taker, q, scope, w.fills, w.bag, w.left) && Stuck(side, w.bag, w.left, scope)
    decreases |a|
  {
    hide Heaps, Leads;
    if q <= 0 || a == [] {
      LeadsNowhere(side, bag, taker, q, scope);
      EmptyHolds(side, a, bag);
    } else {
      TopIsBest(side, a, bag);
      var id := a[0].id;
      if !Within(side, scope, a[0].price) {
        LeadsNowhere(side, bag, taker, q, scope);
      } else {
        var f := FillOf(side, id, taker, a[0].price, Min(q, bag[id].qty));
        assert GoodFill(side, bag, taker, q, scope, f);
        ConsumeKeeps(side, bag, taker, q, scope, f);
        if bag[id].qty <= q {
          var w := Sweep(side, Pop(side, a), bag - {id}, taker, q - bag[id].qty, scope);
          PopHolds(side, a, bag);
          SweepMatches(side, Pop(side, a), bag - {id}, taker, q - bag[id].qty, scope);
          LeadsCons(side, bag, taker, q, scope, f, w.fills, w.bag, w.left);
        } else {
          var bag' := bag[id := bag[id].(qty := bag[id].qty - q)];
          SameHeap(side, a, bag, id, bag[id].qty - q);
          LeadsNowhere(side, bag', taker, 0, scope);
          LeadsCons(side, bag, taker, q, scope, f, [], bag', 0);
          assert [f] + [] == [f];
        }
      }
    }
  }

  lemma SameHeap(side: Side, a: seq<Slot>, bag: Bag, id: string, q: int)
    requires Heaps(side, a, bag) && id in bag
    ensures Heaps(side, a, bag[id := bag[id].(qty := q)])
  {
    ReducedHolds(a, bag, id, q);
  }

  lemma EmptyHolds(side: Side, a: seq<Slot>, bag: Bag)
    requires Heaps(side, a, bag)
    ensures a == [] ==> bag == map[]
  {
  }

  /** One command: the heap book's answer is one the reference book may give, its next book is the reference
      book's, and its arrays are again heaps of what rests. */
  lemma DoRefines(x: State, op: Op)
    requires Good(x)
    ensures Legal(x.book, op, Do(x, op).1) && Do(x, op).0.book == Next(x.book, op, Do(x, op).1)
    ensures Good(Do(x, op).0)
  {
    hide Heaps;
    if op.Cancel? {
      WithoutHolds(Buy, x.bids, x.book.bids, op.id);
      WithoutHolds(Sell, x.asks, x.book.asks, op.id);
      NextSound(x.book, op, Do(x, op).1);
    } else if IdOf(op) !in x.book.ids {
      PlacedRefines(x, op);
    }
  }

  lemma PlacedRefines(x: State, op: Op)
    requires Good(x) && !op.Cancel? && IdOf(op) !in x.book.ids
    ensures Legal(x.book, op, Do(x, op).1) && Do(x, op).0.book == Next(x.book, op, Do(x, op).1)
    ensures Good(Do(x, op).0)
  {
    hide Heaps, Leads, Stuck, Sweep;
    var maker, w, y := op.side.Opposite(), Matched(x, op), Taken(x, op);
    SweepMatches(maker, x.Of(maker), x.book.Of(maker), IdOf(op), QtyOf(op), ScopeOf(op));
    MatchIsLegal(x.book, op, w.fills, w.bag, w.left);
    NextSound(x.book, op, Filled(w.fills));
    if op.Limit? && w.left > 0 {
      PushHolds(op.side, x.Of(op.side), x.book.Of(op.side), op.order.(qty := w.left));
    }
  }

  lemma EmptyIsGood()
    ensures Good(EMPTY)
  {
  }

  /** Any command stream: the heap book's answers are a legal run of the reference book. */
  lemma {:induction false} AnswersAreLegal(x: State, ops: seq<Op>)
    requires Good(x)
    ensures LegalRun(x.book, ops, Answers(x, ops))
    ensures DoAll(x, ops).book == After(x.book, ops, Answers(x, ops)) && Good(DoAll(x, ops))
    decreases |ops|
  {
    hide Good, Do, Legal, Next;
    if ops != [] {
      DoRefines(x, ops[0]);
      AnswersAreLegal(Do(x, ops[0]).0, ops[1..]);
      assert Answers(x, ops)[1..] == Answers(Do(x, ops[0]).0, ops[1..]);
    }
  }
}
