/** The heap order book as it runs: two binary heaps of entries with back-pointers, an id index per heap and a
    map of live orders, all changed in place. The arrays move exactly as `BinaryHeap` says, and the book answers
    exactly as `ExactBook` does. */
module HeapBook {
  import opened Market
  import opened Bags
  import opened BinaryHeap
  import ExactBook
  import Priority
  import Reference

  class Order {
    const id: string
    const side: Side
    const price: real
    const qty: int
    const at: int
    var remaining: int

    constructor (id: string, side: Side, price: real, qty: int, at: int, remaining: int)
      ensures this.id == id && this.side == side && this.price == price && this.qty == qty && this.at == at
      ensures this.remaining == remaining
    {
      this.id, this.side, this.price, this.qty, this.at := id, side, price, qty, at;
      this.remaining := remaining;
    }
  }

  /** A heap entry with its back-pointer: `idx` is its own position in the array. */
  class Entry {
    const o: Order
    var idx: int

    constructor (o: Order)
      ensures this.o == o
    {
      this.o, this.idx := o, 0;
    }
  }

  // ---------- entries as slots ----------

  function SlotOf(e: Entry): Slot { Slot(e.o.id, e.o.price, e.o.at) }

  /** What the heap order looks at never changes, so the slots of an array do not depend on the state. */
  function Slots(a: seq<Entry>): (r: seq<Slot>)
    ensures |r| == |a| && forall i :: 0 <= i < |a| ==> r[i] == SlotOf(a[i])
  {
    if a == [] then [] else [SlotOf(a[0])] + Slots(a[1..])
  }

  lemma SlotsSwapped(a: seq<Entry>, i: int, j: int)
    requires 0 <= i < |a| && 0 <= j < |a|
    ensures Slots(Swapped(a, i, j)) == Swapped(Slots(a), i, j)
  {
    hide Slots;
  }

  lemma SlotsCut(a: seq<Entry>, n: nat)
    requires n <= |a|
    ensures Slots(a[..n]) == Slots(a)[..n]
  {
    hide Slots;
  }

  lemma SlotsSnoc(a: seq<Entry>, e: Entry)
    ensures Slots(a + [e]) == Slots(a) + [SlotOf(e)]
  {
    hide Slots;
  }

  ghost function Elems(a: seq<Entry>): set<Entry> { set e | e in a }

  lemma SwapElems(a: seq<Entry>, i: int, j: int)
    requires 0 <= i < |a| && 0 <= j < |a|
    ensures Elems(Swapped(a, i, j)) == Elems(a)
  {
    var a' := Swapped(a, i, j);
    forall e | e in a
      ensures e in a'
    {
      var k :| 0 <= k < |a| && a[k] == e;
      assert a'[i] == a[j] && a'[j] == a[i] && (k != i && k != j ==> a'[k] == a[k]);
    }
  }

  lemma CutElems(a: seq<Entry>, n: nat)
    requires n + 1 == |a|
    ensures Elems(a) == Elems(a[..n]) + {a[n]}
  {
    assert a == a[..n] + [a[n]];
  }

  ghost function OrdersOf(a: seq<Entry>): set<Order> { set e | e in Elems(a) :: e.o }

  function RestOf(o: Order): Rest
    reads o
  {
    Rest(o.id, o.price, o.at, o.remaining)
  }

  /** The index finds the entry under its order's id. */
  ghost predicate Filed(index: map<string, Entry>, e: Entry) {
    e.o.id in index && index[e.o.id] == e
  }

  /** The bag shows the order with its open quantity, and only while some is left. */
  ghost predicate Booked(side: Side, bag: Bag, o: Order)
    reads o
  {
    && o.side == side && o.remaining >= 0
    && (o.remaining > 0 <==> o.id in bag)
    && (o.id in bag ==> bag[o.id] == RestOf(o))
  }

  /** What a trade leaves of the bag. */
  function Reduced(bag: Bag, id: string, q: int): Bag
    requires id in bag
  {
    if bag[id].qty == q then bag - {id} else bag[id := bag[id].(qty := bag[id].qty - q)]
  }

  /** One side of the book: bids with bidIndex, or asks with askIndex. */
  class HalfBook {
    const side: Side
    var a: seq<Entry>
    var index: map<string, Entry>
    /** The resting orders as values; an exhausted entry still in the heap is not resting. */
    ghost var bag: Bag
    /** The objects this side owns: itself, its entries and their orders. */
    ghost var Repr: set<object>

    ghost predicate Indexed()
      reads `a, a
    {
      forall i :: 0 <= i < |a| ==> a[i].idx == i
    }

    /** The index holds exactly the entries of the heap, under their order's id. */
    ghost predicate IndexAgrees()
      reads `a, `index
    {
      && (forall e :: e in Elems(a) ==> Filed(index, e))
      && (forall id :: id in index ==> index[id] in Elems(a) && index[id].o.id == id)
    }

    ghost predicate BagAgrees()
      reads `a, `index, `bag, OrdersOf(a)
    {
      && (forall e :: e in Elems(a) ==> Booked(side, bag, e.o))
      && (forall id :: id in bag ==> id in index)
    }

    ghost predicate Core()
      reads `a, `index, `bag, a, OrdersOf(a)
    {
      Indexed() && IndexAgrees() && BagAgrees()
    }

    /** No entry of the heap is exhausted, save perhaps those in `but`. */
    ghost predicate Lively(but: set<Entry> := {})
      reads `a, OrdersOf(a)
    {
      forall e :: e in Elems(a) && e !in but ==> e.o.remaining > 0
    }

    /** Consistent, with nothing exhausted: what every operation of the book starts and ends with. */
    ghost predicate Valid()
      reads this, Repr
    {
      && Repr == {this} + Elems(a) + OrdersOf(a)
      && Core() && Lively()
    }

    constructor (side: Side)
      ensures Valid() && fresh(Repr)
      ensures this.side == side && a == [] && bag == map[]
    {
      this.side, a, index, bag := side, [], map[], map[];
      Repr := {this};
    }

    /** Take stock of what this side owns. */
    ghost method Own()
      requires Core() && Lively()
      modifies this`Repr
      ensures Valid() && Repr == {this} + Elems(a) + OrdersOf(a)
    {
      hide Indexed, IndexAgrees, BagAgrees;
      Repr := {this} + Elems(a) + OrdersOf(a);
    }

    // ---------- container/heap ----------

    method Swap(i: int, j: int)
      requires 0 <= i < |a| && 0 <= j < |a| && Indexed()
      modifies this`a, Elems(a)`idx
      ensures a == Swapped(old(a), i, j) && Indexed()
    {
      a := Swapped(a, i, j);
      a[i].idx := i;
      a[j].idx := j;
    }

    method Up(j0: int)
      requires 0 <= j0 < |a| && Indexed()
      modifies this`a, Elems(a)`idx
      ensures Indexed() && Elems(a) == old(Elems(a)) && |a| == old(|a|)
      ensures Slots(a) == BinaryHeap.Up(side, old(Slots(a)), j0)
      ensures forall k :: j0 < k < |a| ==> a[k] == old(a)[k]
    {
      hide BinaryHeap.Up, Slots;
      var j := j0;
      while true
        invariant 0 <= j <= j0 && |a| == old(|a|) && Indexed() && Elems(a) == old(Elems(a))
        invariant BinaryHeap.Up(side, Slots(a), j) == BinaryHeap.Up(side, old(Slots(a)), j0)
        invariant forall k :: j0 < k < |a| ==> a[k] == old(a)[k]
        decreases j
      {
        var i := Parent(j);
        UpUnfolds(side, Slots(a), j);
        if i == j || !Less(side, SlotOf(a[j]), SlotOf(a[i])) {
          break;
        }
        SlotsSwapped(a, i, j);
        SwapElems(a, i, j);
        Swap(i, j);
        j := i;
      }
    }

    method Down(i0: int, n: int) returns (moved: bool)
      requires 0 <= i0 < |a| && 0 <= n <= |a| && Indexed()
      modifies this`a, Elems(a)`idx
      ensures Indexed() && Elems(a) == old(Elems(a)) && |a| == old(|a|)
      ensures Slots(a) == BinaryHeap.Down(side, old(Slots(a)), n, i0)
      ensures moved <==> Sinks(side, old(Slots(a)), n, i0)
      ensures !moved ==> a == old(a)
      ensures forall k :: n <= k < |a| ==> a[k] == old(a)[k]
    {
      hide BestChild, Slots, BinaryHeap.Down, PickChild, Sinks;
      var i := i0;
      while true
        invariant i0 <= i < |a| == old(|a|) && Indexed() && Elems(a) == old(Elems(a))
        invariant BinaryHeap.Down(side, Slots(a), n, i) == BinaryHeap.Down(side, old(Slots(a)), n, i0)
        invariant if i == i0 then a == old(a) else i < n && Sinks(side, old(Slots(a)), n, i0)
        invariant forall k :: n <= k < |a| ==> a[k] == old(a)[k]
        decreases n - i
      {
        DownUnfolds(side, Slots(a), n, i);
        if !Sinks(side, Slots(a), n, i) {
          break;
        }
        MayPick(side, Slots(a), n, i);
        var c := PickChild(side, Slots(a), n, i);
        SlotsSwapped(a, i, c);
        SwapElems(a, i, c);
        Swap(i, c);
        i := c;
      }
      moved := i > i0;
    }

    method HeapPush(e: Entry)
      requires Indexed() && e !in a
      modifies this`a, Elems(a)`idx, e`idx
      ensures Indexed() && Elems(a) == old(Elems(a)) + {e}
      ensures Slots(a) == Push(side, old(Slots(a)), SlotOf(e))
      ensures IsHeap(side, old(Slots(a))) ==> IsHeap(side, Slots(a))
    {
      hide IsHeap, Slots, BinaryHeap.Up;
      e.idx := |a|;
      SlotsSnoc(a, e);
      a := a + [e];
      Up(|a| - 1);
      if IsHeap(side, old(Slots(a))) {
        OperationsKeepHeaps(side, old(Slots(a)));
      }
    }

    /** The truncation that ends heap.Pop and heap.Remove. */
    method DropLast() returns (e: Entry)
      requires |a| > 0 && Indexed()
      modifies this`a
      ensures Indexed() && a == old(a)[..|old(a)| - 1] && e == old(a)[|old(a)| - 1]
      ensures Elems(a) == old(Elems(a)) - {e}
      ensures Slots(a) == old(Slots(a))[..|old(a)| - 1]
    {
      var n := |a| - 1;
      e := a[n];
      CutElems(a, n);
      SlotsCut(a, n);
      a := a[..n];
    }

    method HeapPop() returns (e: Entry)
      requires Indexed() && |a| > 0
      modifies this`a, Elems(a)`idx
      ensures Indexed() && e == old(a)[0] && Elems(a) == old(Elems(a)) - {e}
      ensures Slots(a) == Pop(side, old(Slots(a)))
      ensures IsHeap(side, old(Slots(a))) ==> IsHeap(side, Slots(a))
    {
      hide IsHeap, Slots, BinaryHeap.Down, Sinks;
      var n := |a| - 1;
      SwapElems(a, 0, n);
      SlotsSwapped(a, 0, n);
      Swap(0, n);
      var moved := Down(0, n);
      e := DropLast();
      if IsHeap(side, old(Slots(a))) {
        OperationsKeepHeaps(side, old(Slots(a)));
      }
    }

    method HeapRemove(at: int) returns (e: Entry)
      requires Indexed() && 0 <= at < |a|
      modifies this`a, Elems(a)`idx
      ensures Indexed() && e == old(a)[at] && Elems(a) == old(Elems(a)) - {e}
      ensures Slots(a) == Remove(side, old(Slots(a)), at)
      ensures IsHeap(side, old(Slots(a))) ==> IsHeap(side, Slots(a))
    {
      hide IsHeap, Slots, BinaryHeap.Down, BinaryHeap.Up, Sinks;
      var n := |a| - 1;
      if n != at {
        SwapElems(a, at, n);
        SlotsSwapped(a, at, n);
        Swap(at, n);
        var moved := Down(at, n);
        if !moved {
          Up(at);
        }
      }
      e := DropLast();
      if IsHeap(side, old(Slots(a))) {
        OperationsKeepHeaps(side, old(Slots(a)));
      }
    }

    // ---------- the book's own operations on one side ----------

    /** popAsk and popBid: the top entry leaves the heap and the index together. */
    method PopBest()
      requires Core() && |a| > 0 && a[0].o.remaining == 0
      modifies this`a, this`index, Elems(a)`idx
      ensures Core() && Elems(a) == old(Elems(a)) - {old(a)[0]} && |a| == old(|a|) - 1
      ensures Slots(a) == Pop(side, old(Slots(a)))
      ensures old(Lively({a[0]})) ==> Lively()
    {
      hide IsHeap, Pop, Slots;
      assert a[0] in Elems(a);
      var e := HeapPop();
      index := index - {e.o.id};
    }

    /** The order on top of a heap with nothing exhausted is resting. */
    lemma TopRests()
      requires Core() && |a| > 0 && a[0].o.remaining > 0
      ensures a[0].o.id in bag && bag[a[0].o.id] == RestOf(a[0].o)
    {
      assert a[0] in Elems(a);
      assert Booked(side, bag, a[0].o);
    }

    lemma OthersDiffer()
      requires IndexAgrees() && |a| > 0
      ensures forall e :: e in Elems(a) && e != a[0] ==> e.o != a[0].o && e.o.id != a[0].o.id
    {
      assert a[0] in Elems(a);
      forall e | e in Elems(a) && e != a[0] ensures e.o.id != a[0].o.id {
        assert Filed(index, e) && Filed(index, a[0]);
      }
    }

    /** Trade `o` with the order on top of the heap, which may exhaust it. */
    method TradeTop(o: Order) returns (f: Fill)
      requires Core() && |a| > 0 && a[0].o.remaining > 0 && o !in OrdersOf(a) && o.remaining > 0
      modifies this`bag, a[0].o`remaining, o`remaining
      ensures Core() && a[0].o.id in old(bag) && old(bag)[a[0].o.id].qty > 0
      ensures var open, q := old(bag)[a[0].o.id].qty, old(o.remaining);
        && f == FillOf(side, a[0].o.id, o.id, a[0].o.price, Min(q, open))
        && o.remaining == q - f.qty && a[0].o.remaining == open - f.qty
      ensures bag == Reduced(old(bag), a[0].o.id, f.qty)
      ensures old(Lively()) ==> Lively({a[0]})
    {
      assert a[0] in Elems(a);
      TopRests();
      OthersDiffer();
      hide Indexed, IndexAgrees;
      var best := a[0].o;
      var qty := Min(o.remaining, best.remaining);
      f := FillOf(side, best.id, o.id, best.price, qty);
      o.remaining := o.remaining - qty;
      best.remaining := best.remaining - qty;
      bag := Reduced(bag, best.id, qty);
      forall e | e in Elems(a)
        ensures Booked(side, bag, e.o)
      {
        assert old(Booked(side, bag, e.o));
      }
    }

    /** One turn of the matching loop: trade with the top, and pop it if that exhausts it. */
    method FillBest(o: Order, ghost scope: Scope) returns (f: Fill)
      requires Core() && |a| > 0 && a[0].o.remaining > 0
      requires o !in OrdersOf(a) && o.remaining > 0 && Within(side, scope, a[0].o.price)
      modifies this`a, this`index, this`bag, Elems(a)`idx, OrdersOf(a)`remaining, o`remaining
      ensures Core() && Elems(a) <= old(Elems(a))
      ensures old(Lively()) ==> Lively()
      ensures |a| < old(|a|) || (|a| == old(|a|) && o.remaining == 0)
      ensures Turns(side, scope, o.id, old(Here(o)), Here(o), f)
    {
      hide Core, Lively, Pop, Slots, Booked;
      f := TradeTop(o);
      if a[0].o.remaining == 0 {
        PopBest();
      } else {
        LivelyTop();
      }
    }

    lemma LivelyTop()
      requires |a| > 0 && a[0].o.remaining > 0
      ensures Lively({a[0]}) ==> Lively()
    {
    }

    /** Where the matching loop is: array, bag and what the taker has left. */
    ghost function Here(o: Order): At
      reads `a, `bag, o
    {
      At(Slots(a), bag, o.remaining)
    }

    /** The lazy skip of exhausted tops. `skipped` counts how often it fires. */
    method SkipExhausted() returns (ghost skipped: nat)
      requires Core()
      modifies this`a, this`index, Elems(a)`idx
      ensures Core() && Elems(a) <= old(Elems(a)) && |a| <= old(|a|)
      ensures |a| > 0 ==> a[0].o.remaining > 0
      ensures old(Lively()) ==> skipped == 0 && Lively() && a == old(a)
    {
      skipped := 0;
      while |a| > 0 && a[0].o.remaining == 0
        invariant Core() && Elems(a) <= old(Elems(a)) && |a| <= old(|a|)
        invariant old(Lively()) ==> skipped == 0 && Lively() && a == old(a)
        decreases |a|
      {
        PopBest();
        skipped := skipped + 1;
      }
    }

    /** The matching loop of Place and PlaceMarket against this side. */
    method MatchLoop(o: Order, scope: Scope) returns (fills: seq<Fill>, ghost skipped: nat)
      requires Core() && Lively() && o !in OrdersOf(a)
      modifies this`a, this`index, this`bag, Elems(a)`idx, OrdersOf(a)`remaining, o`remaining
      ensures Core() && Lively() && Elems(a) <= old(Elems(a)) && skipped == 0
      ensures Goes(side, scope, o.id, old(Here(o)), fills, Here(o)) && Stops(side, scope, Here(o))
    {
      hide Core, Lively, Goes, Turns, Slots;
      fills, skipped := [], 0;
      GoesNowhere(side, scope, o.id, Here(o));
      while o.remaining > 0 && |a| > 0
        invariant Core() && Lively() && Elems(a) <= old(Elems(a)) && skipped == 0
        invariant Goes(side, scope, o.id, old(Here(o)), fills, Here(o))
        decreases |a|, o.remaining
      {
        ghost var n := SkipExhausted();
        skipped := skipped + n;
        if |a| == 0 || !Within(side, scope, a[0].o.price) {
          break;
        }
        ghost var before := Here(o);
        var f := FillBest(o, scope);
        GoesOn(side, scope, o.id, old(Here(o)), fills, before, f, Here(o));
        fills := fills + [f];
      }
    }

    method MatchAgainst(o: Order, scope: Scope) returns (fills: seq<Fill>, ghost skipped: nat)
      requires Valid() && o !in Repr
      modifies Repr, o
      ensures Valid() && Repr <= old(Repr) && OrdersOf(a) <= old(OrdersOf(a)) && skipped == 0
      ensures ExactBook.Sweep(side, old(Slots(a)), old(bag), o.id, old(o.remaining), scope)
           == ExactBook.Swept(Slots(a), bag, fills, o.remaining)
    {
      hide Core, Lively, Goes, Stops, Slots, ExactBook.Sweep;
      fills, skipped := MatchLoop(o, scope);
      GoneIsSwept(side, scope, o.id, old(Here(o)), fills, Here(o));
      Own();
    }

    /** heap.Push of an entry, and its place in the index. */
    method FileEntry(e: Entry)
      requires Indexed() && IndexAgrees() && e !in a && e.o.id !in index
      modifies this`a, this`index, Elems(a)`idx, e`idx
      ensures Indexed() && IndexAgrees() && index == old(index)[e.o.id := e]
      ensures Elems(a) == old(Elems(a)) + {e} && Slots(a) == Push(side, old(Slots(a)), SlotOf(e))
    {
      hide IsHeap, Push, Slots;
      HeapPush(e);
      index := index[e.o.id := e];
    }

    method PushEntry(o: Order) returns (e: Entry)
      requires Core() && o.id !in index && o.side == side && o.remaining > 0
      modifies this`a, this`index, this`bag, Elems(a)`idx
      ensures Core() && fresh(e) && e.o == o && Elems(a) == old(Elems(a)) + {e}
      ensures bag == old(bag)[o.id := RestOf(o)] && Slots(a) == Push(side, old(Slots(a)), SlotOf(e))
      ensures old(Lively()) ==> Lively()
    {
      hide Push, Slots, Indexed, IndexAgrees;
      ghost var r := RestOf(o);
      e := new Entry(o);
      NotThere(o.id);
      FileEntry(e);
      bag := bag[o.id := r];
      forall x | x in Elems(a)
        ensures Booked(side, bag, x.o)
      {
        assert x != e ==> old(Booked(side, bag, x.o)) && x.o.id != o.id;
      }
    }

    lemma NotThere(id: string)
      requires IndexAgrees() && id !in index
      ensures forall x :: x in Elems(a) ==> x.o.id != id
    {
      forall x | x in Elems(a) ensures x.o.id != id {
        assert Filed(index, x);
      }
    }

    /** Rest an order: heap.Push of a new entry, indexed under the order's id. */
    method Add(o: Order)
      requires Valid() && o.id !in index && o.side == side && o.remaining > 0 && o !in Repr
      modifies Repr
      ensures Valid() && fresh(Repr - old(Repr) - {o})
      ensures bag == old(bag)[o.id := RestOf(o)] && OrdersOf(a) == old(OrdersOf(a)) + {o}
      ensures Slots(a) == Push(side, old(Slots(a)), Slot(o.id, o.price, o.at))
    {
      hide Core, Lively, Push, Slots;
      var e := PushEntry(o);
      Own();
    }

    /** heap.Remove at the entry's back-pointer, and out of the index. */
    method RemoveEntry(id: string)
      requires Core() && id in index && id !in bag
      modifies this`a, this`index, Elems(a)`idx
      ensures Core() && Elems(a) == old(Elems(a)) - {old(index)[id]}
      ensures Slots(a) == ExactBook.Without(side, old(Slots(a)), id)
      ensures old(Lively({index[id]})) ==> Lively()
    {
      hide IsHeap, Remove, Slots, ExactBook.Without, Indexed, IndexAgrees;
      OthersAreFiled(id);
      UnfileEntry(id);
    }

    /** heap.Remove of the entry under an id, and its place in the index. */
    method UnfileEntry(id: string)
      requires Indexed() && IndexAgrees() && id in index
      modifies this`a, this`index, Elems(a)`idx
      ensures Indexed() && IndexAgrees() && index == old(index) - {id}
      ensures Elems(a) == old(Elems(a)) - {old(index)[id]} && Slots(a) == ExactBook.Without(side, old(Slots(a)), id)
    {
      hide IsHeap, Remove, Slots;
      FoundAtIdx(id);
      OthersAreFiled(id);
      var e := HeapRemove(index[id].idx);
      index := index - {id};
      assert e == old(index)[id];
    }

    lemma OthersAreFiled(id: string)
      requires IndexAgrees() && id in index
      ensures forall e :: e in Elems(a) && e != index[id] ==> e.o.id != id
    {
      forall e | e in Elems(a) && e != index[id] ensures e.o.id != id {
        assert Filed(index, e);
      }
    }

    /** The back-pointer of an indexed entry is where a search of the array finds its id. */
    lemma FoundAtIdx(id: string)
      requires Indexed() && IndexAgrees()
      ensures id in index ==> 0 <= index[id].idx < |a| && a[index[id].idx] == index[id]
      ensures ExactBook.Find(Slots(a), id) == if id in index then index[id].idx else |a|
    {
      var k := ExactBook.Find(Slots(a), id);
      assert forall i :: 0 <= i < |a| ==> a[i] in Elems(a);
      if k < |a| {
        assert Filed(index, a[k]);
      }
    }

    /** Cancel an order resting on this side. */
    method Withdraw(o: Order)
      requires Valid() && o.id in index && index[o.id].o == o && o in Repr
      modifies Repr
      ensures Valid() && Repr <= old(Repr) && OrdersOf(a) <= old(OrdersOf(a)) - {o}
      ensures bag == old(bag) - {o.id} && o.remaining == 0
      ensures Slots(a) == ExactBook.Without(side, old(Slots(a)), o.id)
    {
      hide Core, Lively, Slots, ExactBook.Without;
      Exhaust(o);
      RemoveEntry(o.id);
      Own();
    }

    method Exhaust(o: Order)
      requires Core() && Lively() && o.id in index && index[o.id].o == o
      modifies o`remaining, this`bag
      ensures Core() && Lively({index[o.id]}) && o.remaining == 0
      ensures bag == old(bag) - {o.id}
      ensures forall e :: e in Elems(a) && e != index[o.id] ==> e.o != o
    {
      o.remaining := 0;
      bag := bag - {o.id};
      forall e | e in Elems(a)
        ensures Booked(side, bag, e.o)
      {
        assert Filed(index, e) && old(Booked(side, bag, e.o));
      }
    }
  }

  // ---------- the matching loop as values ----------

  /** Array, bag and what the taker has left. */
  datatype At = At(a: seq<Slot>, bag: Bag, left: int)

  /** One turn of the loop. */
  ghost predicate Turns(side: Side, scope: Scope, taker: string, x: At, y: At, f: Fill) {
    && x.left > 0 && x.a != [] && x.a[0].id in x.bag && Within(side, scope, x.a[0].price)
    && var r := x.bag[x.a[0].id];
       && f == FillOf(side, x.a[0].id, taker, x.a[0].price, Min(x.left, r.qty))
       && y == if r.qty <= x.left then At(Pop(side, x.a), x.bag - {x.a[0].id}, x.left - r.qty)
               else At(x.a, x.bag[x.a[0].id := r.(qty := r.qty - x.left)], 0)
  }

  ghost predicate Stops(side: Side, scope: Scope, x: At) {
    x.left <= 0 || x.a == [] || !Within(side, scope, x.a[0].price)
  }

  /** The turns so far: what is still to come of the whole sweep is the sweep from here. */
  ghost predicate Goes(side: Side, scope: Scope, taker: string, x: At, fills: seq<Fill>, y: At) {
    var w := ExactBook.Sweep(side, y.a, y.bag, taker, y.left, scope);
    ExactBook.Sweep(side, x.a, x.bag, taker, x.left, scope) == w.(fills := fills + w.fills)
  }

  lemma GoesNowhere(side: Side, scope: Scope, taker: string, x: At)
    ensures Goes(side, scope, taker, x, [], x)
  {
    hide ExactBook.Sweep;
    var w := ExactBook.Sweep(side, x.a, x.bag, taker, x.left, scope);
    assert [] + w.fills == w.fills;
  }

  lemma GoesOn(side: Side, scope: Scope, taker: string, x: At, fills: seq<Fill>, y: At, f: Fill, z: At)
    requires Goes(side, scope, taker, x, fills, y) && Turns(side, scope, taker, y, z, f)
    ensures Goes(side, scope, taker, x, fills + [f], z)
  {
    TurnSweeps(side, scope, taker, y, z, f);
    hide ExactBook.Sweep, Turns;
    var w := ExactBook.Sweep(side, z.a, z.bag, taker, z.left, scope);
    assert fills + ([f] + w.fills) == fills + [f] + w.fills;
  }

  lemma TurnSweeps(side: Side, scope: Scope, taker: string, x: At, y: At, f: Fill)
    requires Turns(side, scope, taker, x, y, f)
    ensures var w := ExactBook.Sweep(side, y.a, y.bag, taker, y.left, scope);
      ExactBook.Sweep(side, x.a, x.bag, taker, x.left, scope) == w.(fills := [f] + w.fills)
  {
    hide Pop;
    assert [f] + [] == [f];
  }

  lemma GoneIsSwept(side: Side, scope: Scope, taker: string, x: At, fills: seq<Fill>, y: At)
    requires Goes(side, scope, taker, x, fills, y) && Stops(side, scope, y)
    ensures ExactBook.Sweep(side, x.a, x.bag, taker, x.left, scope) == ExactBook.Swept(y.a, y.bag, fills, y.left)
  {
    assert fills + [] == fills;
  }

  // ---------- the book ----------

  class OrderBook {
    const bids: HalfBook
    const asks: HalfBook
    var orders: map<string, Order>

    /** The book as a value: what the reference book sees. */
    ghost function View(): Reference.Book
      reads this, bids, asks
    {
      Reference.Book(bids.bag, asks.bag, orders.Keys)
    }

    /** The book and its two arrays. */
    ghost function Exact(): ExactBook.State
      reads this, bids, asks
    {
      ExactBook.State(View(), Slots(bids.a), Slots(asks.a))
    }

    /** Both sides are well linked, and every order in them is live. */
    ghost predicate Linked()
      reads this, bids, asks, bids.Repr, asks.Repr
    {
      && bids.side == Buy && asks.side == Sell
      && this !in bids.Repr && this !in asks.Repr
      && Halves(bids, asks)
      && (forall id :: id in orders ==> orders[id].id == id)
      && AllLive(orders, OrdersOf(bids.a)) && AllLive(orders, OrdersOf(asks.a))
    }

    ghost predicate Valid()
      reads this, bids, asks, bids.Repr, asks.Repr
    {
      Linked() && ExactBook.Good(Exact())
    }

    constructor ()
      ensures Valid() && Exact() == ExactBook.EMPTY
      ensures fresh(bids.Repr) && fresh(asks.Repr) && orders == map[]
    {
      bids := new HalfBook(Buy);
      asks := new HalfBook(Sell);
      orders := map[];
      ExactBook.EmptyIsGood();
    }

    /** An order whose id is not live is not in either heap. */
    lemma NotResting(o: Order)
      requires Linked() && o.id !in orders
      ensures o !in bids.Repr && o !in asks.Repr
      ensures o.id !in bids.index && o.id !in asks.index
    {
      hide HalfBook.Lively, HalfBook.Indexed, HalfBook.BagAgrees;
    }

    /** The common part of Place and PlaceMarket: list the order, match it, rest a remainder. */
    method Accept(o: Order, scope: Scope, rests: bool) returns (fills: seq<Fill>, ghost skipped: nat)
      requires Linked() && o.id !in orders
      requires o !in bids.Repr && o !in asks.Repr
      requires o.id !in bids.index && o.id !in asks.index
      modifies this`orders, bids.Repr, asks.Repr, o
      ensures Linked() && skipped == 0 && orders == old(orders)[o.id := o]
      ensures !rests ==> o !in OrdersOf(bids.a) && o !in OrdersOf(asks.a)
      ensures fresh(bids.Repr + asks.Repr - old(bids.Repr + asks.Repr) - {o})
      ensures Places(old(Exact()), o.side, old(Incoming(o)), scope, rests, fills, Exact())
    {
      hide HalfBook.Valid, ExactBook.Sweep, Push, Slots, Places, AllLive;
      ghost var x, r := Exact(), Incoming(o);
      if o.remaining == 0 {
        o.remaining := o.qty;
      }
      orders := orders[o.id := o];
      if o.side == Buy {
        fills, skipped := Execute(asks, bids, o, scope, rests);
      } else {
        fills, skipped := Execute(bids, asks, o, scope, rests);
      }
      OneMoreLive(old(orders), o, old(OrdersOf(bids.a)), OrdersOf(bids.a));
      OneMoreLive(old(orders), o, old(OrdersOf(asks.a)), OrdersOf(asks.a));
      PlacesIf(x, o.side, r, scope, rests, fills, Exact());
    }

    method Place(o: Order) returns (out: Outcome, ghost skipped: nat)
      requires Valid()
      modifies this, bids.Repr, asks.Repr, o
      ensures Valid() && skipped == 0
      ensures out == DuplicateId ==> o.remaining == old(o.remaining)
      ensures (Exact(), out) == ExactBook.Do(old(Exact()), Limit(o.side, old(Incoming(o))))
      ensures Reference.Legal(old(View()), Limit(o.side, old(Incoming(o))), out)
      ensures View() == Reference.Next(old(View()), Limit(o.side, old(Incoming(o))), out)
      ensures out.Filled? ==> Priority.FilledInTurn(old(View()), o.side, o.id, out.fills)
      ensures fresh(bids.Repr + asks.Repr - old(bids.Repr + asks.Repr) - {o})
      ensures forall id :: id in orders ==> orders[id] == o || (id in old(orders) && orders[id] == old(orders)[id])
    {
      hide Linked, ExactBook.Good, ExactBook.Do, Reference.Legal, Reference.Next, Places, Slots;
      ghost var x, op := Exact(), Limit(o.side, Incoming(o));
      ExactBook.DoRefines(x, op);
      if o.id in orders {
        Duplicate(x, op);
        return DuplicateId, 0;
      }
      NotResting(o);
      var fills;
      fills, skipped := Accept(o, AsGoodAs(o.price), true);
      out := Filled(fills);
      PlacesLimit(x, op, fills, Exact());
      InTurn(x, op, out);
    }

    method PlaceMarket(o: Order) returns (out: Outcome, ghost skipped: nat)
      requires Valid()
      modifies this, bids.Repr, asks.Repr, o
      ensures Valid() && skipped == 0
      ensures out == DuplicateId ==> o.remaining == old(o.remaining)
      ensures (Exact(), out) == ExactBook.Do(old(Exact()), Op.Market(o.side, o.id, old(Incoming(o)).qty))
      ensures Reference.Legal(old(View()), Op.Market(o.side, o.id, old(Incoming(o)).qty), out)
      ensures View() == Reference.Next(old(View()), Op.Market(o.side, o.id, old(Incoming(o)).qty), out)
      ensures out.Filled? ==> Priority.FilledInTurn(old(View()), o.side, o.id, out.fills)
      ensures fresh(bids.Repr + asks.Repr - old(bids.Repr + asks.Repr) - {o})
      ensures forall id :: id in orders ==> orders[id] == o || (id in old(orders) && orders[id] == old(orders)[id])
    {
      hide Linked, ExactBook.Good, ExactBook.Do, Reference.Legal, Reference.Next, Places, Slots;
      ghost var x, op := Exact(), Op.Market(o.side, o.id, Incoming(o).qty);
      ghost var r := Incoming(o);
      ExactBook.DoRefines(x, op);
      if o.id in orders {
        Duplicate(x, op);
        return DuplicateId, 0;
      }
      NotResting(o);
      var fills;
      fills, skipped := Accept(o, Everything, false);
      ghost var y := Exact();
      Delist(o);
      out := Filled(fills);
      PlacesMarket(x, op, r, fills, y);
      InTurn(x, op, out);
    }

    /** Take an order that rests nowhere off the map of live orders. */
    method Delist(o: Order)
      requires Linked() && o !in OrdersOf(bids.a) && o !in OrdersOf(asks.a)
      requires o.id in orders && orders[o.id] == o
      modifies this`orders
      ensures Linked() && orders == old(orders) - {o.id}
    {
      hide HalfBook.Valid, AllLive;
      OneLessLive(orders, o.id, OrdersOf(bids.a), OrdersOf(bids.a));
      OneLessLive(orders, o.id, OrdersOf(asks.a), OrdersOf(asks.a));
      orders := orders - {o.id};
    }

    /** The index entry of a live id holds its live order, and only one side has it. */
    lemma Finds(id: string)
      requires Valid() && id in orders
      ensures id in bids.index ==> bids.index[id].o == orders[id] && orders[id] in bids.Repr && id !in asks.index
      ensures id in asks.index ==> asks.index[id].o == orders[id] && orders[id] in asks.Repr
      ensures id !in bids.index ==> id !in bids.bag && orders[id] !in bids.Repr && orders[id] !in OrdersOf(bids.a)
      ensures id !in asks.index ==> id !in asks.bag && orders[id] !in asks.Repr && orders[id] !in OrdersOf(asks.a)
    {
      assert id in bids.index ==> bids.index[id].o in OrdersOf(bids.a);
      assert id in asks.index ==> asks.index[id].o in OrdersOf(asks.a);
      assert id in bids.index ==> Booked(Buy, bids.bag, orders[id]);
      assert id in asks.index ==> Booked(Sell, asks.bag, orders[id]);
    }

    /** What the index knows is what a search of the array finds. */
    lemma FindsNothing(id: string)
      requires Linked()
      ensures id !in bids.index ==> ExactBook.Without(Buy, Slots(bids.a), id) == Slots(bids.a)
      ensures id !in asks.index ==> ExactBook.Without(Sell, Slots(asks.a), id) == Slots(asks.a)
    {
      bids.FoundAtIdx(id);
      asks.FoundAtIdx(id);
    }

    method Cancel(id: string) returns (out: Outcome)
      requires Valid()
      modifies this, bids.Repr, asks.Repr, if id in orders then {orders[id]} else {}
      ensures Valid()
      ensures (Exact(), out) == ExactBook.Do(old(Exact()), Op.Cancel(id))
      ensures Reference.Legal(old(View()), Op.Cancel(id), out)
      ensures View() == Reference.Next(old(View()), Op.Cancel(id), out)
      ensures out == Cancelled ==> old(orders)[id].remaining == 0
      ensures bids.Repr <= old(bids.Repr) && asks.Repr <= old(asks.Repr)
      ensures forall id :: id in orders ==> id in old(orders) && orders[id] == old(orders)[id]
    {
      hide HalfBook.Valid, ExactBook.Good, Reference.Legal, Reference.Next, Slots, ExactBook.Without, AllLive;
      ghost var x := Exact();
      ExactBook.DoRefines(x, Op.Cancel(id));
      if id !in orders {
        return NotFound;
      }
      out := Cancelled;
      Finds(id);
      FindsNothing(id);
      var o := orders[id];
      orders := orders - {id};
      if id in bids.index {
        Release(bids, asks, o);
      } else if id in asks.index {
        Release(asks, bids, o);
      } else {
        o.remaining := 0;
      }
      OneLessLive(old(orders), id, old(OrdersOf(bids.a)), OrdersOf(bids.a));
      OneLessLive(old(orders), id, old(OrdersOf(asks.a)), OrdersOf(asks.a));
      assert bids.bag == x.book.bids - {id} && asks.bag == x.book.asks - {id};
    }
  }

  /** Every one of these orders is the live order of its id. */
  ghost predicate AllLive(orders: map<string, Order>, os: set<Order>) {
    forall x :: x in os ==> x.id in orders && orders[x.id] == x
  }

  lemma OneMoreLive(orders: map<string, Order>, o: Order, os: set<Order>, os': set<Order>)
    requires AllLive(orders, os) && os' <= os + {o} && o.id !in orders
    ensures AllLive(orders[o.id := o], os') && orders[o.id := o].Keys == orders.Keys + {o.id}
  {
  }

  lemma OneLessLive(orders: map<string, Order>, id: string, os: set<Order>, os': set<Order>)
    requires AllLive(orders, os) && os' <= os && id in orders && orders[id] !in os'
    ensures AllLive(orders - {id}, os')
  {
  }

  // ---------- placing as values ----------

  /** What matching an order and resting a remainder of it make of the book and its arrays. */
  ghost predicate Places(x: ExactBook.State, side: Side, r: Rest, scope: Scope, rests: bool, fills: seq<Fill>,
                         y: ExactBook.State) {
    var maker := side.Opposite();
    var w := ExactBook.Sweep(maker, x.Of(maker), x.book.Of(maker), r.id, r.qty, scope);
    && fills == w.fills
    && y == Placed(x, side, r, rests, w)
  }

  ghost function Placed(x: ExactBook.State, side: Side, r: Rest, rests: bool, w: ExactBook.Swept): ExactBook.State {
    var maker := side.Opposite();
    var taken := x.With(maker, w.a).(book := x.book.With(maker, w.bag));
    if rests then ExactBook.Rested(taken, side, r.(qty := w.left))
    else taken.(book := taken.book.(ids := x.book.ids + {r.id}))
  }

  lemma PlacesIf(x: ExactBook.State, side: Side, r: Rest, scope: Scope, rests: bool, fills: seq<Fill>,
                 y: ExactBook.State)
    requires var maker := side.Opposite();
      var w := ExactBook.Sweep(maker, x.Of(maker), x.book.Of(maker), r.id, r.qty, scope);
      && fills == w.fills && y.Of(maker) == w.a && y.book.Of(maker) == w.bag
      && y.book.ids == x.book.ids + {r.id}
      && (if rests && w.left > 0
          then && y.Of(side) == Push(side, x.Of(side), Slot(r.id, r.price, r.at))
               && y.book.Of(side) == x.book.Of(side)[r.id := r.(qty := w.left)]
          else y.Of(side) == x.Of(side) && y.book.Of(side) == x.book.Of(side))
    ensures Places(x, side, r, scope, rests, fills, y)
  {
    hide ExactBook.Sweep, Push;
  }

  lemma PlacesLimit(x: ExactBook.State, op: Op, fills: seq<Fill>, y: ExactBook.State)
    requires op.Limit? && op.order.id !in x.book.ids
    requires Places(x, op.side, op.order, AsGoodAs(op.order.price), true, fills, y)
    ensures ExactBook.Do(x, op) == (y, Filled(fills))
  {
    hide ExactBook.Sweep, Push;
  }

  lemma PlacesMarket(x: ExactBook.State, op: Op, r: Rest, fills: seq<Fill>, y: ExactBook.State)
    requires op.Market? && op.id == r.id && op.qty == r.qty && op.id !in x.book.ids
    requires Places(x, op.side, r, Everything, false, fills, y)
    ensures ExactBook.Do(x, op) == (y.(book := y.book.(ids := y.book.ids - {r.id})), Filled(fills))
  {
    hide ExactBook.Sweep, Push;
    assert x.book.ids + {r.id} - {r.id} == x.book.ids;
  }

  lemma InTurn(x: ExactBook.State, op: Op, out: Outcome)
    requires ExactBook.Good(x) && Reference.Legal(x.book, op, out) && out.Filled? && !op.Cancel?
    ensures Priority.FilledInTurn(x.book, op.side, Reference.IdOf(op), out.fills)
  {
    hide Reference.Legal, ExactBook.Heaps, Priority.FilledInTurn;
    Priority.BestThenEarliestFirst(x.book, op, out);
  }

  lemma Duplicate(x: ExactBook.State, op: Op)
    requires !op.Cancel? && Reference.IdOf(op) in x.book.ids
    ensures ExactBook.Do(x, op) == (x, DuplicateId)
  {
  }

  // ---------- one side against the other ----------

  /** Cancel an order resting on `h`; the other side is untouched. */
  method Release(h: HalfBook, other: HalfBook, o: Order)
    requires Halves(h, other) && o.id in h.index && h.index[o.id].o == o && o in h.Repr
    modifies h.Repr
    ensures Halves(h, other) && unchanged(other)
    ensures h.Repr <= old(h.Repr) && OrdersOf(h.a) <= old(OrdersOf(h.a)) - {o}
    ensures h.bag == old(h.bag) - {o.id} && o.remaining == 0
    ensures Slots(h.a) == ExactBook.Without(h.side, old(Slots(h.a)), o.id)
  {
    hide HalfBook.Core, HalfBook.Lively, Slots, ExactBook.Without;
    h.Withdraw(o);
  }

  /** The order as it enters the book: an order with nothing remaining enters with its full quantity. */
  function Incoming(o: Order): Rest
    reads o
  {
    Rest(o.id, o.price, o.at, if o.remaining == 0 then o.qty else o.remaining)
  }

  /** Two disjoint sides, both sound and with nothing exhausted. */
  ghost predicate Halves(h: HalfBook, k: HalfBook)
    reads h, k, h.Repr, k.Repr
  {
    h.Valid() && k.Valid() && h.Repr !! k.Repr
  }

  /** The matching half of Place and PlaceMarket, and the resting of a limit order's remainder. */
  method Execute(maker: HalfBook, own: HalfBook, o: Order, scope: Scope, rests: bool)
    returns (fills: seq<Fill>, ghost skipped: nat)
    requires Halves(maker, own) && o !in maker.Repr && o !in own.Repr
    requires o.id !in own.index && o.side == own.side
    modifies maker.Repr, own.Repr, o
    ensures Halves(maker, own) && skipped == 0
    ensures maker.Repr <= old(maker.Repr) && fresh(own.Repr - old(own.Repr) - {o})
    ensures OrdersOf(maker.a) <= old(OrdersOf(maker.a))
    ensures OrdersOf(own.a) <= old(OrdersOf(own.a)) + {o}
    ensures !rests ==> o !in OrdersOf(maker.a) && o !in OrdersOf(own.a)
    ensures ExactBook.Sweep(maker.side, old(Slots(maker.a)), old(maker.bag), o.id, old(o.remaining), scope)
         == ExactBook.Swept(Slots(maker.a), maker.bag, fills, o.remaining)
    ensures if rests && o.remaining > 0
            then && own.bag == old(own.bag)[o.id := RestOf(o)]
                 && Slots(own.a) == Push(own.side, old(Slots(own.a)), Slot(o.id, o.price, o.at))
            else own.bag == old(own.bag) && own.a == old(own.a)
  {
    hide HalfBook.Valid, ExactBook.Sweep, Push, Slots;
    fills, skipped := Trade(maker, own, o, scope);
    if rests && o.remaining > 0 {
      Settle(own, maker, o);
    }
  }

  /** Match an incoming order against `maker`; the other side is untouched. */
  method Trade(maker: HalfBook, own: HalfBook, o: Order, scope: Scope)
    returns (fills: seq<Fill>, ghost skipped: nat)
    requires Halves(maker, own) && o !in maker.Repr && o !in own.Repr
    modifies maker.Repr, o
    ensures Halves(maker, own) && skipped == 0
    ensures maker.Repr <= old(maker.Repr) && OrdersOf(maker.a) <= old(OrdersOf(maker.a))
    ensures unchanged(own) && o !in OrdersOf(maker.a) && o !in OrdersOf(own.a)
    ensures ExactBook.Sweep(maker.side, old(Slots(maker.a)), old(maker.bag), o.id, old(o.remaining), scope)
         == ExactBook.Swept(Slots(maker.a), maker.bag, fills, o.remaining)
  {
    hide HalfBook.Core, HalfBook.Lively, ExactBook.Sweep, Slots;
    fills, skipped := maker.MatchAgainst(o, scope);
  }

  /** Rest what is left of an order on its own side; the other side is untouched. */
  method Settle(own: HalfBook, maker: HalfBook, o: Order)
    requires Halves(maker, own) && o !in maker.Repr && o !in own.Repr
    requires o.id !in own.index && o.side == own.side && o.remaining > 0
    modifies own.Repr
    ensures Halves(maker, own)
    ensures unchanged(maker)
    ensures own.bag == old(own.bag)[o.id := RestOf(o)]
    ensures OrdersOf(own.a) == old(OrdersOf(own.a)) + {o} && fresh(own.Repr - old(own.Repr) - {o})
    ensures Slots(own.a) == Push(own.side, old(Slots(own.a)), Slot(o.id, o.price, o.at))
  {
    hide HalfBook.Core, HalfBook.Lively, Push, Slots;
    own.Add(o);
  }
}
