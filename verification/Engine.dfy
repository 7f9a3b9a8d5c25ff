/** A whole run of the heap book, command by command, as the sample server drives it. */
module Engine {
  import opened Market
  import opened HeapBook
  import ExactBook
  import Reference
  import ReplayBook
  import Runs
  import Slices

  method Apply(book: OrderBook, op: Op) returns (out: Outcome)
    requires book.Valid()
    modifies book, book.bids.Repr, book.asks.Repr, book.orders.Values
    ensures book.Valid()
    ensures (book.Exact(), out) == ExactBook.Do(old(book.Exact()), op)
    ensures Reference.Legal(old(book.View()), op, out)
    ensures book.View() == Reference.Next(old(book.View()), op, out)
    ensures fresh(book.bids.Repr + book.asks.Repr - old(book.bids.Repr + book.asks.Repr))
    ensures forall id :: id in book.orders ==>
              fresh(book.orders[id]) || (id in old(book.orders) && book.orders[id] == old(book.orders)[id])
  {
    hide OrderBook.Valid, OrderBook.Exact, ExactBook.Do, Reference.Legal, Reference.Next;
    ghost var skipped;
    match op
    case Limit(side, r) =>
      var o := new Order(r.id, side, r.price, r.qty, r.at, 0);
      out, skipped := book.Place(o);
    case Market(side, id, q) =>
      var o := new Order(id, side, 0.0, q, 0, 0);
      out, skipped := book.PlaceMarket(o);
    case Cancel(id) =>
      out := book.Cancel(id);
  }

  /** Any command stream, from an empty book: the heap book answers exactly as its specification does, and
      every answer is legal. */
  method RunBook(ops: seq<Op>) returns (outs: seq<Outcome>)
    ensures outs == ExactBook.Answers(ExactBook.EMPTY, ops)
    ensures Reference.LegalRun(Reference.EMPTY, ops, outs)
  {
    hide OrderBook.Valid, OrderBook.Exact, ExactBook.Do, Reference.Legal, Reference.Next;
    var book := new OrderBook();
    outs := [];
    for i := 0 to |ops|
      invariant book.Valid() && fresh(book) && fresh(book.bids.Repr) && fresh(book.asks.Repr)
      invariant forall id :: id in book.orders ==> fresh(book.orders[id])
      invariant ExactBook.Answers(ExactBook.EMPTY, ops) == outs + ExactBook.Answers(book.Exact(), ops[i..])
    {
      assert ops[i..][0] == ops[i] && ops[i..][1..] == ops[i + 1..];
      var out := Apply(book, ops[i]);
      outs := outs + [out];
    }
    ExactBook.EmptyIsGood();
    ExactBook.AnswersAreLegal(ExactBook.EMPTY, ops);
  }

  method ApplyReplay(book: ReplayBook.Book, op: Op) returns (filled: int)
    requires book.Valid()
    modifies book
    ensures book.Valid() && (book.View(), filled) == Slices.Step(old(book.View()), op)
  {
    match op
    case Limit(side, r) => filled := book.Place(side, r);
    case Market(side, id, q) => filled := book.PlaceMarket(side, id, q);
    case Cancel(id) =>
      var found := book.Cancel(id);
      filled := 0;
  }

  /** Any command stream through the slice book, from empty. */
  method RunReplay(ops: seq<Op>) returns (fills: seq<int>)
    ensures fills == Runs.Expected(Slices.EMPTY, ops)
  {
    hide Slices.Step;
    var book := new ReplayBook.Book("");
    fills := [];
    for i := 0 to |ops|
      invariant book.Valid() && fresh(book)
      invariant Runs.Expected(Slices.EMPTY, ops) == fills + Runs.Expected(book.View(), ops[i..])
    {
      assert ops[i..][1..] == ops[i + 1..];
      var filled := ApplyReplay(book, ops[i]);
      fills := fills + [filled];
    }
  }

  /** Both engines on one stream of distinct commands: equal filled quantities, command by command. */
  method RunBoth(ops: seq<Op>) returns (outs: seq<Outcome>, fills: seq<int>)
    ensures Reference.LegalRun(Reference.EMPTY, ops, outs)
    ensures Runs.Distinct(ops) || Runs.AllFilled(outs) ==> fills == Runs.Reported(outs)
  {
    outs := RunBook(ops);
    fills := RunReplay(ops);
    if Runs.Distinct(ops) {
      Runs.DistinctStreamsAgree(ops, outs);
    } else if Runs.AllFilled(outs) {
      Runs.TimesDoNotMatter(Reference.EMPTY, Slices.EMPTY, ops, ops, outs);
    }
  }
}
