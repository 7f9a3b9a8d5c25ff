/** The two engines as they run, on the stream of `Witness`: the heap book and the slice book answer the
    last market order differently. */
module Parting {
  import opened Market
  import opened Bags
  import opened BinaryHeap
  import opened Reference
  import opened Runs
  import opened HeapTies
  import opened Witness
  import Engine
  import ExactBook
  import Slices

  // ---------- how a heap serves ties ----------

  /** All slots have the same price and time. */
  ghost predicate Tied(a: seq<Slot>) {
    forall x, y :: x in a && y in a ==> x.price == y.price && x.at == y.at
  }

  /** What popping the root leaves when the last slot, put in its place, stays there. */
  function Rotated(a: seq<Slot>): seq<Slot> {
    if |a| <= 1 then [] else [a[|a| - 1]] + a[1..|a| - 1]
  }

  lemma TiedNeverLess(side: Side, a: seq<Slot>, i: int, j: int)
    requires Tied(a) && 0 <= i < |a| && 0 <= j < |a|
    ensures !Less(side, a[i], a[j])
  {
    assert a[i] in a && a[j] in a;
  }

  lemma TiedSwapStays(side: Side, a: seq<Slot>)
    requires Tied(a) && a != []
    ensures !Sinks(side, Swapped(a, 0, |a| - 1), |a| - 1, 0)
  {
    var n := |a| - 1;
    var b := Swapped(a, 0, n);
    assert forall x :: x in b ==> x in a;
    if 1 < n {
      TiedNeverLess(side, b, PickChild(side, b, n, 0), 0);
    }
  }

  lemma SwapCut(a: seq<Slot>)
    requires a != []
    ensures Swapped(a, 0, |a| - 1)[..|a| - 1] == Rotated(a) && forall x :: x in Rotated(a) ==> x in a
  {
  }

  /** Among ties a pop brings the last slot to the root: the heap serves the first, then the last, then the
      last but one, and so on. */
  lemma TiesAreRotated(side: Side, a: seq<Slot>)
    requires Tied(a) && a != []
    ensures Pop(side, a) == Rotated(a) && Tied(Rotated(a))
  {
    hide Sinks, Rotated, Swapped;
    TiedSwapStays(side, a);
    SwapCut(a);
    DownUnfolds(side, Swapped(a, 0, |a| - 1), |a| - 1, 0);
  }

  /** And a push appends. */
  lemma TiesQueue(side: Side, a: seq<Slot>, x: Slot)
    requires Tied(a + [x])
    ensures Push(side, a, x) == a + [x]
  {
    TiedNeverLess(side, a + [x], |a|, Parent(|a|));
    UpUnfolds(side, a + [x], |a|);
  }

  // ---------- the stream ----------

  const SA := ExactBook.SlotFor(A)
  const SB := ExactBook.SlotFor(B)
  const SC := ExactBook.SlotFor(C)

  lemma Arrays()
    ensures Push(Sell, [], SA) == [SA] && Push(Sell, [SA], SB) == [SA, SB] && Push(Sell, [SA, SB], SC) == [SA, SB, SC]
    ensures Pop(Sell, [SA, SB, SC]) == [SC, SB] && Pop(Sell, [SC, SB]) == [SB]
  {
    hide Push, Pop;
    hide Tied, Rotated;
    AllTied();
    Rotations();
    TiesQueue(Sell, [], SA);
    TiesQueue(Sell, [SA], SB);
    TiesQueue(Sell, [SA, SB], SC);
    assert [] + [SA] == [SA] && [SA] + [SB] == [SA, SB] && [SA, SB] + [SC] == [SA, SB, SC];
    TiesAreRotated(Sell, [SA, SB, SC]);
    TiesAreRotated(Sell, [SC, SB]);
  }

  lemma AllTied()
    ensures Tied([] + [SA]) && Tied([SA] + [SB]) && Tied([SA, SB] + [SC]) && Tied([SA, SB, SC]) && Tied([SC, SB])
  {
  }

  lemma Rotations()
    ensures Rotated([SA, SB, SC]) == [SC, SB] && Rotated([SC, SB]) == [SB]
  {
    assert [SA, SB, SC][1..2] == [SB] && [SC, SB][1..1] == [];
  }

  const X0 := ExactBook.EMPTY
  const X1 := ExactBook.State(Book(map[], map["a" := A], {"a"}), [], [SA])
  const X2 := ExactBook.State(Book(map[], map["a" := A, "b" := B], {"a", "b"}), [], [SA, SB])
  const X3 := ExactBook.State(TIED, [], [SA, SB, SC])
  const X4 := ExactBook.State(Book(map[], map["b" := B, "c" := C], {"a", "b", "c"}), [], [SC, SB])
  const X5 := ExactBook.State(Book(map[], map["b" := B], {"a", "b", "c"}), [], [SB])
  const X6 := ExactBook.State(Book(map[], map[], {"a", "c"}), [], [])

  lemma FirstSteps()
    ensures ExactBook.Do(X0, Limit(Sell, A)) == (X1, Filled([]))
    ensures ExactBook.Do(X1, Limit(Sell, B)) == (X2, Filled([]))
    ensures ExactBook.Do(X2, Limit(Sell, C)) == (X3, Filled([]))
  {
    hide ExactBook.Do, Push;
    Arrays();
    Rests(X0, Sell, A);
    Rests(X1, Sell, B);
    Rests(X2, Sell, C);
    assert X0.book.asks["a" := A] == X1.book.asks && X0.book.ids + {"a"} == X1.book.ids;
    assert X1.book.asks["b" := B] == X2.book.asks && X1.book.ids + {"b"} == X2.book.ids;
    assert X2.book.asks["c" := C] == X3.book.asks && X2.book.ids + {"c"} == X3.book.ids;
  }

  lemma MiddleSteps()
    ensures ExactBook.Do(X3, Taking()[0]) == (X4, Witness.Answers()[0])
    ensures ExactBook.Do(X4, Taking()[1]) == (X5, Witness.Answers()[1])
  {
    hide ExactBook.Do, Pop;
    Arrays();
    TakesRoot(X3, Sell, "m1", A);
    TakesRoot(X4, Sell, "m2", C);
    assert X3.book.asks - {"a"} == X4.book.asks && X4.book.asks - {"c"} == X5.book.asks;
  }

  lemma LastSteps()
    ensures ExactBook.Do(X5, Taking()[2]) == (X6, Cancelled)
    ensures ExactBook.Do(X6, Taking()[3]).1 == Filled([])
  {
    assert ExactBook.Find([SB], "b") == 0;
    assert Remove(Sell, [SB], 0) == [];
    assert X5.book.asks - {"b"} == map[] && X5.book.ids - {"b"} == X6.book.ids;
    var none: Bag := map[];
    assert none - {"b"} == none;
  }

  /** The heap book on the stream: it takes `a`, then `c`, so that `b` is there to be cancelled and the last
      order finds nothing. */
  lemma HeapAnswers()
    ensures ExactBook.Answers(ExactBook.EMPTY, Placing() + Taking())
         == [Filled([]), Filled([]), Filled([])] + Witness.Answers()
  {
    hide ExactBook.Do, ExactBook.Answers;
    FirstSteps();
    MiddleSteps();
    LastSteps();
    var t := Taking();
    var p, q, r := Limit(Sell, A), Limit(Sell, B), Limit(Sell, C);
    var t3 := [t[3]] + [];
    var t2 := [t[2]] + t3;
    var t1 := [t[1]] + t2;
    var t0 := [t[0]] + t1;
    NothingMore(ExactBook.Do(X6, t[3]).0);
    DoThen(X6, t[3], []);
    DoThen(X5, t[2], t3);
    DoThen(X4, t[1], t2);
    DoThen(X3, t[0], t1);
    DoThen(X2, r, t0);
    DoThen(X1, q, [r] + t0);
    DoThen(X0, p, [q] + ([r] + t0));
    assert Placing() + t == [p] + ([q] + ([r] + t0));
  }

  /** Both engines run on the stream: the heap book gives its answers to it, the slice book its fills, and to
      the last order these are nothing and 5. */
  method EnginesPart() returns (outs: seq<Outcome>, fills: seq<int>)
    ensures outs == ExactBook.Answers(ExactBook.EMPTY, Placing() + Taking())
    ensures fills == Expected(Slices.EMPTY, Placing() + Taking())
    ensures |outs| == |fills| == 7 && outs[6] == Filled([]) && fills[6] == 5
  {
    var ops := Placing() + Taking();
    outs := Engine.RunBook(ops);
    fills := Engine.RunReplay(ops);
    HeapAnswers();
    SliceExpects();
  }

  /** The heap book's answers are legal and the slice book expects others. */
  lemma TiesAndCancelsDisagree()
    ensures LegalRun(EMPTY, Placing() + Taking(), ExactBook.Answers(ExactBook.EMPTY, Placing() + Taking()))
    ensures Expected(Slices.EMPTY, Placing() + Taking())
         != Reported(ExactBook.Answers(ExactBook.EMPTY, Placing() + Taking()))
  {
    ExactBook.EmptyIsGood();
    ExactBook.AnswersAreLegal(ExactBook.EMPTY, Placing() + Taking());
    HeapAnswers();
    SliceExpects();
    hide LegalRun, Expected, ExactBook.Answers;
    LastReported([Filled([]), Filled([]), Filled([])] + Witness.Answers());
  }

  lemma LastReported(outs: seq<Outcome>)
    requires outs != [] && outs[|outs| - 1] == Filled([])
    ensures |Reported(outs)| == |outs| && Reported(outs)[|outs| - 1] == 0
  {
    var n := |outs| - 1;
    assert outs == outs[..n] + [outs[n]];
    ReportedAppend(outs[..n], [outs[n]]);
    assert [outs[n]][1..] == [];
  }
}
