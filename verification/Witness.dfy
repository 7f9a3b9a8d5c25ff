/** Where the engines part: three sell orders with the same price and time. Once the first is taken,
    container/heap puts the last one on top while the slice book keeps arrival order; a cancel of the
    order that only one engine still holds then makes a later fill differ. */
module Witness {
  import opened Market
  import opened Bags
  import opened Reference
  import opened Runs
  import Slices

  const A := Rest("a", 10.0, 1, 5)
  const B := Rest("b", 10.0, 1, 5)
  const C := Rest("c", 10.0, 1, 5)

  lemma RestsQuietly(b: Book, r: Rest)
    requires r.id !in b.ids && b.bids == map[]
    ensures Legal(b, Limit(Sell, r), Filled([])) && Next(b, Limit(Sell, r), Filled([])) == Rested(b, Sell, r)
  {
    MatchIsLegal(b, Limit(Sell, r), [], map[], r.qty);
  }

  function Placing(): seq<Op> { [Limit(Sell, A), Limit(Sell, B), Limit(Sell, C)] }

  function Taking(): seq<Op> {
    [Op.Market(Buy, "m1", 5), Op.Market(Buy, "m2", 5), Op.Cancel("b"), Op.Market(Buy, "m3", 5)]
  }

  /** What the heap book answers to the second half. */
  function Answers(): seq<Outcome> {
    [Filled([Fill("m1", "a", 10.0, 5)]), Filled([Fill("m2", "c", 10.0, 5)]), Cancelled, Filled([])]
  }

  const TIED := Book(map[], map["a" := A, "b" := B, "c" := C], {"a", "b", "c"})

  /** What the slice book does with the same stream. */
  lemma SliceSteps()
    ensures Slices.Step(Slices.EMPTY, Limit(Sell, A)) == (Slices.State([], [A]), 0)
    ensures Slices.Step(Slices.State([], [A]), Limit(Sell, B)) == (Slices.State([], [A, B]), 0)
    ensures Slices.Step(Slices.State([], [A, B]), Limit(Sell, C)) == (Slices.State([], [A, B, C]), 0)
    ensures Slices.Step(Slices.State([], [A, B, C]), Taking()[0]) == (Slices.State([], [B, C]), 5)
    ensures Slices.Step(Slices.State([], [B, C]), Taking()[1]) == (Slices.State([], [C]), 5)
    ensures Slices.Step(Slices.State([], [C]), Taking()[2]) == (Slices.State([], [C]), 0)
    ensures Slices.Step(Slices.State([], [C]), Taking()[3]) == (Slices.State([], []), 5)
  {
    hide Slices.Step;
    SellQueued([], A);
    SellQueued([A], B);
    SellQueued([A, B], C);
    SellTaken(A, [B, C], "m1");
    SellTaken(B, [C], "m2");
    NotHeld([C], "b");
    SellTaken(C, [], "m3");
    assert [] + [A] == [A] && [A] + [B] == [A, B] && [A, B] + [C] == [A, B, C];
    assert [A] + [B, C] == [A, B, C] && [B] + [C] == [B, C] && [C] + [] == [C];
  }

  lemma NotHeld(s: seq<Rest>, id: string)
    requires forall i :: 0 <= i < |s| ==> s[i].id != id
    ensures Slices.Step(Slices.State([], s), Op.Cancel(id)) == (Slices.State([], s), 0)
  {
  }

  lemma SellQueued(s: seq<Rest>, r: Rest)
    requires r.qty > 0 && forall i :: 0 <= i < |s| ==> !Before(Sell, r, s[i])
    ensures Slices.Step(Slices.State([], s), Limit(Sell, r)) == (Slices.State([], s + [r]), 0)
  {
    Slices.InsertAt(Sell, s, r, |s|);
    assert s[..|s|] + [r] + s[|s|..] == s + [r];
  }

  lemma SellTaken(r: Rest, s: seq<Rest>, id: string)
    requires r.qty > 0
    ensures Slices.Step(Slices.State([], [r] + s), Op.Market(Buy, id, r.qty)) == (Slices.State([], s), r.qty)
  {
    assert ([r] + s)[1..] == s;
    assert Slices.Take(Sell, s, 0, Everything) == (s, 0);
    assert Slices.Take(Sell, [r] + s, r.qty, Everything) == (s, r.qty);
  }

  /** The slice book takes `a`, then `b`, and keeps `c` for the last market order. */
  lemma SliceExpects()
    ensures Expected(Slices.EMPTY, Placing() + Taking()) == [0, 0, 0, 5, 5, 0, 5]
  {
    hide Slices.Step, Expected;
    SliceSteps();
    var t := Taking();
    var p, q, r := Limit(Sell, A), Limit(Sell, B), Limit(Sell, C);
    var t3 := [t[3]] + [];
    var t2 := [t[2]] + t3;
    var t1 := [t[1]] + t2;
    var t0 := [t[0]] + t1;
    NoneExpected(Slices.State([], []));
    ExpectedCons(Slices.State([], [C]), t[3], []);
    ExpectedCons(Slices.State([], [C]), t[2], t3);
    ExpectedCons(Slices.State([], [B, C]), t[1], t2);
    ExpectedCons(Slices.State([], [A, B, C]), t[0], t1);
    ExpectedCons(Slices.State([], [A, B]), r, t0);
    ExpectedCons(Slices.State([], [A]), q, [r] + t0);
    ExpectedCons(Slices.EMPTY, p, [q] + ([r] + t0));
    assert Placing() + t == [p] + ([q] + ([r] + t0));
  }
}
