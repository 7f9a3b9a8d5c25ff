/** Exactly when the heap book itself agrees with the slice book: wherever two resting orders of one side tie,
    some commands make the heap serve the later one first. */
module HeapTies {
  import opened Market
  import opened Bags
  import opened BinaryHeap
  import opened Reference
  import opened Agreement
  import opened Runs
  import opened Ties
  import ExactBook
  import Slices

  /** The heap book and the slice book fill alike on every continuation that adds no tie and reuses no id. */
  ghost predicate HeapAgrees(x: ExactBook.State, sb: Slices.State) {
    forall ops :: Distinct(ops) && Clear(x.book, ops) ==> Expected(sb, ops) == Reported(ExactBook.Answers(x, ops))
  }

  // ---------- streams one after the other ----------

  lemma {:induction false} ExpectedAppend(sb: Slices.State, a: seq<Op>, b: seq<Op>)
    ensures Expected(sb, a + b) == Expected(sb, a) + Expected(Replay(sb, a), b) && |Expected(sb, a)| == |a|
    decreases |a|
  {
    if a == [] {
      assert a + b == b;
    } else {
      assert (a + b)[1..] == a[1..] + b;
      ExpectedAppend(Slices.Step(sb, a[0]).0, a[1..], b);
    }
  }

  lemma {:induction false} AnswersAppend(x: ExactBook.State, a: seq<Op>, b: seq<Op>)
    ensures ExactBook.Answers(x, a + b) == ExactBook.Answers(x, a) + ExactBook.Answers(ExactBook.DoAll(x, a), b)
    ensures |ExactBook.Answers(x, a)| == |a|
    decreases |a|
  {
    hide ExactBook.Do;
    if a == [] {
      assert a + b == b;
    } else {
      assert (a + b)[1..] == a[1..] + b;
      AnswersAppend(ExactBook.Do(x, a[0]).0, a[1..], b);
    }
  }

  lemma {:induction false} ReportedAppend(a: seq<Outcome>, b: seq<Outcome>)
    ensures Reported(a + b) == Reported(a) + Reported(b) && |Reported(a)| == |a|
    decreases |a|
  {
    if a == [] {
      assert a + b == b;
    } else {
      assert (a + b)[1..] == a[1..] + b;
      ReportedAppend(a[1..], b);
    }
  }

  lemma DifferentTails(xs: seq<int>, xs': seq<int>, ys: seq<int>, zs: seq<int>)
    requires |xs| == |xs'| && ys != zs
    ensures xs + ys != xs' + zs
  {
    assert (xs + ys)[|xs|..] == ys && (xs' + zs)[|xs|..] == zs;
  }

  /** Engines that differ after a prefix differ. */
  lemma DifferLater(x: ExactBook.State, sb: Slices.State, a: seq<Op>, b: seq<Op>)
    requires Expected(Replay(sb, a), b) != Reported(ExactBook.Answers(ExactBook.DoAll(x, a), b))
    ensures Expected(sb, a + b) != Reported(ExactBook.Answers(x, a + b))
  {
    hide Expected, Reported, Replay, ExactBook.Answers, ExactBook.DoAll;
    ExpectedAppend(sb, a, b);
    AnswersAppend(x, a, b);
    ReportedAppend(ExactBook.Answers(x, a), ExactBook.Answers(ExactBook.DoAll(x, a), b));
    DifferentTails(Expected(sb, a), Reported(ExactBook.Answers(x, a)), Expected(Replay(sb, a), b),
                   Reported(ExactBook.Answers(ExactBook.DoAll(x, a), b)));
  }

  lemma DoThen(x: ExactBook.State, op: Op, ops: seq<Op>)
    ensures ExactBook.Answers(x, [op] + ops)
         == [ExactBook.Do(x, op).1] + ExactBook.Answers(ExactBook.Do(x, op).0, ops)
    ensures ExactBook.DoAll(x, [op] + ops) == ExactBook.DoAll(ExactBook.Do(x, op).0, ops)
  {
    hide ExactBook.Do;
    assert ([op] + ops)[1..] == ops;
  }

  lemma StepThen(sb: Slices.State, op: Op, ops: seq<Op>)
    ensures Replay(sb, [op] + ops) == Replay(Slices.Step(sb, op).0, ops)
  {
    hide Slices.Step;
    assert ([op] + ops)[1..] == ops;
  }

  // ---------- single commands ----------

  /** A market order of the quantity of the order at the root takes that order whole. */
  lemma TakesRoot(x: ExactBook.State, side: Side, m: string, r: Rest)
    requires m !in x.book.ids && x.Of(side) != [] && x.Of(side)[0] == ExactBook.SlotFor(r)
    requires r.id in x.book.Of(side) && x.book.Of(side)[r.id] == r && r.qty > 0
    ensures ExactBook.Do(x, Op.Market(side.Opposite(), m, r.qty))
         == (x.With(side, Pop(side, x.Of(side))).(book := x.book.With(side, x.book.Of(side) - {r.id})),
             Filled([FillOf(side, r.id, m, r.price, r.qty)]))
  {
    hide Pop;
    var f := FillOf(side, r.id, m, r.price, r.qty);
    assert [f] + [] == [f];
    assert side.Opposite().Opposite() == side;
    var w := ExactBook.Sweep(side, Pop(side, x.Of(side)), x.book.Of(side) - {r.id}, m, 0, Everything);
    assert w == ExactBook.Swept(Pop(side, x.Of(side)), x.book.Of(side) - {r.id}, [], 0);
  }

  /** A limit order against an empty side rests. */
  lemma Rests(x: ExactBook.State, side: Side, r: Rest)
    requires r.id !in x.book.ids && x.Of(side.Opposite()) == [] && r.qty > 0
    ensures ExactBook.Do(x, Limit(side, r)) == (ExactBook.Rested(x, side, r), Filled([]))
  {
    hide Push;
    assert r.(qty := r.qty) == r;
    assert ExactBook.Taken(x, Limit(side, r)) == x;
  }

  // ---------- the arrays of the prelude ----------

  lemma PushFirst(side: Side, p: Slot, q: Slot, c: Slot)
    requires Less(side, c, p)
    ensures Push(side, [p, q], c) == [c, q, p]
  {
    assert [p, q] + [c] == [p, q, c];
    assert Swapped([p, q, c], 0, 2) == [c, q, p];
    UpUnfolds(side, [p, q, c], 2);
    UpUnfolds(side, [c, q, p], 0);
  }

  lemma PushLast(side: Side, c: Slot, q: Slot, p: Slot, d: Slot)
    requires !Less(side, d, q)
    ensures Push(side, [c, q, p], d) == [c, q, p, d]
  {
    assert [c, q, p] + [d] == [c, q, p, d];
    UpUnfolds(side, [c, q, p, d], 3);
  }

  lemma PopToSecond(side: Side, c: Slot, q: Slot, p: Slot, d: Slot)
    requires !Less(side, p, q) && Less(side, q, d)
    ensures Pop(side, [c, q, p, d]) == [q, d, p]
  {
    var b := Swapped([c, q, p, d], 0, 3);
    assert b == [d, q, p, c];
    assert PickChild(side, b, 3, 0) == 1 && Sinks(side, b, 3, 0);
    DownUnfolds(side, b, 3, 0);
    assert Swapped(b, 0, 1) == [q, d, p, c];
    DownUnfolds(side, [q, d, p, c], 3, 1);
  }

  lemma RemoveSecond(side: Side, q: Slot, d: Slot, p: Slot)
    requires !Less(side, p, q)
    ensures Remove(side, [q, d, p], 1) == [q, p]
  {
    var b := Swapped([q, d, p], 1, 2);
    assert b == [q, p, d];
    assert !Sinks(side, b, 2, 1);
    UpUnfolds(side, b, 1);
  }

  lemma PopToLast(side: Side, q: Slot, p: Slot)
    ensures Pop(side, [q, p]) == [p]
  {
    var b := Swapped([q, p], 0, 1);
    assert b == [p, q];
    DownUnfolds(side, b, 1, 0);
  }

  // ---------- probing two tied orders ----------

  /** The heap holds the two tied orders, the later one `v` at its root. */
  ghost predicate LaterFirst(x: ExactBook.State, side: Side, u: Rest, v: Rest) {
    && x.Of(side) == [ExactBook.SlotFor(v), ExactBook.SlotFor(u)]
    && x.book.Of(side) == map[u.id := u, v.id := v] && u.id != v.id && u.qty > 0 && v.qty > 0
    && v.id in x.book.ids && x.Of(side.Opposite()) == [] && x.book.Of(side.Opposite()) == map[]
  }

  lemma ProbeAnswered(x: ExactBook.State, side: Side, m: string, u: Rest, v: Rest)
    requires LaterFirst(x, side, u, v) && m !in x.book.ids
    ensures ExactBook.Answers(x, Probe(side, m, u, v)) == ProbeAnswers(side, m, u, v)
  {
    hide ExactBook.Do, Pop;
    var op1, op2, op3 := Op.Market(side.Opposite(), m, v.qty), Op.Cancel(v.id), Op.Market(side.Opposite(), m, u.qty);
    TakesRoot(x, side, m, v);
    PopToLast(side, ExactBook.SlotFor(v), ExactBook.SlotFor(u));
    var x1 := x.With(side, [ExactBook.SlotFor(u)]).(book := x.book.With(side, map[u.id := u]));
    assert x.book.Of(side) - {v.id} == map[u.id := u];
    assert ExactBook.Do(x, op1).0 == x1;
    CancelsFilled(x1, side, u, v.id);
    var x2 := x1.(book := x1.book.(ids := x1.book.ids - {v.id}));
    TakesRoot(x2, side, m, u);
    DoThen(x, op1, [op2] + ([op3] + []));
    DoThen(x1, op2, [op3] + []);
    DoThen(x2, op3, []);
  }

  lemma CancelsFilled(x: ExactBook.State, side: Side, u: Rest, id: string)
    requires x.Of(side) == [ExactBook.SlotFor(u)] && x.Of(side.Opposite()) == [] && u.id != id && id in x.book.ids
    requires x.book.Of(side) == map[u.id := u] && x.book.Of(side.Opposite()) == map[]
    ensures ExactBook.Do(x, Op.Cancel(id)) == (x.(book := x.book.(ids := x.book.ids - {id})), Cancelled)
  {
    assert x.book.bids - {id} == x.book.bids && x.book.asks - {id} == x.book.asks;
    assert ExactBook.Find(x.bids, id) == |x.bids| && ExactBook.Find(x.asks, id) == |x.asks|;
  }

  lemma ProbeDiffers(x: ExactBook.State, sb: Slices.State, side: Side, m: string, u: Rest, v: Rest)
    requires LaterFirst(x, side, u, v) && m !in x.book.ids
    requires sb.Of(side) == [u, v] && sb.Of(side.Opposite()) == []
    ensures Expected(sb, Probe(side, m, u, v)) != Reported(ExactBook.Answers(x, Probe(side, m, u, v)))
  {
    hide LaterFirst, Expected, Reported, ExactBook.Answers;
    assert u.id != v.id && u.qty > 0 && v.qty > 0 by { Parties(x, side, u, v); }
    ProbeAnswered(x, side, m, u, v);
    ProbeExpected(sb, side, m, u, v);
    ProbeReported(side, m, u, v);
  }

  lemma Parties(x: ExactBook.State, side: Side, u: Rest, v: Rest)
    requires LaterFirst(x, side, u, v)
    ensures u.id != v.id && u.qty > 0 && v.qty > 0
  {
  }

  lemma ReportedCons(out: Outcome, outs: seq<Outcome>)
    ensures Reported([out] + outs) == [Traded(FillsOf(out))] + Reported(outs)
  {
    assert ([out] + outs)[1..] == outs;
  }

  lemma ProbeReported(side: Side, m: string, u: Rest, v: Rest)
    ensures |Reported(ProbeAnswers(side, m, u, v))| == 3 && Reported(ProbeAnswers(side, m, u, v))[2] == u.qty
  {
    var f, g := FillOf(side, v.id, m, v.price, v.qty), FillOf(side, u.id, m, u.price, u.qty);
    assert Traded([g]) == u.qty by {
      assert [g][1..] == [];
    }
    hide Reported;
    assert Reported([]) == [] by { EmptyRun(EMPTY); }
    ReportedCons(Filled([g]), []);
    ReportedCons(Cancelled, [Filled([g])] + []);
    ReportedCons(Filled([f]), [Cancelled] + ([Filled([g])] + []));
  }

  // ---------- bringing the later order to the root ----------

  /** Rest a better order and a worse one, take the better, cancel the worse. */
  function Prelude(side: Side, c: Rest, d: Rest, m: string): seq<Op> {
    [Limit(side, c)] + ([Limit(side, d)] + ([Op.Market(side.Opposite(), m, c.qty)] + ([Op.Cancel(d.id)] + [])))
  }

  /** An order better than two tied ones, and one worse; all ids new. */
  ghost predicate Around(side: Side, u: Rest, v: Rest, c: Rest, d: Rest) {
    && Tie(u, v) && u.id != v.id && c.id != d.id && c.qty > 0 && d.qty > 0
    && Before(side, c, u) && Before(side, u, d) && Before(side, c, d)
    && c.id != u.id && c.id != v.id && d.id != u.id && d.id != v.id
  }

  /** The heap holds the two tied orders, the earlier one `u` at its root, and nothing else rests. */
  ghost predicate EarlierFirst(x: ExactBook.State, side: Side, u: Rest, v: Rest) {
    && x.Of(side) == [ExactBook.SlotFor(u), ExactBook.SlotFor(v)]
    && x.book.Of(side) == map[u.id := u, v.id := v] && u.id != v.id && u.qty > 0 && v.qty > 0
    && u.id in x.book.ids && v.id in x.book.ids
    && x.Of(side.Opposite()) == [] && x.book.Of(side.Opposite()) == map[]
  }

  lemma AroundSlots(side: Side, u: Rest, v: Rest, c: Rest, d: Rest)
    requires Around(side, u, v, c, d)
    ensures var p, q, s, t := ExactBook.SlotFor(u), ExactBook.SlotFor(v), ExactBook.SlotFor(c), ExactBook.SlotFor(d);
      && Push(side, [p, q], s) == [s, q, p] && Push(side, [s, q, p], t) == [s, q, p, t]
      && Pop(side, [s, q, p, t]) == [q, t, p] && Remove(side, [q, t, p], 1) == [q, p]
  {
    hide Push, Pop, Remove;
    var p, q, s, t := ExactBook.SlotFor(u), ExactBook.SlotFor(v), ExactBook.SlotFor(c), ExactBook.SlotFor(d);
    PushFirst(side, p, q, s);
    PushLast(side, s, q, p, t);
    PopToSecond(side, s, q, p, t);
    RemoveSecond(side, q, t, p);
  }

  lemma PreludeRests(x: ExactBook.State, side: Side, u: Rest, v: Rest, c: Rest, d: Rest)
    requires EarlierFirst(x, side, u, v) && Around(side, u, v, c, d)
    requires c.id !in x.book.ids && d.id !in x.book.ids
    ensures var p, q, s, t := ExactBook.SlotFor(u), ExactBook.SlotFor(v), ExactBook.SlotFor(c), ExactBook.SlotFor(d);
      var y := ExactBook.Do(ExactBook.Do(x, Limit(side, c)).0, Limit(side, d)).0;
      && y.Of(side) == [s, q, p, t]
      && y.book.Of(side) == map[u.id := u, v.id := v, c.id := c, d.id := d]
      && y.Of(side.Opposite()) == [] && y.book.Of(side.Opposite()) == map[]
      && y.book.ids == x.book.ids + {c.id, d.id}
  {
    hide Push, Pop, Remove, ExactBook.Do;
    AroundSlots(side, u, v, c, d);
    Rests(x, side, c);
    var x1 := ExactBook.Rested(x, side, c);
    assert x.book.Of(side)[c.id := c] == map[u.id := u, v.id := v, c.id := c];
    Rests(x1, side, d);
    assert x1.book.Of(side)[d.id := d] == map[u.id := u, v.id := v, c.id := c, d.id := d];
    assert x.book.ids + {c.id} + {d.id} == x.book.ids + {c.id, d.id};
  }

  lemma PreludeClears(y: ExactBook.State, side: Side, u: Rest, v: Rest, c: Rest, d: Rest, m: string)
    requires Around(side, u, v, c, d) && m !in y.book.ids && v.id in y.book.ids && d.id in y.book.ids
    requires var p, q, s, t := ExactBook.SlotFor(u), ExactBook.SlotFor(v), ExactBook.SlotFor(c), ExactBook.SlotFor(d);
      y.Of(side) == [s, q, p, t]
    requires y.book.Of(side) == map[u.id := u, v.id := v, c.id := c, d.id := d] && u.qty > 0 && v.qty > 0
    requires y.Of(side.Opposite()) == [] && y.book.Of(side.Opposite()) == map[]
    ensures var z := ExactBook.Do(ExactBook.Do(y, Op.Market(side.Opposite(), m, c.qty)).0, Op.Cancel(d.id)).0;
      LaterFirst(z, side, u, v) && z.book.ids == y.book.ids - {d.id}
  {
    hide Push, Pop, Remove, ExactBook.Do, Before;
    AroundSlots(side, u, v, c, d);
    TakesRoot(y, side, m, c);
    var y1 := ExactBook.Do(y, Op.Market(side.Opposite(), m, c.qty)).0;
    assert y.book.Of(side) - {c.id} == map[u.id := u, v.id := v, d.id := d];
    CancelsSecond(y1, side, u, v, d);
  }

  lemma CancelsSecond(y: ExactBook.State, side: Side, u: Rest, v: Rest, d: Rest)
    requires d.id in y.book.ids && u.id != v.id && d.id != u.id && d.id != v.id
    requires y.Of(side) == [ExactBook.SlotFor(v), ExactBook.SlotFor(d), ExactBook.SlotFor(u)]
    requires Remove(side, y.Of(side), 1) == [ExactBook.SlotFor(v), ExactBook.SlotFor(u)]
    requires y.book.Of(side) == map[u.id := u, v.id := v, d.id := d]
    requires y.Of(side.Opposite()) == [] && y.book.Of(side.Opposite()) == map[]
    ensures var z := ExactBook.Do(y, Op.Cancel(d.id)).0;
      && z.Of(side) == [ExactBook.SlotFor(v), ExactBook.SlotFor(u)] && z.Of(side.Opposite()) == []
      && z.book.Of(side) == map[u.id := u, v.id := v] && z.book.Of(side.Opposite()) == map[]
      && z.book.ids == y.book.ids - {d.id}
  {
    hide Remove;
    assert ExactBook.Find(y.Of(side), d.id) == 1;
    assert y.book.Of(side) - {d.id} == map[u.id := u, v.id := v];
    var none: Bag := map[];
    assert none - {d.id} == none;
  }

  lemma PreludeSwaps(x: ExactBook.State, side: Side, u: Rest, v: Rest, c: Rest, d: Rest, m: string)
    requires EarlierFirst(x, side, u, v) && Around(side, u, v, c, d)
    requires c.id !in x.book.ids && d.id !in x.book.ids && m !in x.book.ids && m != c.id && m != d.id
    ensures var z := ExactBook.DoAll(x, Prelude(side, c, d, m));
      LaterFirst(z, side, u, v) && m !in z.book.ids
  {
    hide ExactBook.Do, ExactBook.DoAll, Around;
    var a, b, k, e := Limit(side, c), Limit(side, d), Op.Market(side.Opposite(), m, c.qty), Op.Cancel(d.id);
    var x1 := ExactBook.Do(x, a).0;
    var x2 := ExactBook.Do(x1, b).0;
    var x3 := ExactBook.Do(x2, k).0;
    var x4 := ExactBook.Do(x3, e).0;
    PreludeRests(x, side, u, v, c, d);
    PreludeClears(x2, side, u, v, c, d, m);
    DoThen(x, a, [b] + ([k] + ([e] + [])));
    DoThen(x1, b, [k] + ([e] + []));
    DoThen(x2, k, [e] + []);
    DoThen(x3, e, []);
    NothingMore(x4);
  }

  lemma NothingMore(x: ExactBook.State)
    ensures ExactBook.DoAll(x, []) == x && ExactBook.Answers(x, []) == []
  {
  }

  /** The slice book comes out of the prelude as it went in. */
  lemma PreludeReplayed(sb: Slices.State, side: Side, u: Rest, v: Rest, c: Rest, d: Rest, m: string)
    requires Around(side, u, v, c, d) && sb.Of(side) == [u, v] && sb.Of(side.Opposite()) == []
    ensures Replay(sb, Prelude(side, c, d, m)) == sb
  {
    var a, b, k, e := Limit(side, c), Limit(side, d), Op.Market(side.Opposite(), m, c.qty), Op.Cancel(d.id);
    PreludeSlices(sb, side, u, v, c, d, m);
    hide Slices.Step;
    StepThen(sb, a, [b] + ([k] + ([e] + [])));
    StepThen(sb.With(side, [c, u, v]), b, [k] + ([e] + []));
    StepThen(sb.With(side, [c, u, v, d]), k, [e] + []);
    StepThen(sb.With(side, [u, v, d]), e, []);
    assert sb.With(side, [u, v]) == sb;
  }

  lemma PreludeSlices(sb: Slices.State, side: Side, u: Rest, v: Rest, c: Rest, d: Rest, m: string)
    requires Around(side, u, v, c, d) && sb.Of(side) == [u, v] && sb.Of(side.Opposite()) == []
    ensures Slices.Step(sb, Limit(side, c)).0 == sb.With(side, [c, u, v])
    ensures Slices.Step(sb.With(side, [c, u, v]), Limit(side, d)).0 == sb.With(side, [c, u, v, d])
    ensures Slices.Step(sb.With(side, [c, u, v, d]), Op.Market(side.Opposite(), m, c.qty)).0 == sb.With(side, [u, v, d])
    ensures Slices.Step(sb.With(side, [u, v, d]), Op.Cancel(d.id)).0 == sb.With(side, [u, v])
  {
    hide Slices.Step;
    assert forall x :: x in [u, v] ==> Before(side, c, x);
    assert forall x :: x in [c, u, v] ==> !Before(side, d, x);
    hide Before;
    RestsFirst(sb, side, c, [u, v]);
    RestsLast(sb.With(side, [c, u, v]), side, d, [c, u, v]);
    assert [c] + [u, v] == [c, u, v] && [c, u, v] + [d] == [c, u, v, d] && [c] + [u, v, d] == [c, u, v, d];
    FirstTaken(sb, side, c, [u, v, d], m);
    CancelsLast(sb.With(side, [u, v, d]), side, d.id, [u, v]);
  }

  lemma RestsFirst(sb: Slices.State, side: Side, r: Rest, s: seq<Rest>)
    requires sb.Of(side) == s && sb.Of(side.Opposite()) == [] && r.qty > 0 && forall x :: x in s ==> Before(side, r, x)
    ensures Slices.Step(sb, Limit(side, r)).0 == sb.With(side, [r] + s)
  {
    hide Slices.Step;
    assert [] + s == s && [] + [r] + s == [r] + s;
    RestsInSlices(sb, side, r, [], s);
  }

  lemma RestsLast(sb: Slices.State, side: Side, r: Rest, s: seq<Rest>)
    requires sb.Of(side) == s && sb.Of(side.Opposite()) == [] && r.qty > 0 && forall x :: x in s ==> !Before(side, r, x)
    ensures Slices.Step(sb, Limit(side, r)).0 == sb.With(side, s + [r])
  {
    hide Slices.Step;
    assert s + [] == s && s + [r] + [] == s + [r];
    RestsInSlices(sb, side, r, s, []);
  }

  lemma RestsInSlices(sb: Slices.State, side: Side, r: Rest, front: seq<Rest>, back: seq<Rest>)
    requires sb.Of(side) == front + back && sb.Of(side.Opposite()) == [] && r.qty > 0
    requires forall x :: x in front ==> !Before(side, r, x)
    requires forall x :: x in back ==> Before(side, r, x)
    ensures Slices.Step(sb, Limit(side, r)).0 == sb.With(side, front + [r] + back)
  {
    var s := front + back;
    Slices.InsertAt(side, s, r, |front|);
    assert s[..|front|] == front && s[|front|..] == back;
    assert r.(qty := r.qty - 0) == r;
  }

  lemma FirstTaken(sb: Slices.State, side: Side, c: Rest, s: seq<Rest>, m: string)
    requires c.qty > 0
    ensures Slices.Step(sb.With(side, [c] + s), Op.Market(side.Opposite(), m, c.qty)).0 == sb.With(side, s)
  {
    assert ([c] + s)[1..] == s;
    assert Slices.Take(side, s, 0, Everything) == (s, 0);
    assert side.Opposite().Opposite() == side;
  }

  // ---------- from any book with a tie ----------

  /** A price above every price of the bag, and below whose negation there is none. */
  lemma {:induction false} BeyondAll(bag: Bag) returns (p: real)
    ensures p > 0.0 && forall id :: id in bag ==> -p < bag[id].price < p
    decreases |bag|
  {
    if bag == map[] {
      p := 1.0;
    } else {
      var id :| id in bag;
      Fewer(bag, id);
      var q := BeyondAll(bag - {id});
      var x := bag[id].price;
      p := q + 1.0 + if x < 0.0 then -x else x;
      forall k | k in bag ensures -p < bag[k].price < p {
        assert k != id ==> k in bag - {id} && (bag - {id})[k] == bag[k];
      }
    }
  }

  /** Commands of the construction: cancels, a market order, and the two orders around the tie. */
  ghost predicate Tools(ops: seq<Op>, side: Side, c: Rest, d: Rest, m: string) {
    && (forall op :: op in ops ==>
          op.Cancel? || (op.Market? && op.id == m) || op == Limit(side, c) || op == Limit(side, d))
    && forall i, j :: 0 <= i < j < |ops| && ops[i].Limit? && ops[j].Limit? ==>
         ops[i] == Limit(side, c) && ops[j] == Limit(side, d)
  }

  lemma ToolsAreClear(b: Book, ops: seq<Op>, side: Side, c: Rest, d: Rest, m: string)
    requires Tools(ops, side, c, d, m) && m !in b.ids && c.id !in b.ids && d.id !in b.ids
    requires m != c.id && m != d.id && c.id != d.id && !Tie(c, d)
    requires NewKey(b.Of(side), c) && NewKey(b.Of(side), d)
    ensures Distinct(ops) && Clear(b, ops)
  {
    assert forall i :: 0 <= i < |ops| ==> ops[i] in ops;
  }

  lemma OneMoreTool(ops: seq<Op>, id: string, side: Side, c: Rest, d: Rest, m: string)
    requires Tools(ops, side, c, d, m)
    ensures Tools([Op.Cancel(id)] + ops, side, c, d, m)
  {
    var all := [Op.Cancel(id)] + ops;
    assert forall i :: 0 < i < |all| ==> all[i] == ops[i - 1];
  }

  lemma ProbeTools(side: Side, c: Rest, d: Rest, m: string, u: Rest, v: Rest)
    ensures Tools(Probe(side, m, u, v), side, c, d, m)
    ensures Tools(Prelude(side, c, d, m) + Probe(side, m, u, v), side, c, d, m)
  {
    var p := Probe(side, m, u, v);
    assert p == [Op.Market(side.Opposite(), m, v.qty), Op.Cancel(v.id), Op.Market(side.Opposite(), m, u.qty)];
    var q := Prelude(side, c, d, m) + p;
    assert q == [Limit(side, c), Limit(side, d), Op.Market(side.Opposite(), m, c.qty), Op.Cancel(d.id),
                 p[0], p[1], p[2]];
  }

  /** Nothing rests but two tied orders. */
  ghost predicate OnlyThese(b: Book, side: Side, x: Rest, y: Rest) {
    && b.Of(side) == map[x.id := x, y.id := y] && x.id != y.id && Tie(x, y)
    && b.Of(side.Opposite()) == map[]
  }

  lemma TwoSlots(side: Side, a: seq<Slot>, x: Rest, y: Rest)
    requires ExactBook.Heaps(side, a, map[x.id := x, y.id := y]) && x.id != y.id
    ensures a == [ExactBook.SlotFor(x), ExactBook.SlotFor(y)] || a == [ExactBook.SlotFor(y), ExactBook.SlotFor(x)]
  {
    var s, t := ExactBook.SlotFor(x), ExactBook.SlotFor(y);
    var bag := map[x.id := x, y.id := y];
    assert x.id in bag && y.id in bag;
    assert s in a && t in a && s != t;
    assert multiset(a) == multiset{s, t} by {
      forall z ensures multiset(a)[z] == multiset{s, t}[z] {
        assert z in a <==> z in multiset(a);
      }
    }
    assert |a| == |multiset(a)| == 2;
    assert a == [a[0], a[1]];
  }

  lemma NoSlots(side: Side, a: seq<Slot>)
    requires ExactBook.Heaps(side, a, map[])
    ensures a == []
  {
    EmptyOrNot(a);
  }

  lemma PartTheseTwo(x: ExactBook.State, sb: Slices.State, side: Side, y: Rest, z: Rest, c: Rest, d: Rest, m: string)
    returns (ops: seq<Op>)
    requires ExactBook.Good(x) && ListsBoth(x.book, sb) && OnlyThese(x.book, side, y, z)
    requires c.id !in x.book.ids && d.id !in x.book.ids && m !in x.book.ids && m != c.id && m != d.id
    requires Around(side, y, z, c, d)
    ensures Tools(ops, side, c, d, m) && Expected(sb, ops) != Reported(ExactBook.Answers(x, ops))
  {
    hide Tools, Expected, Reported, ExactBook.Answers, Replay, ExactBook.DoAll;
    var u, v := TwoListed(x, sb, side, y, z);
    AroundEither(side, y, z, c, d);
    ProbeTools(side, c, d, m, u, v);
    if x.Of(side) == [ExactBook.SlotFor(v), ExactBook.SlotFor(u)] {
      ops := Probe(side, m, u, v);
      ProbeDiffers(x, sb, side, m, u, v);
    } else {
      ops := Prelude(side, c, d, m) + Probe(side, m, u, v);
      PreludeSwaps(x, side, u, v, c, d, m);
      PreludeReplayed(sb, side, u, v, c, d, m);
      ProbeDiffers(ExactBook.DoAll(x, Prelude(side, c, d, m)), sb, side, m, u, v);
      DifferLater(x, sb, Prelude(side, c, d, m), Probe(side, m, u, v));
    }
  }

  lemma AroundEither(side: Side, u: Rest, v: Rest, c: Rest, d: Rest)
    requires Around(side, u, v, c, d)
    ensures Around(side, v, u, c, d)
  {
  }

  /** The list shows the two in some order, and so does the array. */
  lemma TwoListed(x: ExactBook.State, sb: Slices.State, side: Side, y: Rest, z: Rest) returns (u: Rest, v: Rest)
    requires ExactBook.Good(x) && ListsBoth(x.book, sb) && OnlyThese(x.book, side, y, z)
    ensures (u == y && v == z) || (u == z && v == y)
    ensures sb.Of(side) == [u, v] && sb.Of(side.Opposite()) == []
    ensures EarlierFirst(x, side, u, v) || LaterFirst(x, side, u, v)
  {
    var bag := x.book.Of(side);
    assert y.id in bag && bag[y.id] == y && z.id in bag && bag[z.id] == z;
    assert y.qty > 0 && z.qty > 0 && y.id in x.book.ids && z.id in x.book.ids;
    OnlyTwo(side, sb.Of(side), bag, y, z);
    u, v := sb.Of(side)[0], sb.Of(side)[1];
    assert bag == map[u.id := u, v.id := v];
    EmptyListed(side.Opposite(), sb.Of(side.Opposite()), x.book.Of(side.Opposite()));
    TwoSlots(side, x.Of(side), u, v);
    NoSlots(side.Opposite(), x.Of(side.Opposite()));
  }

  lemma EmptyListed(side: Side, s: seq<Rest>, bag: Bag)
    requires Lists(side, s, bag) && bag == map[]
    ensures s == []
  {
    EmptyOrNot(s);
  }

  /** Cancel everything but the two tied orders, then part the engines over them. */
  lemma {:induction false} HeapPartsOverTie(x: ExactBook.State, sb: Slices.State, side: Side, y: Rest, z: Rest,
                                            c: Rest, d: Rest, m: string) returns (ops: seq<Op>)
    requires ExactBook.Good(x) && ListsBoth(x.book, sb)
    requires y.id in x.book.Of(side) && x.book.Of(side)[y.id] == y
    requires z.id in x.book.Of(side) && x.book.Of(side)[z.id] == z
    requires c.id !in x.book.ids && d.id !in x.book.ids && m !in x.book.ids && m != c.id && m != d.id
    requires Around(side, y, z, c, d)
    ensures Tools(ops, side, c, d, m) && Expected(sb, ops) != Reported(ExactBook.Answers(x, ops))
    decreases |x.book.bids| + |x.book.asks|
  {
    hide Tools, Expected, Reported, ExactBook.Answers, Around, ListsBoth, ExactBook.Heaps;
    if k :| (k in x.book.bids || k in x.book.asks) && !(k in x.book.Of(side) && (k == y.id || k == z.id)) {
      var op := Op.Cancel(k);
      ExactBook.DoRefines(x, op);
      var x' := ExactBook.Do(x, op).0;
      CancelLists(x.book, sb, k);
      FewerRest(x.book, k);
      OtherId(x.book, side, y, z, k);
      var rest := HeapPartsOverTie(x', Slices.Step(sb, op).0, side, y, z, c, d, m);
      ops := [op] + rest;
      OneMoreTool(rest, k, side, c, d, m);
      DifferByOne(x, sb, op, rest);
    } else {
      Alone(x.book, side, y, z, c, d);
      ops := PartTheseTwo(x, sb, side, y, z, c, d, m);
    }
  }

  lemma OtherId(b: Book, side: Side, y: Rest, z: Rest, k: string)
    requires Sound(b) && (k in b.bids || k in b.asks) && !(k in b.Of(side) && (k == y.id || k == z.id))
    requires y.id in b.Of(side) && z.id in b.Of(side)
    ensures k != y.id && k != z.id
  {
  }

  lemma FewerRest(b: Book, k: string)
    requires Sound(b) && (k in b.bids || k in b.asks)
    ensures |b.bids - {k}| + |b.asks - {k}| < |b.bids| + |b.asks|
  {
    if k in b.bids {
      Fewer(b.bids, k);
      assert b.asks - {k} == b.asks;
    } else {
      Fewer(b.asks, k);
      assert b.bids - {k} == b.bids;
    }
  }

  lemma Alone(b: Book, side: Side, y: Rest, z: Rest, c: Rest, d: Rest)
    requires Around(side, y, z, c, d)
    requires y.id in b.Of(side) && b.Of(side)[y.id] == y && z.id in b.Of(side) && b.Of(side)[z.id] == z
    requires forall k :: k in b.bids || k in b.asks ==> k in b.Of(side) && (k == y.id || k == z.id)
    requires Sound(b)
    ensures OnlyThese(b, side, y, z)
  {
    assert forall k :: k in b.Of(side) ==> k in b.bids || k in b.asks;
    assert b.Of(side) == map[y.id := y, z.id := z];
    assert forall k :: k in b.Of(side.Opposite()) ==> k in b.bids || k in b.asks;
  }

  lemma DifferByOne(x: ExactBook.State, sb: Slices.State, op: Op, ops: seq<Op>)
    requires Expected(Slices.Step(sb, op).0, ops) != Reported(ExactBook.Answers(ExactBook.Do(x, op).0, ops))
    ensures Expected(sb, [op] + ops) != Reported(ExactBook.Answers(x, [op] + ops))
  {
    hide Expected, Reported, Replay, ExactBook.Answers, ExactBook.DoAll, ExactBook.Do, Slices.Step;
    StepThen(sb, op, []);
    DoThen(x, op, []);
    assert [op] + [] == [op];
    EmptyStream(Slices.Step(sb, op).0, ExactBook.Do(x, op).0);
    DifferLater(x, sb, [op], ops);
  }

  lemma EmptyStream(sb: Slices.State, x: ExactBook.State)
    ensures Replay(sb, []) == sb && ExactBook.DoAll(x, []) == x
  {
  }

  /** The orders around a tie, with a better and a worse price than any there is. */
  lemma OrdersAround(b: Book, side: Side, y: Rest, z: Rest) returns (c: Rest, d: Rest, m: string)
    requires Sound(b) && y.id in b.Of(side) && b.Of(side)[y.id] == y && z.id in b.Of(side) && b.Of(side)[z.id] == z
    requires y.id != z.id && Tie(y, z)
    ensures Around(side, y, z, c, d) && NewKey(b.Of(side), c) && NewKey(b.Of(side), d) && !Tie(c, d)
    ensures c.id !in b.ids && d.id !in b.ids && m !in b.ids && m != c.id && m != d.id
  {
    var p := BeyondAll(b.Of(side));
    var i := FreshId(b.ids);
    var j := FreshId(b.ids + {i});
    m := FreshId(b.ids + {i, j});
    c := Rest(i, if side == Buy then p else -p, 0, 1);
    d := Rest(j, if side == Buy then -p else p, 0, 1);
  }

  /** From every sound state of the heap book that sorted lists show: the heap book and the slice book fill alike
      on every continuation that adds no tie and reuses no id, exactly when no two resting orders of one side
      tie. */
  lemma HeapAgreesIff(x: ExactBook.State, sb: Slices.State)
    requires ExactBook.Good(x) && ListsBoth(x.book, sb)
    ensures HeapAgrees(x, sb) <==> NoTies(x.book.bids) && NoTies(x.book.asks)
  {
    var b := x.book;
    if NoTies(b.bids) && NoTies(b.asks) {
      UntiedAgree(b, sb);
      hide Distinct, Clear, Expected, Reported, ExactBook.Answers, LegalRun, ExactBook.Good;
      forall ops | Distinct(ops) && Clear(b, ops) ensures Expected(sb, ops) == Reported(ExactBook.Answers(x, ops)) {
        ExactBook.AnswersAreLegal(x, ops);
      }
    } else {
      var side := if NoTies(b.bids) then Sell else Buy;
      var bag := b.Of(side);
      var i, j :| i in bag && j in bag && i != j && Tie(bag[i], bag[j]);
      var y, z := bag[i], bag[j];
      hide Distinct, Clear, Expected, Reported, ExactBook.Answers;
      var c, d, m := OrdersAround(b, side, y, z);
      var ops := HeapPartsOverTie(x, sb, side, y, z, c, d, m);
      ToolsAreClear(b, ops, side, c, d, m);
    }
  }

  /** After distinct commands, one more order with a fresh id still fills alike, tie or not; but from then on the
      heap book and the slice book agree on every continuation that adds no tie and reuses no id exactly when
      the order asks for nothing or ties with nothing resting on its side. */
  lemma FirstTieParts(ops: seq<Op>, op: Op)
    requires Distinct(ops) && op.Limit? && op.order.id !in ExactBook.DoAll(ExactBook.EMPTY, ops).book.ids
    ensures var x, sb := ExactBook.DoAll(ExactBook.EMPTY, ops), Replay(Slices.EMPTY, ops);
      && Expected(Slices.EMPTY, ops) == Reported(ExactBook.Answers(ExactBook.EMPTY, ops))
      && Slices.Step(sb, op).1 == Traded(FillsOf(ExactBook.Do(x, op).1))
      && (HeapAgrees(ExactBook.Do(x, op).0, Slices.Step(sb, op).0)
          <==> op.order.qty <= 0 || NewKey(x.book.Of(op.side), op.order))
  {
    var x, sb := ExactBook.DoAll(ExactBook.EMPTY, ops), Replay(Slices.EMPTY, ops);
    var outs := ExactBook.Answers(ExactBook.EMPTY, ops);
    ExactBook.EmptyIsGood();
    ExactBook.AnswersAreLegal(ExactBook.EMPTY, ops);
    DistinctStreamsAgree(ops, outs);
    ShowsNoTies(x.book, sb);
    hide HeapAgrees, NoTies, LegalRun, After, Replay, Sound, Distinct, ListsBoth, Shows, Next, Legal, Slices.Step,
         ExactBook.Do, ExactBook.DoAll, ExactBook.Answers, Expected, Reported, ExactBook.Heaps;
    ExactBook.DoRefines(x, op);
    var out := ExactBook.Do(x, op).1;
    PlacedLists(x.book, sb, op, out);
    PlacedTies(x.book, op, out);
    HeapAgreesIff(ExactBook.Do(x, op).0, Slices.Step(sb, op).0);
  }
}
