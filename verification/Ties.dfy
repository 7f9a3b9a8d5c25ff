/** Exactly when the engines agree from a book on: a tie on one side is all it takes to part them. */
module Ties {
  import opened Market
  import opened Bags
  import opened Reference
  import opened Agreement
  import opened Runs
  import Slices

  /** `s` is `bag` sorted by price and time, each order once, ties in any order. */
  ghost predicate Lists(side: Side, s: seq<Rest>, bag: Bag) {
    && Slices.Sorted(side, s) && Holds(s, bag)
    && forall i, j :: 0 <= i < j < |s| ==> s[i].id != s[j].id
  }

  ghost predicate ListsBoth(b: Book, sb: Slices.State) {
    Lists(Buy, sb.bids, b.bids) && Lists(Sell, sb.asks, b.asks)
  }

  /** No two resting orders of one side have the same price and time. */
  ghost predicate NoTies(bag: Bag) {
    forall i, j :: i in bag && j in bag && i != j ==> !Tie(bag[i], bag[j])
  }

  /** However the reference breaks ties, every continuation that adds no tie and reuses no id fills alike. */
  ghost predicate AgreeFromHere(b: Book, sb: Slices.State) {
    forall ops, outs :: Distinct(ops) && Clear(b, ops) && LegalRun(b, ops, outs) ==> Expected(sb, ops) == Reported(outs)
  }

  // ---------- without ties ----------

  lemma ListsStrict(side: Side, s: seq<Rest>, bag: Bag)
    requires Lists(side, s, bag) && NoTies(bag)
    ensures Sorts(side, s, bag)
  {
    forall i, j | 0 <= i < j < |s| ensures Before(side, s[i], s[j]) {
      assert s[i] in s && s[j] in s;
      assert !Tie(bag[s[i].id], bag[s[j].id]);
    }
  }

  lemma UntiedAgree(b: Book, sb: Slices.State)
    requires Sound(b) && ListsBoth(b, sb) && NoTies(b.bids) && NoTies(b.asks)
    ensures AgreeFromHere(b, sb)
  {
    ListsStrict(Buy, sb.bids, b.bids);
    ListsStrict(Sell, sb.asks, b.asks);
    hide Distinct, Clear, LegalRun, Expected, Reported;
    forall ops, outs | Distinct(ops) && Clear(b, ops) && LegalRun(b, ops, outs)
      ensures Expected(sb, ops) == Reported(outs)
    {
      DistinctUntied(b, ops, outs);
      EnginesAgree(b, sb, ops, outs);
    }
  }

  // ---------- a tie parts them ----------

  lemma {:induction false} LongerThanAll(ids: set<string>) returns (n: nat)
    ensures forall id :: id in ids ==> |id| <= n
    decreases |ids|
  {
    n := 0;
    if ids != {} {
      var id :| id in ids;
      var m := LongerThanAll(ids - {id});
      n := m + |id|;
      forall x | x in ids ensures |x| <= n {
        assert x == id || x in ids - {id};
      }
    }
  }

  lemma FreshId(ids: set<string>) returns (id: string)
    ensures id !in ids
  {
    var n := LongerThanAll(ids);
    id := seq(n + 1, _ => 'm');
  }

  lemma DropOrdered(side: Side, s: seq<Rest>, k: nat)
    requires k < |s| && Slices.Sorted(side, s) && forall i, j :: 0 <= i < j < |s| ==> s[i].id != s[j].id
    ensures var t := Slices.Drop(s, k);
      Slices.Sorted(side, t) && forall i, j :: 0 <= i < j < |t| ==> t[i].id != t[j].id
  {
    var t := Slices.Drop(s, k);
    assert forall i :: 0 <= i < |t| ==> t[i] == if i < k then s[i] else s[i + 1];
    hide Slices.Drop, Before;
  }

  lemma DropHeld(s: seq<Rest>, bag: Bag, k: nat)
    requires k < |s| && WellKeyed(bag) && Holds(s, bag) && forall i, j :: 0 <= i < j < |s| ==> s[i].id != s[j].id
    ensures Holds(Slices.Drop(s, k), bag - {s[k].id})
  {
    var t := Slices.Drop(s, k);
    DropMembers(s, k);
    assert s[k] in s;
    forall r | r in t ensures r.id != s[k].id {
      var i :| 0 <= i < |t| && t[i] == r;
      assert r == if i < k then s[i] else s[i + 1];
    }
    hide Slices.Drop;
  }

  lemma DropLists(side: Side, s: seq<Rest>, bag: Bag, id: string)
    requires WellKeyed(bag) && Lists(side, s, bag)
    ensures id in bag <==> Slices.Find(s, id) < |s|
    ensures id in bag ==> Lists(side, Slices.Drop(s, Slices.Find(s, id)), bag - {id})
  {
    var k := Slices.Find(s, id);
    assert id in bag ==> bag[id] in s;
    if k < |s| {
      assert s[k] in s;
      DropOrdered(side, s, k);
      DropHeld(s, bag, k);
    }
  }

  lemma CancelLists(b: Book, sb: Slices.State, id: string)
    requires Sound(b) && ListsBoth(b, sb)
    ensures ListsBoth(Book(b.bids - {id}, b.asks - {id}, b.ids - {id}), Slices.Step(sb, Op.Cancel(id)).0)
    ensures Slices.Step(sb, Op.Cancel(id)).1 == 0
  {
    hide Lists;
    DropLists(Buy, sb.bids, b.bids, id);
    DropLists(Sell, sb.asks, b.asks, id);
    assert id !in b.bids ==> b.bids - {id} == b.bids;
    assert id !in b.asks ==> b.asks - {id} == b.asks;
  }

  /** A market order of the quantity of a best order may take that order whole. */
  lemma TakesBest(b: Book, side: Side, m: string, r: Rest)
    requires m !in b.ids && r.id in b.Of(side) && b.Of(side)[r.id] == r && IsBest(side, b.Of(side), r.id) && r.qty > 0
    ensures var op, out := Op.Market(side.Opposite(), m, r.qty), Filled([FillOf(side, r.id, m, r.price, r.qty)]);
      && Legal(b, op, out) && Next(b, op, out) == b.With(side, b.Of(side) - {r.id}) && Traded(out.fills) == r.qty
  {
    var f := FillOf(side, r.id, m, r.price, r.qty);
    assert [f][1..] == [];
    assert Traded([f]) == r.qty;
    MatchIsLegal(b, Op.Market(side.Opposite(), m, r.qty), [f], b.Of(side) - {r.id}, 0);
  }

  /** Take the later of two tied orders, cancel it, take the other. */
  function Probe(side: Side, m: string, u: Rest, v: Rest): seq<Op> {
    [Op.Market(side.Opposite(), m, v.qty)] + ([Op.Cancel(v.id)] + ([Op.Market(side.Opposite(), m, u.qty)] + []))
  }

  function ProbeAnswers(side: Side, m: string, u: Rest, v: Rest): seq<Outcome> {
    [Filled([FillOf(side, v.id, m, v.price, v.qty)])]
    + ([Cancelled] + ([Filled([FillOf(side, u.id, m, u.price, u.qty)])] + []))
  }

  lemma ProbeSteps(b: Book, side: Side, m: string, u: Rest, v: Rest)
    requires Sound(b) && m !in b.ids && b.Of(side) == map[u.id := u, v.id := v] && u.id != v.id && Tie(u, v)
    ensures var op, out := Op.Market(side.Opposite(), m, v.qty), Filled([FillOf(side, v.id, m, v.price, v.qty)]);
      Legal(b, op, out) && Next(b, op, out) == b.With(side, map[u.id := u]) && Traded(out.fills) == v.qty
    ensures u.qty > 0 && v.qty > 0 && v.id in b.ids && v.id !in b.Of(side.Opposite())
  {
    assert u.id in b.Of(side) && b.Of(side)[u.id] == u && v.id in b.Of(side) && b.Of(side)[v.id] == v;
    TakesBest(b, side, m, v);
    assert b.Of(side) - {v.id} == map[u.id := u];
  }

  lemma CancelFilled(b: Book, id: string)
    requires id in b.ids && id !in b.bids && id !in b.asks
    ensures Legal(b, Op.Cancel(id), Cancelled) && Next(b, Op.Cancel(id), Cancelled) == b.(ids := b.ids - {id})
  {
    assert b.bids - {id} == b.bids && b.asks - {id} == b.asks;
  }

  lemma ProbeIsLegal(b: Book, side: Side, m: string, u: Rest, v: Rest)
    requires Sound(b) && m !in b.ids && b.Of(side) == map[u.id := u, v.id := v] && u.id != v.id && Tie(u, v)
    ensures LegalRun(b, Probe(side, m, u, v), ProbeAnswers(side, m, u, v))
    ensures Reported(ProbeAnswers(side, m, u, v)) == [v.qty, 0, u.qty]
  {
    hide Legal, Next, Sound;
    ProbeSteps(b, side, m, u, v);
    var b1 := b.With(side, map[u.id := u]);
    CancelFilled(b1, v.id);
    var b2 := b1.(ids := b1.ids - {v.id});
    TakesBest(b2, side, m, u);
    var op1, op3 := Op.Market(side.Opposite(), m, v.qty), Op.Market(side.Opposite(), m, u.qty);
    var out1, out3 := Filled([FillOf(side, v.id, m, v.price, v.qty)]), Filled([FillOf(side, u.id, m, u.price, u.qty)]);
    hide LegalRun, Reported, Traded, FillOf;
    EmptyRun(Next(b2, op3, out3));
    RunCons(b2, op3, [], out3, []);
    RunCons(b1, Op.Cancel(v.id), [op3] + [], Cancelled, [out3] + []);
    RunCons(b, op1, [Op.Cancel(v.id)] + ([op3] + []), out1, [Cancelled] + ([out3] + []));
    assert Traded(FillsOf(Cancelled)) == 0 by { EmptyRun(b); }
  }

  lemma EmptyOrNot<T>(s: seq<T>)
    ensures s == [] || exists x :: x in s
  {
    if s != [] {
      assert s[0] in s;
    }
  }

  lemma EmptyRun(b: Book)
    ensures LegalRun(b, [], []) && Reported([]) == [] && Traded([]) == 0
  {
  }

  lemma TakesTwo(side: Side, u: Rest, v: Rest)
    requires u.qty > 0 && v.qty > 0
    ensures Slices.Take(side, [u, v], v.qty, Everything)
         == (if u.qty > v.qty then [u.(qty := u.qty - v.qty), v]
             else if u.qty == v.qty then [v] else [v.(qty := u.qty)], v.qty)
  {
    assert [u, v][1..] == [v] && [v][1..] == [];
    if u.qty > v.qty {
      assert [u.(qty := u.qty - v.qty)] + [v] == [u.(qty := u.qty - v.qty), v];
    } else if u.qty == v.qty {
      assert Slices.Take(side, [v], 0, Everything) == ([v], 0);
    } else {
      var w := v.(qty := u.qty);
      assert [w] + [] == [w];
      assert Slices.Take(side, [v], v.qty - u.qty, Everything) == ([w], v.qty - u.qty);
    }
  }

  lemma TakesOne(side: Side, s: seq<Rest>, q: int)
    requires s == [] || (|s| == 1 && 0 < s[0].qty < q)
    ensures Slices.Take(side, s, q, Everything).1 != q || q <= 0
  {
    if s != [] {
      assert s[1..] == [];
      assert Slices.Take(side, [], q - s[0].qty, Everything) == ([], 0);
    }
  }

  /** The slice book takes the earlier one first, so the cancel removes more than the reference lost. */
  lemma ProbeExpected(sb: Slices.State, side: Side, m: string, u: Rest, v: Rest)
    requires sb.Of(side) == [u, v] && u.id != v.id && u.qty > 0 && v.qty > 0
    requires forall r :: r in sb.Of(side.Opposite()) ==> r.id != v.id
    ensures |Expected(sb, Probe(side, m, u, v))| == 3 && Expected(sb, Probe(side, m, u, v))[2] != u.qty
  {
    var op1, op3 := Op.Market(side.Opposite(), m, v.qty), Op.Market(side.Opposite(), m, u.qty);
    hide Slices.Step, Slices.Take, Expected;
    TakesTwo(side, u, v);
    var s1 := Slices.Take(side, [u, v], v.qty, Everything).0;
    var sb1 := sb.With(side, s1);
    MarketSteps(sb, side, m, v.qty);
    var s2 := if u.qty > v.qty then [u.(qty := u.qty - v.qty)] else [];
    CancelsLast(sb1, side, v.id, s2);
    var sb2 := sb1.With(side, s2);
    TakesOne(side, s2, u.qty);
    MarketSteps(sb2, side, m, u.qty);
    NoneExpected(Slices.Step(sb2, op3).0);
    ExpectedCons(sb2, op3, []);
    ExpectedCons(sb1, Op.Cancel(v.id), [op3] + []);
    ExpectedCons(sb, op1, [Op.Cancel(v.id)] + ([op3] + []));
  }

  lemma MarketSteps(sb: Slices.State, side: Side, m: string, q: int)
    ensures var (s, filled) := Slices.Take(side, sb.Of(side), q, Everything);
      Slices.Step(sb, Op.Market(side.Opposite(), m, q)) == (sb.With(side, s), filled)
  {
  }

  lemma CancelsLast(sb: Slices.State, side: Side, id: string, s: seq<Rest>)
    requires |sb.Of(side)| == |s| + 1 && sb.Of(side)[..|s|] == s && sb.Of(side)[|s|].id == id
    requires forall r :: r in s ==> r.id != id
    requires forall r :: r in sb.Of(side.Opposite()) ==> r.id != id
    ensures Slices.Step(sb, Op.Cancel(id)) == (sb.With(side, s), 0)
  {
    var t, k := sb.Of(side), Slices.Find(sb.Of(side), id);
    assert forall i :: 0 <= i < |s| ==> t[i] == s[i] && s[i] in s;
    assert k == |s|;
    assert Slices.Drop(t, k) == s;
    var o := sb.Of(side.Opposite());
    assert forall i :: 0 <= i < |o| ==> o[i] in o;
    assert Slices.Find(o, id) == |o|;
  }

  /** Only the two tied orders are left on their side: the list shows them in some order. */
  lemma OnlyTwo(side: Side, s: seq<Rest>, bag: Bag, x: Rest, y: Rest)
    requires WellKeyed(bag) && Lists(side, s, bag) && bag.Keys == {x.id, y.id} && x.id != y.id
    requires bag[x.id] == x && bag[y.id] == y
    ensures s == [x, y] || s == [y, x]
  {
    assert x in s && y in s;
    forall k | 0 <= k < |s| ensures s[k] == x || s[k] == y {
      assert s[k] in s;
    }
    TwoAmongThree(s, x, y);
  }

  lemma TwoAmongThree(s: seq<Rest>, x: Rest, y: Rest)
    requires forall k :: 0 <= k < |s| ==> s[k] == x || s[k] == y
    ensures |s| <= 2 || exists i, j :: 0 <= i < j < |s| && s[i].id == s[j].id
  {
    if |s| > 2 {
      assert s[0].id == s[1].id || s[1].id == s[2].id || s[0].id == s[2].id;
    }
  }

  lemma PartTwo(b: Book, sb: Slices.State, side: Side, x: Rest, y: Rest, m: string)
    returns (ops: seq<Op>, outs: seq<Outcome>)
    requires Sound(b) && ListsBoth(b, sb) && m !in b.ids
    requires b.Of(side).Keys == {x.id, y.id} && b.Of(side)[x.id] == x && b.Of(side)[y.id] == y
    requires x.id != y.id && Tie(x, y)
    ensures forall op :: op in ops ==> op.Cancel? || (op.Market? && op.id == m)
    ensures LegalRun(b, ops, outs) && Expected(sb, ops) != Reported(outs)
  {
    hide LegalRun, Expected, Reported, Lists, Uncrossed;
    OnlyTwo(side, sb.Of(side), b.Of(side), x, y);
    var u, v := sb.Of(side)[0], sb.Of(side)[1];
    assert b.Of(side) == map[u.id := u, v.id := v];
    assert u.qty > 0 && v.qty > 0;
    NotOpposite(b, sb, side, v.id);
    hide Sound, ListsBoth;
    ops, outs := Probe(side, m, u, v), ProbeAnswers(side, m, u, v);
    ProbeIsLegal(b, side, m, u, v);
    ProbeExpected(sb, side, m, u, v);
    assert Reported(outs)[2] == u.qty;
  }

  lemma NotOpposite(b: Book, sb: Slices.State, side: Side, id: string)
    requires Sound(b) && ListsBoth(b, sb) && id in b.Of(side)
    ensures forall r :: r in sb.Of(side.Opposite()) ==> r.id != id
  {
    forall r | r in sb.Of(side.Opposite()) ensures r.id != id {
      assert r.id in b.Of(side.Opposite());
    }
  }

  /** From any book with a tie: cancel everything else, then probe the two. */
  lemma {:induction false} TiePartsThem(b: Book, sb: Slices.State, side: Side, x: Rest, y: Rest, m: string)
    returns (ops: seq<Op>, outs: seq<Outcome>)
    requires Sound(b) && ListsBoth(b, sb) && m !in b.ids
    requires x.id in b.Of(side) && b.Of(side)[x.id] == x && y.id in b.Of(side) && b.Of(side)[y.id] == y
    requires x.id != y.id && Tie(x, y)
    ensures forall op :: op in ops ==> op.Cancel? || (op.Market? && op.id == m)
    ensures LegalRun(b, ops, outs) && Expected(sb, ops) != Reported(outs)
    decreases |b.Of(side)|
  {
    if b.Of(side).Keys == {x.id, y.id} {
      ops, outs := PartTwo(b, sb, side, x, y, m);
    } else {
      var z :| z in b.Of(side) && z != x.id && z != y.id;
      var op := Op.Cancel(z);
      var b' := Book(b.bids - {z}, b.asks - {z}, b.ids - {z});
      assert Legal(b, op, Cancelled) && Next(b, op, Cancelled) == b';
      NextSound(b, op, Cancelled);
      CancelLists(b, sb, z);
      hide Lists, Sound, Legal, Next;
      Fewer(b.Of(side), z);
      var ops', outs' := TiePartsThem(b', Slices.Step(sb, op).0, side, x, y, m);
      ops, outs := [op] + ops', [Cancelled] + outs';
      RunCons(b, op, ops', Cancelled, outs');
      ExpectedCons(sb, op, ops');
      SameTails(0, Expected(Slices.Step(sb, op).0, ops'), Reported(outs'));
    }
  }

  lemma Fewer(bag: Bag, z: string)
    requires z in bag
    ensures |bag - {z}| < |bag|
  {
    assert (bag - {z}).Keys == bag.Keys - {z};
    assert |bag.Keys - {z}| < |bag.Keys|;
  }

  lemma SameTails(n: int, xs: seq<int>, ys: seq<int>)
    requires xs != ys
    ensures [n] + xs != [n] + ys
  {
    assert ([n] + xs)[1..] == xs && ([n] + ys)[1..] == ys;
  }

  lemma ProbesAreClear(b: Book, ops: seq<Op>, m: string)
    requires m !in b.ids && forall op :: op in ops ==> op.Cancel? || (op.Market? && op.id == m)
    ensures Distinct(ops) && Clear(b, ops)
  {
    assert forall i :: 0 <= i < |ops| ==> ops[i] in ops;
  }

  /** From a sound book that the list shows, every continuation that adds no tie and reuses no id agrees under
      every legal tie-break exactly when no two resting orders of one side tie. */
  lemma AgreeFromHereIff(b: Book, sb: Slices.State)
    requires Sound(b) && ListsBoth(b, sb)
    ensures AgreeFromHere(b, sb) <==> NoTies(b.bids) && NoTies(b.asks)
  {
    if NoTies(b.bids) && NoTies(b.asks) {
      UntiedAgree(b, sb);
    } else {
      var side := if NoTies(b.bids) then Sell else Buy;
      var bag := b.Of(side);
      var i, j :| i in bag && j in bag && i != j && Tie(bag[i], bag[j]);
      var m := FreshId(b.ids);
      var ops, outs := TiePartsThem(b, sb, side, bag[i], bag[j], m);
      ProbesAreClear(b, ops, m);
    }
  }

  // ---------- where the first tie of a stream appears ----------

  lemma SortsLists(side: Side, s: seq<Rest>, bag: Bag)
    requires Sorts(side, s, bag)
    ensures Lists(side, s, bag)
  {
    forall i, j | 0 <= i < j < |s| ensures !Before(side, s[j], s[i]) && s[i].id != s[j].id {
      assert s[i] in s && s[j] in s && Before(side, s[i], s[j]);
    }
  }

  lemma InsertLists(side: Side, s: seq<Rest>, bag: Bag, r: Rest)
    requires Lists(side, s, bag) && r.id !in bag
    ensures Lists(side, Slices.Insert(side, s, r), bag[r.id := r])
  {
    hide Slices.Sorted, Slices.Insert;
    Slices.InsertSorted(side, s, r);
    var k := Slices.InsertPoint(side, s, r);
    assert forall i :: 0 <= i < |s| ==> s[i] in s;
    InsertDistinct(s, k, r);
  }

  lemma InsertDistinct(s: seq<Rest>, k: nat, r: Rest)
    requires k <= |s| && forall i, j :: 0 <= i < j < |s| ==> s[i].id != s[j].id
    requires forall i :: 0 <= i < |s| ==> s[i].id != r.id
    ensures var t := s[..k] + [r] + s[k..]; forall i, j :: 0 <= i < j < |t| ==> t[i].id != t[j].id
  {
  }

  lemma PlacedLists(b: Book, sb: Slices.State, op: Op, out: Outcome)
    requires Sound(b) && Shows(b, sb) && op.Limit? && op.order.id !in b.ids && Legal(b, op, out)
    ensures Slices.Step(sb, op).1 == Traded(FillsOf(out))
    ensures ListsBoth(Next(b, op, out), Slices.Step(sb, op).0)
  {
    hide Sorts, Lists, Match, Uncrossed;
    OwnSideKept(b, op, out);
    MatchShows(b, sb, op, out);
    var m, sm := Matched(b, op, out), Slices.Match(sb, op.side, QtyOf(op), ScopeOf(op)).0;
    SortsLists(Buy, sm.bids, m.bids);
    SortsLists(Sell, sm.asks, m.asks);
    var r := op.order.(qty := op.order.qty - Traded(out.fills));
    if r.qty > 0 {
      InsertLists(op.side, sm.Of(op.side), m.Of(op.side), r);
    }
  }

  lemma ShowsNoTies(b: Book, sb: Slices.State)
    requires Sound(b) && Shows(b, sb)
    ensures NoTies(b.bids) && NoTies(b.asks)
  {
    SortsNoTies(Buy, sb.bids, b.bids);
    SortsNoTies(Sell, sb.asks, b.asks);
  }

  lemma SortsNoTies(side: Side, s: seq<Rest>, bag: Bag)
    requires WellKeyed(bag) && Sorts(side, s, bag)
    ensures NoTies(bag)
  {
    forall i, j | i in bag && j in bag && i != j ensures !Tie(bag[i], bag[j]) {
      var m :| 0 <= m < |s| && s[m] == bag[i];
      var n :| 0 <= n < |s| && s[n] == bag[j];
      assert m < n ==> Before(side, s[m], s[n]);
      assert n < m ==> Before(side, s[n], s[m]);
    }
  }

  lemma NextSides(b: Book, op: Op, out: Outcome)
    requires Sound(b) && op.Limit? && op.order.id !in b.ids && Legal(b, op, out)
    ensures out.Filled?
    ensures var maker, left := op.side.Opposite(), op.order.qty - Traded(out.fills);
      && Next(b, op, out).Of(op.side)
         == (if left > 0 then b.Of(op.side)[op.order.id := op.order.(qty := left)] else b.Of(op.side))
      && Next(b, op, out).Of(maker) == Drain(maker, b.Of(maker), IdOf(op), QtyOf(op), ScopeOf(op), out.fills)
  {
  }

  lemma DrainNoTies(side: Side, bag: Bag, taker: string, q: int, scope: Scope, fills: seq<Fill>)
    requires WellKeyed(bag) && NoTies(bag) && Greedy(side, bag, taker, q, scope, fills)
    ensures NoTies(Drain(side, bag, taker, q, scope, fills))
  {
    DrainKeeps(side, bag, taker, q, scope, fills);
    hide Greedy, Drain;
  }

  lemma OneMoreNoTies(bag: Bag, r: Rest)
    requires NoTies(bag) && r.id !in bag
    ensures NoTies(bag[r.id := r]) <==> NewKey(bag, r)
  {
    var bag' := bag[r.id := r];
    if NoTies(bag') {
      forall id | id in bag ensures !Tie(bag[id], r) {
        assert id in bag' && r.id in bag' && bag'[id] == bag[id] && bag'[r.id] == r;
      }
    }
  }

  lemma FirstIsGood(side: Side, bag: Bag, taker: string, q: int, scope: Scope, fills: seq<Fill>)
    requires Greedy(side, bag, taker, q, scope, fills)
    ensures fills == [] || GoodFill(side, bag, taker, q, scope, fills[0])
  {
  }

  /** An order that ties with one resting on its side finds nothing on the other. */
  lemma TiedFindsNothing(b: Book, op: Op, out: Outcome)
    requires Sound(b) && op.Limit? && op.order.id !in b.ids && Legal(b, op, out)
    requires op.order.qty <= 0 || !NewKey(b.Of(op.side), op.order)
    ensures out == Filled([])
  {
    var maker := op.side.Opposite();
    FirstIsGood(maker, b.Of(maker), IdOf(op), QtyOf(op), ScopeOf(op), out.fills);
  }

  /** A limit order brings a tie exactly when it asks for something and ties with an order of its side. */
  lemma PlacedTies(b: Book, op: Op, out: Outcome)
    requires Sound(b) && NoTies(b.bids) && NoTies(b.asks) && op.Limit? && op.order.id !in b.ids && Legal(b, op, out)
    ensures NoTies(Next(b, op, out).bids) && NoTies(Next(b, op, out).asks)
       <==> op.order.qty <= 0 || NewKey(b.Of(op.side), op.order)
  {
    var maker, own := op.side.Opposite(), b.Of(op.side);
    NextSides(b, op, out);
    DrainNoTies(maker, b.Of(maker), IdOf(op), QtyOf(op), ScopeOf(op), out.fills);
    if op.order.qty <= 0 || !NewKey(own, op.order) {
      TiedFindsNothing(b, op, out);
    }
    var r := op.order.(qty := op.order.qty - Traded(out.fills));
    assert NewKey(own, r) == NewKey(own, op.order);
    OneMoreNoTies(own, r);
    hide NoTies, Greedy, Match, Drain, Next;
  }

  lemma OwnSideKept(b: Book, op: Op, out: Outcome)
    requires Sound(b) && op.Limit? && op.order.id !in b.ids && Legal(b, op, out)
    ensures out.Filled? && op.order.id !in Matched(b, op, out).Of(op.side)
  {
  }
}
