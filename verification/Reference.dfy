/** The reference book: two bags and the set of ids in use, driven by commands. It fixes what
    a price-time engine may answer, command by command and over whole runs, without saying how
    the best order is found. */
module Reference {
  import opened Market
  import opened Bags

  datatype Book = Book(bids: Bag, asks: Bag, ids: set<string>) {
    function Of(side: Side): Bag { if side == Buy then bids else asks }

    function With(side: Side, bag: Bag): Book {
      if side == Buy then this.(bids := bag) else this.(asks := bag)
    }
  }

  const EMPTY := Book(map[], map[], {})

  function IdOf(op: Op): string {
    match op
    case Limit(_, o) => o.id
    case Market(_, id, _) => id
    case Cancel(id) => id
  }

  function QtyOf(op: Op): int {
    match op
    case Limit(_, o) => o.qty
    case Market(_, _, q) => q
    case Cancel(_) => 0
  }

  function ScopeOf(op: Op): Scope {
    if op.Limit? then AsGoodAs(op.order.price) else Everything
  }

  // ---------- one command ----------

  /** `out` is an answer the reference book may give to `op`. */
  ghost predicate Legal(b: Book, op: Op, out: Outcome) {
    if op.Cancel? then out == if op.id in b.ids then Cancelled else NotFound
    else if IdOf(op) in b.ids then out == DuplicateId
    else
      var maker := op.side.Opposite();
      out.Filled? && Match(maker, b.Of(maker), IdOf(op), QtyOf(op), ScopeOf(op), out.fills)
  }

  ghost function Matched(b: Book, op: Op, out: Outcome): Book
    requires Legal(b, op, out) && out.Filled?
  {
    var maker := op.side.Opposite();
    b.With(maker, Drain(maker, b.Of(maker), IdOf(op), QtyOf(op), ScopeOf(op), out.fills))
  }

  ghost function Rested(b: Book, side: Side, r: Rest): Book {
    var own := if r.qty > 0 then b.With(side, b.Of(side)[r.id := r]) else b;
    own.(ids := b.ids + {r.id})
  }

  ghost function Next(b: Book, op: Op, out: Outcome): Book
    requires Legal(b, op, out)
  {
    match out
    case Filled(fills) =>
      if op.Limit?
      then Rested(Matched(b, op, out), op.side, op.order.(qty := op.order.qty - Traded(fills)))
      else Matched(b, op, out)
    case Cancelled => Book(b.bids - {op.id}, b.asks - {op.id}, b.ids - {op.id})
    case _ => b
  }

  /** A finished match is a legal answer, and its next state is read off the matched bag. */
  lemma MatchIsLegal(b: Book, op: Op, fills: seq<Fill>, bag: Bag, left: int)
    requires !op.Cancel? && IdOf(op) !in b.ids
    requires Leads(op.side.Opposite(), b.Of(op.side.Opposite()), IdOf(op), QtyOf(op), ScopeOf(op), fills, bag, left)
    requires Stuck(op.side.Opposite(), bag, left, ScopeOf(op))
    ensures Legal(b, op, Filled(fills))
    ensures Next(b, op, Filled(fills))
         == var matched := b.With(op.side.Opposite(), bag);
            if op.Limit? then Rested(matched, op.side, op.order.(qty := left)) else matched
  {
  }

  /** Every bid is below every ask. */
  ghost predicate Uncrossed(bids: Bag, asks: Bag) {
    forall i, j | i in bids && j in asks :: bids[i].price < asks[j].price
  }

  ghost predicate Sound(b: Book) {
    && WellKeyed(b.bids) && WellKeyed(b.asks)
    && b.bids.Keys <= b.ids && b.asks.Keys <= b.ids
    && b.bids.Keys !! b.asks.Keys
    && Uncrossed(b.bids, b.asks)
  }

  lemma MatchedSound(b: Book, op: Op, out: Outcome)
    requires Sound(b) && Legal(b, op, out) && out.Filled?
    ensures Sound(Matched(b, op, out))
  {
    var maker := op.side.Opposite();
    DrainKeeps(maker, b.Of(maker), IdOf(op), QtyOf(op), ScopeOf(op), out.fills);
  }

  lemma RestedSound(b: Book, side: Side, r: Rest)
    requires Sound(b) && r.id !in b.ids
    requires Stuck(side.Opposite(), b.Of(side.Opposite()), r.qty, AsGoodAs(r.price))
    ensures Sound(Rested(b, side, r))
  {
  }

  lemma NextSound(b: Book, op: Op, out: Outcome)
    requires Sound(b) && Legal(b, op, out)
    ensures Sound(Next(b, op, out))
  {
    if out.Filled? {
      MatchedSound(b, op, out);
      if op.Limit? {
        RestedSound(Matched(b, op, out), op.side, op.order.(qty := op.order.qty - Traded(out.fills)));
      }
    }
  }

  /** However ties are broken, the quantity filled is the smaller of the order's quantity and
      the opposite quantity its price can reach. */
  lemma FilledQuantity(b: Book, op: Op, out: Outcome)
    requires Sound(b) && Legal(b, op, out) && out.Filled?
    ensures Traded(out.fills)
         == Min(Max(0, QtyOf(op)), Depth(op.side.Opposite(), b.Of(op.side.Opposite()), ScopeOf(op)))
  {
    var maker := op.side.Opposite();
    MatchTrades(maker, b.Of(maker), IdOf(op), QtyOf(op), ScopeOf(op), out.fills);
  }

  // ---------- whole runs ----------

  ghost predicate LegalRun(b: Book, ops: seq<Op>, outs: seq<Outcome>)
    decreases |ops|
  {
    && |ops| == |outs|
    && (ops == [] ||
        (Legal(b, ops[0], outs[0]) && LegalRun(Next(b, ops[0], outs[0]), ops[1..], outs[1..])))
  }

  ghost function After(b: Book, ops: seq<Op>, outs: seq<Outcome>): Book
    requires LegalRun(b, ops, outs)
    decreases |ops|
  {
    if ops == [] then b else After(Next(b, ops[0], outs[0]), ops[1..], outs[1..])
  }

  lemma {:induction false} RunSnoc(b: Book, ops: seq<Op>, outs: seq<Outcome>, op: Op, out: Outcome)
    requires LegalRun(b, ops, outs) && Legal(After(b, ops, outs), op, out)
    ensures LegalRun(b, ops + [op], outs + [out])
    ensures After(b, ops + [op], outs + [out]) == Next(After(b, ops, outs), op, out)
    decreases |ops|
  {
    if ops == [] {
      assert [op][1..] == [] && [out][1..] == [];
      assert ops + [op] == [op] && outs + [out] == [out];
    } else {
      assert (ops + [op])[1..] == ops[1..] + [op];
      assert (outs + [out])[1..] == outs[1..] + [out];
      RunSnoc(Next(b, ops[0], outs[0]), ops[1..], outs[1..], op, out);
    }
  }

  /** In every reachable state the book is well keyed, its sides are disjoint and it is
      uncrossed. */
  lemma {:induction false} RunSound(b: Book, ops: seq<Op>, outs: seq<Outcome>)
    requires Sound(b) && LegalRun(b, ops, outs)
    ensures Sound(After(b, ops, outs))
    decreases |ops|
  {
    if ops != [] {
      NextSound(b, ops[0], outs[0]);
      RunSound(Next(b, ops[0], outs[0]), ops[1..], outs[1..]);
    }
  }

  // ---------- conservation ----------

  /** Whose quantity is being counted: one order's, or a whole side's. */
  datatype Who = Everyone | Single(id: string) {
    predicate Has(id': string) { this == Everyone || this == Single(id') }
  }

  ghost function Open(side: Side, bag: Bag, who: Who): int {
    match who
    case Everyone => Depth(side, bag, Everything)
    case Single(id) => if id in bag then bag[id].qty else 0
  }

  /** Quantity traded by the orders of `side` that `who` selects. */
  function Volume(side: Side, fills: seq<Fill>, who: Who): int {
    if fills == [] then 0
    else (if who.Has(MakerId(side, fills[0])) then fills[0].qty else 0) + Volume(side, fills[1..], who)
  }

  function Placed(side: Side, op: Op, out: Outcome, who: Who): int {
    if out.Filled? && !op.Cancel? && op.side == side && who.Has(IdOf(op)) then Max(0, QtyOf(op)) else 0
  }

  function FillsOf(out: Outcome): seq<Fill> {
    if out.Filled? then out.fills else []
  }

  /** Quantity that leaves `side` untraded: a cancelled order's open part, or the unfilled
      remainder of a market order. */
  ghost function Released(b: Book, side: Side, op: Op, out: Outcome, who: Who): int {
    if op.Cancel? then
      if who.Has(op.id) && out == Cancelled then Open(side, b.Of(side), Single(op.id)) else 0
    else if op.Market? && out.Filled? && op.side == side && who.Has(op.id) then
      Max(0, op.qty) - Traded(out.fills)
    else 0
  }

  lemma {:induction false} MakerVolume(side: Side, bag: Bag, taker: string, q: int, scope: Scope,
                                       fills: seq<Fill>, who: Who)
    requires WellKeyed(bag) && Greedy(side, bag, taker, q, scope, fills)
    ensures Open(side, bag, who)
         == Open(side, Drain(side, bag, taker, q, scope, fills), who) + Volume(side, fills, who)
    decreases |fills|
  {
    if fills != [] {
      ConsumeKeeps(side, bag, taker, q, scope, fills[0]);
      ConsumeOpen(side, bag, taker, q, scope, fills[0], who);
      MakerVolume(side, Consume(side, bag, fills[0]), taker, q - fills[0].qty, scope, fills[1..], who);
      hide Open, GoodFill, Consume, WellKeyed;
    }
  }

  lemma ConsumeOpen(side: Side, bag: Bag, taker: string, q: int, scope: Scope, f: Fill, who: Who)
    requires WellKeyed(bag) && GoodFill(side, bag, taker, q, scope, f)
    ensures Open(side, bag, who)
         == Open(side, Consume(side, bag, f), who) + if who.Has(MakerId(side, f)) then f.qty else 0
  {
    ConsumeDepth(side, bag, taker, q, scope, f, Everything);
    DepthAtLeast(side, bag, Everything, MakerId(side, f));
    hide Depth;
  }

  lemma {:induction false} TakerVolume(side: Side, bag: Bag, taker: string, q: int, scope: Scope,
                                       fills: seq<Fill>, who: Who)
    requires WellKeyed(bag) && Greedy(side, bag, taker, q, scope, fills)
    ensures Volume(side.Opposite(), fills, who) == if who.Has(taker) then Traded(fills) else 0
    ensures 0 <= Traded(fills) <= Max(0, q)
    decreases |fills|
  {
    if fills != [] {
      ConsumeKeeps(side, bag, taker, q, scope, fills[0]);
      TakerVolume(side, Consume(side, bag, fills[0]), taker, q - fills[0].qty, scope, fills[1..], who);
    }
  }

  lemma OpenWithout(side: Side, bag: Bag, who: Who, id: string)
    ensures Open(side, bag - {id}, who)
         == Open(side, bag, who) - if who.Has(id) then Open(side, bag, Single(id)) else 0
  {
    if id in bag {
      DepthWithout(side, bag, Everything, id);
    } else {
      assert bag - {id} == bag;
    }
  }

  lemma MatchedConserves(b: Book, op: Op, out: Outcome, side: Side, who: Who)
    requires Sound(b) && Legal(b, op, out) && out.Filled?
    ensures Open(side, b.Of(side), who)
         == Open(side, Matched(b, op, out).Of(side), who)
          + if side == op.side then 0 else Volume(side, out.fills, who)
    ensures Volume(op.side, out.fills, who) == if who.Has(IdOf(op)) then Traded(out.fills) else 0
    ensures 0 <= Traded(out.fills) <= Max(0, QtyOf(op))
  {
    var maker := op.side.Opposite();
    MakerVolume(maker, b.Of(maker), IdOf(op), QtyOf(op), ScopeOf(op), out.fills, who);
    TakerVolume(maker, b.Of(maker), IdOf(op), QtyOf(op), ScopeOf(op), out.fills, who);
  }

  lemma RestedConserves(b: Book, side: Side, r: Rest, s: Side, who: Who)
    requires Sound(b) && r.id !in b.ids
    ensures Open(s, Rested(b, side, r).Of(s), who)
         == Open(s, b.Of(s), who) + if s == side && who.Has(r.id) then Max(0, r.qty) else 0
  {
    DepthWith(side, b.Of(side), Everything, r);
  }

  lemma NextConserves(b: Book, op: Op, out: Outcome, side: Side, who: Who)
    requires Sound(b) && Legal(b, op, out)
    ensures Open(side, b.Of(side), who) + Placed(side, op, out, who)
         == Open(side, Next(b, op, out).Of(side), who) + Volume(side, FillsOf(out), who)
          + Released(b, side, op, out, who)
  {
    hide Depth, Drain, Greedy, Stuck, Uncrossed;
    if out.Filled? {
      MatchedSound(b, op, out);
      MatchedConserves(b, op, out, side, who);
      if op.Limit? {
        RestedConserves(Matched(b, op, out), op.side,
                        op.order.(qty := op.order.qty - Traded(out.fills)), side, who);
      }
    } else if out == Cancelled {
      OpenWithout(side, b.Of(side), who, op.id);
    }
  }

  datatype Ledger = Ledger(placed: int, traded: int, released: int)

  ghost function Audit(b: Book, ops: seq<Op>, outs: seq<Outcome>, side: Side, who: Who): Ledger
    requires LegalRun(b, ops, outs)
    decreases |ops|
  {
    if ops == [] then Ledger(0, 0, 0)
    else
      var rest := Audit(Next(b, ops[0], outs[0]), ops[1..], outs[1..], side, who);
      Ledger(Placed(side, ops[0], outs[0], who) + rest.placed,
             Volume(side, FillsOf(outs[0]), who) + rest.traded,
             Released(b, side, ops[0], outs[0], who) + rest.released)
  }

  /** Over any run, for every order and for each side: what was open and what was submitted is
      what traded, what was cancelled or discarded, and what is still open. */
  lemma {:induction false} Conservation(b: Book, ops: seq<Op>, outs: seq<Outcome>, side: Side, who: Who)
    requires Sound(b) && LegalRun(b, ops, outs)
    ensures Open(side, b.Of(side), who) + Audit(b, ops, outs, side, who).placed
         == Open(side, After(b, ops, outs).Of(side), who)
          + Audit(b, ops, outs, side, who).traded + Audit(b, ops, outs, side, who).released
    decreases |ops|
  {
    if ops != [] {
      NextSound(b, ops[0], outs[0]);
      NextConserves(b, ops[0], outs[0], side, who);
      Conservation(Next(b, ops[0], outs[0]), ops[1..], outs[1..], side, who);
    }
  }

  lemma {:induction false} VolumeOfEveryone(side: Side, fills: seq<Fill>)
    ensures Volume(side, fills, Everyone) == Traded(fills)
  {
    if fills != [] {
      VolumeOfEveryone(side, fills[1..]);
    }
  }

  /** Bought equals sold over any run. */
  lemma {:induction false} BoughtEqualsSold(b: Book, ops: seq<Op>, outs: seq<Outcome>)
    requires LegalRun(b, ops, outs)
    ensures Audit(b, ops, outs, Buy, Everyone).traded == Audit(b, ops, outs, Sell, Everyone).traded
    decreases |ops|
  {
    if ops != [] {
      VolumeOfEveryone(Buy, FillsOf(outs[0]));
      VolumeOfEveryone(Sell, FillsOf(outs[0]));
      BoughtEqualsSold(Next(b, ops[0], outs[0]), ops[1..], outs[1..]);
    }
  }
}
