/** The vocabulary both matching engines share: sides, resting orders, price-time
    priority, fills, and the commands a trader can send. */
module Market {

  datatype Side = Buy | Sell {
    function Opposite(): Side { if this == Buy then Sell else Buy }
  }

  /** One resting order as a value: `qty` is what is still open. */
  datatype Rest = Rest(id: string, price: real, at: int, qty: int)

  datatype Fill = Fill(buyId: string, sellId: string, price: real, qty: int)

  datatype Op =
    | Limit(side: Side, order: Rest)
    | Market(side: Side, id: string, qty: int)
    | Cancel(id: string)

  datatype Outcome = Filled(fills: seq<Fill>) | DuplicateId | Cancelled | NotFound

  /** The prices an incoming order may trade at: any price for a market order, a
      price at least as good (for the taker) as the limit for a limit order. `Exactly` selects
      one price level and serves the snapshot. */
  datatype Scope = Everything | AsGoodAs(price: real) | Exactly(price: real)

  /** Lower rank is better: bids rank high prices first, asks low prices first. */
  function Rank(side: Side, price: real): real {
    if side == Buy then -price else price
  }

  /** Whether a resting order of `side` at `price` is in `scope`. */
  predicate Within(side: Side, scope: Scope, price: real) {
    match scope
    case Everything => true
    case AsGoodAs(p) => Rank(side, price) <= Rank(side, p)
    case Exactly(p) => price == p
  }

  /** Strict price-time priority between two (price, time) keys of one side. */
  predicate Sooner(side: Side, p: real, t: int, p': real, t': int) {
    if p != p' then Rank(side, p) < Rank(side, p') else t < t'
  }

  predicate Before(side: Side, x: Rest, y: Rest) {
    Sooner(side, x.price, x.at, y.price, y.at)
  }

  function Min(a: int, b: int): int { if a < b then a else b }

  function Max(a: int, b: int): int { if a < b then b else a }

  function MakerId(maker: Side, f: Fill): string {
    if maker == Buy then f.buyId else f.sellId
  }

  function TakerId(maker: Side, f: Fill): string {
    MakerId(maker.Opposite(), f)
  }

  function FillOf(maker: Side, makerId: string, takerId: string, price: real, qty: int): (f: Fill)
    ensures MakerId(maker, f) == makerId && TakerId(maker, f) == takerId
  {
    if maker == Buy then Fill(makerId, takerId, price, qty) else Fill(takerId, makerId, price, qty)
  }

  /** Total quantity traded by a list of fills: what a client reports as its filled quantity. */
  function Traded(fills: seq<Fill>): int {
    if fills == [] then 0 else fills[0].qty + Traded(fills[1..])
  }

  lemma {:induction false} TradedSnoc(fills: seq<Fill>, f: Fill)
    ensures Traded(fills + [f]) == Traded(fills) + f.qty
  {
    if fills == [] {
      assert fills + [f] == [f];
    } else {
      assert (fills + [f])[1..] == fills[1..] + [f];
      TradedSnoc(fills[1..], f);
    }
  }
}
