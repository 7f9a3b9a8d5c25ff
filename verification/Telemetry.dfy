/** The order events that bots report. */
module Telemetry {

  datatype OrderType = TypeUnspecified | TypeLimit | TypeMarket | TypeCancel

  datatype OrderSide = SideUnspecified | SideBuy | SideSell

  datatype OrderResult =
    | ResultUnspecified | ResultFilled | ResultPartial | ResultRejected | ResultTimeout | ResultAckOnly

  /** `NoEvent` stands for a nil event. */
  datatype Event =
    | NoEvent
    | Event(contestant: string, submission: string, orderId: string, kind: OrderType, side: OrderSide,
            result: OrderResult, sentTs: int, latency: int, price: real, quantity: int, filled: int)

  predicate Accepted(e: Event) { e.Event? && e.contestant != "" }

  /** State is keyed by submission, or by contestant for events that carry none. */
  function RunKey(e: Event): string
    requires e.Event?
  {
    if e.submission != "" then e.submission else e.contestant
  }

  predicate Mine(key: string, e: Event) { Accepted(e) && RunKey(e) == key }

  /** The events of a stream that belong to one run, in order. */
  function Only(key: string, es: seq<Event>): (r: seq<Event>)
    ensures forall i :: 0 <= i < |r| ==> Mine(key, r[i])
  {
    if es == [] then []
    else if Mine(key, es[0]) then [es[0]] + Only(key, es[1..])
    else Only(key, es[1..])
  }

  /** A run's events: those that name a contestant and carry the key as their submission, or as their contestant
      where they have no submission. Each is kept, in its place, and nothing else is. */
  lemma {:induction false} OnlyKeepsOwn(key: string, es: seq<Event>, e: Event)
    ensures Only(key, es + [e])
         == if e.Event? && e.contestant != "" && (if e.submission != "" then e.submission else e.contestant) == key
            then Only(key, es) + [e] else Only(key, es)
    ensures Only(key, []) == []
    decreases |es|
  {
    if es == [] {
      assert [] + [e] == [e] && [e][1..] == [];
    } else {
      assert (es + [e])[1..] == es[1..] + [e];
      OnlyKeepsOwn(key, es[1..], e);
    }
  }
}
