/** The rate one client gets through the whole limiter, eviction included. */
module ClientRate {
  import opened RateLimit

  /** When a client asks. */
  function TimesOf(ip: string, steps: seq<Step>): seq<real> {
    if steps == [] then []
    else (if steps[0].Request? && steps[0].ip == ip then [steps[0].at] else []) + TimesOf(ip, steps[1..])
  }

  /** How many of a client's requests are let through. */
  function AllowedFor(ip: string, steps: seq<Step>, answers: seq<bool>): nat {
    if steps == [] then 0
    else if steps[0].Evict? then AllowedFor(ip, steps[1..], answers)
    else if answers == [] then 0
    else (if steps[0].ip == ip && answers[0] then 1 else 0) + AllowedFor(ip, steps[1..], answers[1..])
  }

  /** At most burst + rps * elapsed between the client's first and last request. */
  ghost predicate Bounded(l: Limits, ip: string, steps: seq<Step>, answers: seq<bool>) {
    var ts := TimesOf(ip, steps);
    ts != [] ==> AllowedFor(ip, steps, answers) as real <= l.burst + Inflow(l, ts[0], ts[|ts| - 1])
  }

  /** The limiter's table after a trace. */
  function After(l: Limits, evicting: bool, cs: Clients, steps: seq<Step>): Clients
    decreases |steps|
  {
    if steps == [] then cs
    else
      match steps[0]
      case Request(ip, now) => After(l, evicting, Serve(l, cs, ip, now).0, steps[1..])
      case Evict(now) => After(l, evicting, if evicting then Evicted(cs, now) else cs, steps[1..])
  }

  /** The bound holds for every client, on every stretch of every ordered trace. */
  ghost predicate RateHolds(l: Limits) {
    forall before, stretch, ip :: InOrder(0.0, before + stretch) ==>
      Bounded(l, ip, stretch, Answers(l, true, After(l, true, map[], before), stretch))
  }

  // ---------- where eviction cannot be seen ----------

  /** The bucket a client's first request meets. */
  function BucketFor(l: Limits, cs: Clients, ip: string, ts: seq<real>): Bucket
    requires ts != []
  {
    if ip in cs then cs[ip].bucket else Fresh(l, ts[0])
  }

  lemma AllowedCons(x: bool, xs: seq<bool>)
    ensures Allowed([x] + xs) == (if x then 1 else 0) + Allowed(xs)
  {
    assert ([x] + xs)[1..] == xs;
  }

  /** A limiter that keeps every bucket answers each client from that client's bucket alone. */
  lemma {:induction false} AnsweredByOwnBucket(l: Limits, cs: Clients, ip: string, steps: seq<Step>)
    ensures var ts := TimesOf(ip, steps);
      AllowedFor(ip, steps, Answers(l, false, cs, steps))
      == if ts == [] then 0 else Allowed(AskAll(l, BucketFor(l, cs, ip, ts), ts).1)
    decreases |steps|
  {
    hide Ask;
    if steps != [] {
      var rest := steps[1..];
      assert [] + TimesOf(ip, rest) == TimesOf(ip, rest);
      match steps[0]
      case Evict(_) => AnsweredByOwnBucket(l, cs, ip, rest);
      case Request(other, now) =>
        var (cs', ok) := Serve(l, cs, other, now);
        AnsweredByOwnBucket(l, cs', ip, rest);
        var answers := Answers(l, false, cs, steps);
        assert answers[0] == ok && answers[1..] == Answers(l, false, cs', rest);
        if other == ip {
          OneMoreAsked(l, if ip in cs then cs[ip].bucket else Fresh(l, now), now, TimesOf(ip, rest));
          assert cs'[ip].bucket == Ask(l, if ip in cs then cs[ip].bucket else Fresh(l, now), now).0;
        }
    }
  }

  lemma OneMoreAsked(l: Limits, b: Bucket, now: real, ts: seq<real>)
    ensures Allowed(AskAll(l, b, [now] + ts).1)
         == (if Ask(l, b, now).1 then 1 else 0) + (if ts == [] then 0 else Allowed(AskAll(l, Ask(l, b, now).0, ts).1))
  {
    hide Ask;
    assert ([now] + ts)[1..] == ts;
    AllowedCons(Ask(l, b, now).1, AskAll(l, Ask(l, b, now).0, ts).1);
  }

  lemma {:induction false} TimesInOrder(from: real, ip: string, steps: seq<Step>)
    requires InOrder(from, steps)
    ensures Nondecreasing(from, TimesOf(ip, steps))
    decreases |steps|
  {
    if steps != [] {
      TimesInOrder(steps[0].at, ip, steps[1..]);
      var ts, rest := TimesOf(ip, steps), TimesOf(ip, steps[1..]);
      if steps[0].Request? && steps[0].ip == ip {
        assert ts[0] == steps[0].at && ts[1..] == rest;
        assert forall i :: 0 < i < |ts| ==> ts[i] == rest[i - 1];
      }
    }
  }

  function End(from: real, steps: seq<Step>): real { if steps == [] then from else steps[|steps| - 1].at }

  lemma {:induction false} InOrderSplit(from: real, before: seq<Step>, stretch: seq<Step>)
    requires InOrder(from, before + stretch)
    ensures InOrder(from, before) && InOrder(End(from, before), stretch) && from <= End(from, before)
    decreases |before|
  {
    if before == [] {
      assert before + stretch == stretch;
    } else {
      assert (before + stretch)[1..] == before[1..] + stretch;
      InOrderSplit(before[0].at, before[1..], stretch);
    }
  }

  lemma {:induction false} MirrorsAfter(l: Limits, now: real, evicting: Clients, keeping: Clients, steps: seq<Step>)
    requires Sensible(l) && l.burst <= l.rps * IDLE && Mirrors(l, now, evicting, keeping) && InOrder(now, steps)
    ensures Mirrors(l, End(now, steps), After(l, true, evicting, steps), After(l, false, keeping, steps))
    decreases |steps|
  {
    hide Serve, Mirrors;
    if steps != [] {
      var t := steps[0].at;
      match steps[0]
      case Request(ip, _) =>
        ServeMirrors(l, now, evicting, keeping, ip, t);
        MirrorsAfter(l, t, Serve(l, evicting, ip, t).0, Serve(l, keeping, ip, t).0, steps[1..]);
      case Evict(_) =>
        EvictMirrors(l, now, evicting, keeping, t);
        MirrorsAfter(l, t, Evicted(evicting, t), keeping, steps[1..]);
    }
  }

  lemma KeptBound(l: Limits, now: real, evicting: Clients, keeping: Clients, ip: string, steps: seq<Step>)
    requires Sensible(l) && Mirrors(l, now, evicting, keeping) && InOrder(now, steps)
    ensures Bounded(l, ip, steps, Answers(l, false, keeping, steps))
  {
    hide AskAll, Answers, AllowedFor, TimesOf, Allowed, InOrder, Inflow;
    var ts := TimesOf(ip, steps);
    AnsweredByOwnBucket(l, keeping, ip, steps);
    TimesInOrder(now, ip, steps);
    if ts != [] {
      BucketBound(l, BucketFor(l, keeping, ip, ts), ts);
    }
  }

  lemma BucketBound(l: Limits, b: Bucket, ts: seq<real>)
    requires Sensible(l) && InRange(l, b) && ts != [] && Nondecreasing(b.last, ts)
    ensures Allowed(AskAll(l, b, ts).1) as real <= l.burst + Inflow(l, ts[0], ts[|ts| - 1])
  {
    hide AskAll, Allowed, Nondecreasing, InRange;
    RateBound(l, b, ts);
    SameSpan(l, ts[0], ts[|ts| - 1]);
    hide Inflow;
  }

  lemma SameSpan(l: Limits, x: real, y: real)
    ensures Inflow(l, x, y) == l.rps * (y - x)
  {
  }

  lemma {:induction false} NoneAllowed(ip: string, steps: seq<Step>, answers: seq<bool>)
    requires forall i :: 0 <= i < |answers| ==> !answers[i]
    ensures AllowedFor(ip, steps, answers) == 0
    decreases |steps|
  {
    if steps != [] {
      NoneAllowed(ip, steps[1..], if steps[0].Evict? || answers == [] then answers else answers[1..]);
    }
  }

  lemma SpanIsPositive(l: Limits, from: real, ts: seq<real>)
    requires Sensible(l) && ts != [] && Nondecreasing(from, ts)
    ensures Inflow(l, ts[0], ts[|ts| - 1]) >= 0.0
  {
    LastIsLatest(from, ts);
    InflowAdds(l, ts[0], ts[|ts| - 1], ts[0]);
  }

  lemma {:induction false} LastIsLatest(from: real, ts: seq<real>)
    requires ts != [] && Nondecreasing(from, ts)
    ensures ts[0] <= ts[|ts| - 1]
    decreases |ts|
  {
    if |ts| > 1 {
      LastIsLatest(from, ts[..|ts| - 1]);
      assert ts[|ts| - 2] <= ts[|ts| - 2 + 1];
    }
  }

  lemma HoldsIf(l: Limits)
    requires Sensible(l) && (l.burst < 1.0 || l.burst <= l.rps * IDLE)
    ensures RateHolds(l)
  {
    hide Answers, After, Bounded;
    forall before, stretch, ip | InOrder(0.0, before + stretch)
      ensures Bounded(l, ip, stretch, Answers(l, true, After(l, true, map[], before), stretch))
    {
      InOrderSplit(0.0, before, stretch);
      var now, cs := End(0.0, before), After(l, true, map[], before);
      if l.burst < 1.0 {
        SmallBurstRefuses(l, true, cs, stretch);
        RefusedIsBounded(l, now, ip, stretch, Answers(l, true, cs, stretch));
      } else {
        MirrorsAfter(l, 0.0, map[], map[], before);
        LongIdleIsInvisible(l, now, cs, After(l, false, map[], before), stretch);
        KeptBound(l, now, cs, After(l, false, map[], before), ip, stretch);
      }
    }
  }

  lemma RefusedIsBounded(l: Limits, now: real, ip: string, steps: seq<Step>, answers: seq<bool>)
    requires Sensible(l) && InOrder(now, steps) && forall i :: 0 <= i < |answers| ==> !answers[i]
    ensures Bounded(l, ip, steps, answers)
  {
    NoneAllowed(ip, steps, answers);
    TimesInOrder(now, ip, steps);
    if TimesOf(ip, steps) != [] {
      SpanIsPositive(l, now, TimesOf(ip, steps));
    }
  }

  // ---------- where it can ----------

  lemma TimesCons(ip: string, now: real, steps: seq<Step>)
    ensures TimesOf(ip, [Request(ip, now)] + steps) == [now] + TimesOf(ip, steps)
  {
    assert ([Request(ip, now)] + steps)[1..] == steps;
  }

  lemma AsksFront(ip: string, ts: seq<real>, after: seq<Step>)
    ensures ts == [] ==> Asks(ip, ts) + after == after
    ensures ts != [] ==> Asks(ip, ts) + after == [Request(ip, ts[0])] + (Asks(ip, ts[1..]) + after)
  {
  }

  lemma FrontAgain<T>(xs: seq<T>, ys: seq<T>)
    ensures xs != [] ==> xs + ys == [xs[0]] + (xs[1..] + ys)
    ensures xs == [] ==> xs + ys == ys
  {
  }

  lemma {:induction false} TimesOfAsks(ip: string, ts: seq<real>, after: seq<Step>)
    ensures TimesOf(ip, Asks(ip, ts) + after) == ts + TimesOf(ip, after)
    decreases |ts|
  {
    hide TimesOf, Asks;
    AsksFront(ip, ts, after);
    FrontAgain(ts, TimesOf(ip, after));
    if ts != [] {
      TimesCons(ip, ts[0], Asks(ip, ts[1..]) + after);
      TimesOfAsks(ip, ts[1..], after);
    }
  }

  lemma AllowedForCons(ip: string, now: real, steps: seq<Step>, x: bool, xs: seq<bool>)
    ensures AllowedFor(ip, [Request(ip, now)] + steps, [x] + xs) == (if x then 1 else 0) + AllowedFor(ip, steps, xs)
  {
    assert ([Request(ip, now)] + steps)[1..] == steps && ([x] + xs)[1..] == xs;
  }

  lemma {:induction false} AllowedForAsks(ip: string, ts: seq<real>, after: seq<Step>, xs: seq<bool>, ys: seq<bool>)
    requires |xs| == |ts|
    ensures AllowedFor(ip, Asks(ip, ts) + after, xs + ys) == Allowed(xs) + AllowedFor(ip, after, ys)
    decreases |ts|
  {
    hide AllowedFor, Asks;
    AsksFront(ip, ts, after);
    FrontAgain(xs, ys);
    if ts != [] {
      AllowedForCons(ip, ts[0], Asks(ip, ts[1..]) + after, xs[0], xs[1..] + ys);
      AllowedForAsks(ip, ts[1..], after, xs[1..], ys);
    }
  }

  lemma {:induction false} AskAllLength(l: Limits, b: Bucket, ts: seq<real>)
    ensures |AskAll(l, b, ts).1| == |ts|
    decreases |ts|
  {
    if ts != [] {
      AskAllLength(l, Ask(l, b, ts[0]).0, ts[1..]);
    }
  }

  lemma TwoDrainTimes(ip: string, one: seq<real>, t: real, two: seq<real>)
    ensures TimesOf(ip, Asks(ip, one) + ([Evict(t)] + Asks(ip, two))) == one + two
  {
    var after := Asks(ip, two);
    TimesOfAsks(ip, one, [Evict(t)] + after);
    assert ([Evict(t)] + after)[1..] == after;
    TimesOfAsks(ip, two, []);
    assert after + [] == after && two + [] == two && [] + two == two;
  }

  lemma TwoDrainsAllowed(ip: string, one: seq<real>, t: real, two: seq<real>, xs: seq<bool>, ys: seq<bool>)
    requires |xs| == |one| && |ys| == |two|
    ensures AllowedFor(ip, Asks(ip, one) + ([Evict(t)] + Asks(ip, two)), xs + ys) == Allowed(xs) + Allowed(ys)
  {
    var after := Asks(ip, two);
    AllowedForAsks(ip, one, [Evict(t)] + after, xs, ys);
    assert ([Evict(t)] + after)[1..] == after;
    AllowedForAsks(ip, two, [], ys, []);
    assert after + [] == after && ys + [] == ys;
  }

  /** Drain, wait to be evicted, drain again: one client alone gets both drains. */
  lemma TwoDrains(l: Limits, ip: string, one: seq<real>, t: real, two: seq<real>)
    requires one != [] && one[0] == 0.0 && two != [] && two[0] == t
    requires t - AskAll(l, Fresh(l, 0.0), one).0.last > IDLE
    ensures var steps := Asks(ip, one) + ([Evict(t)] + Asks(ip, two));
      AllowedFor(ip, steps, Answers(l, true, map[], steps))
      == Allowed(AskAll(l, Fresh(l, 0.0), one).1) + Allowed(AskAll(l, Fresh(l, t), two).1)
  {
    var after := Asks(ip, two);
    var steps := Asks(ip, one) + ([Evict(t)] + after);
    assert steps[0] == Request(ip, 0.0) && after[0] == Request(ip, t);
    var full := Fresh(l, 0.0);
    hide AskAll, Answers, Ask, Asks, AllowedFor, Allowed;
    FirstRequestMakesTheBucket(l, true, ip, steps);
    Probe(l, true, ip, full, one, t, after);
    FirstRequestMakesTheBucket(l, true, ip, after);
    AloneIsTheBucket(l, true, ip, Client(Fresh(l, t), t), two);
    AskAllLength(l, full, one);
    AskAllLength(l, Fresh(l, t), two);
    TwoDrainsAllowed(ip, one, t, two, AskAll(l, full, one).1, AskAll(l, Fresh(l, t), two).1);
  }

  /** Drain a full bucket: what gets through is all that was there and all that flowed in, but for less than
      a token where nothing flows. */
  lemma DrainFull(l: Limits, start: real) returns (ts: seq<real>, left: Bucket, n: nat)
    requires Sensible(l) && l.burst >= 1.0
    ensures ts != [] && ts[0] == start && Nondecreasing(start, ts) && left.last == ts[|ts| - 1] >= start
    ensures left == AskAll(l, Fresh(l, start), ts).0 && n == Allowed(AskAll(l, Fresh(l, start), ts).1)
    ensures InRange(l, left) && left.tokens < 1.0 && (l.rps > 0.0 ==> left.tokens == 0.0)
    ensures n as real + left.tokens == l.burst + Inflow(l, start, left.last)
  {
    ts := Drain(l, Fresh(l, start));
    Budget(l, Fresh(l, start), ts);
    LastIsLatest(start, ts);
    left, n := AskAll(l, Fresh(l, start), ts).0, Allowed(AskAll(l, Fresh(l, start), ts).1);
  }

  /** The client gets more than the bound allows. */
  lemma ExceedsIf(l: Limits) returns (steps: seq<Step>, ip: string)
    requires Sensible(l) && l.burst >= 1.0 && l.burst > l.rps * IDLE
    ensures InOrder(0.0, steps) && !Bounded(l, ip, steps, Answers(l, true, map[], steps))
  {
    hide AskAll, Answers, Inflow, AllowedFor, TimesOf, Refilled, Allowed, Asks, InOrder;
    ip := "";
    var one, b, n := DrainFull(l, 0.0);
    var t := LeftNotFull(l, b);
    var two, b', n' := DrainFull(l, t);
    steps := Asks(ip, one) + ([Evict(t)] + Asks(ip, two));
    ProbeInOrder(ip, one, t, two);
    TwoDrains(l, ip, one, t, two);
    TwoDrainTimes(ip, one, t, two);
    InflowAdds(l, 0.0, b.last, t);
    InflowAdds(l, 0.0, t, b'.last);
    if l.rps == 0.0 {
      NothingFlows(l, 0.0, b.last);
      NothingFlows(l, 0.0, b'.last);
      NothingFlows(l, t, b'.last);
    }
    assert (n + n') as real > l.burst + Inflow(l, 0.0, b'.last);
    var ts := one + two;
    assert ts[0] == 0.0 && ts[|ts| - 1] == b'.last;
  }

  /** A client's rate is bounded through the whole limiter exactly when eviction cannot be seen. */
  lemma RateHoldsIff(l: Limits)
    requires Sensible(l)
    ensures RateHolds(l) <==> l.burst < 1.0 || l.burst <= l.rps * 300.0
  {
    if l.burst < 1.0 || l.burst <= l.rps * IDLE {
      HoldsIf(l);
    } else {
      var steps, ip := ExceedsIf(l);
      assert [] + steps == steps;
      assert After(l, true, map[], []) == map[];
    }
  }
}
