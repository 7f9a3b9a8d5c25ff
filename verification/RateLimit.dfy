/** The per-client token bucket of the API gateway, and the limiter that forgets idle clients. Times are
    in seconds. */
module RateLimit {

  datatype Limits = Limits(rps: real, burst: real)

  predicate Sensible(l: Limits) { l.rps >= 0.0 && l.burst >= 0.0 }

  datatype Bucket = Bucket(tokens: real, last: real)

  function Fresh(l: Limits, now: real): Bucket { Bucket(l.burst, now) }

  /** Tokens that flow in between two instants. */
  function Inflow(l: Limits, from: real, to: real): real { (to - from) * l.rps }

  lemma InflowAdds(l: Limits, x: real, y: real, z: real)
    requires Sensible(l) && x <= y
    ensures Inflow(l, x, y) >= 0.0
    ensures Inflow(l, x, y) + Inflow(l, y, z) == Inflow(l, x, z)
    ensures Inflow(l, x, x) == 0.0
  {
  }

  function Refilled(l: Limits, b: Bucket, now: real): real {
    var t := b.tokens + Inflow(l, b.last, now);
    if t > l.burst then l.burst else t
  }

  /** One request: refill, then spend a token if there is a whole one. */
  function Ask(l: Limits, b: Bucket, now: real): (Bucket, bool) {
    var t := Refilled(l, b, now);
    if t >= 1.0 then (Bucket(t - 1.0, now), true) else (Bucket(t, now), false)
  }

  predicate InRange(l: Limits, b: Bucket) { 0.0 <= b.tokens <= l.burst }

  // ---------- how much a bucket lets through ----------

  ghost predicate Nondecreasing(from: real, ts: seq<real>) {
    && (ts != [] ==> from <= ts[0])
    && forall i :: 0 <= i < |ts| - 1 ==> ts[i] <= ts[i + 1]
  }

  function AskAll(l: Limits, b: Bucket, ts: seq<real>): (Bucket, seq<bool>)
    decreases |ts|
  {
    if ts == [] then (b, [])
    else
      var (b', ok) := Ask(l, b, ts[0]);
      var (b'', rest) := AskAll(l, b', ts[1..]);
      (b'', [ok] + rest)
  }

  function Allowed(answers: seq<bool>): nat {
    if answers == [] then 0 else (if answers[0] then 1 else 0) + Allowed(answers[1..])
  }

  lemma AskKeeps(l: Limits, b: Bucket, now: real)
    requires Sensible(l) && InRange(l, b) && b.last <= now
    ensures InRange(l, Ask(l, b, now).0) && Ask(l, b, now).0.last == now
    ensures Ask(l, b, now).0.tokens + (if Ask(l, b, now).1 then 1.0 else 0.0) <= b.tokens + Inflow(l, b.last, now)
  {
    hide Inflow;
    InflowAdds(l, b.last, now, now);
  }

  /** What is left and what was let through never exceed what was there and what flowed in; tokens
      stay between zero and the burst. */
  lemma {:induction false} Budget(l: Limits, b: Bucket, ts: seq<real>)
    requires Sensible(l) && InRange(l, b) && Nondecreasing(b.last, ts)
    ensures InRange(l, AskAll(l, b, ts).0)
    ensures AskAll(l, b, ts).0.last == if ts == [] then b.last else ts[|ts| - 1]
    ensures AskAll(l, b, ts).0.tokens + Allowed(AskAll(l, b, ts).1) as real
         <= b.tokens + Inflow(l, b.last, AskAll(l, b, ts).0.last)
    decreases |ts|
  {
    hide Inflow, Ask;
    if ts == [] {
      InflowAdds(l, b.last, b.last, b.last);
    } else {
      AskKeeps(l, b, ts[0]);
      var (b', ok) := Ask(l, b, ts[0]);
      var (b'', rest) := AskAll(l, b', ts[1..]);
      Budget(l, b', ts[1..]);
      assert ([ok] + rest)[1..] == rest;
      InflowAdds(l, b.last, b'.last, b''.last);
    }
  }

  /** Between the first and the last of any requests in a row, at most burst + rps * elapsed are let
      through. */
  lemma RateBound(l: Limits, b: Bucket, ts: seq<real>)
    requires Sensible(l) && InRange(l, b) && ts != [] && Nondecreasing(b.last, ts)
    ensures Allowed(AskAll(l, b, ts).1) as real <= l.burst + l.rps * (ts[|ts| - 1] - ts[0])
  {
    var start := Bucket(Refilled(l, b, ts[0]), ts[0]);
    assert l.rps * (ts[|ts| - 1] - ts[0]) == Inflow(l, ts[0], ts[|ts| - 1]);
    hide Inflow, AskAll;
    InflowAdds(l, b.last, ts[0], ts[0]);
    InflowAdds(l, ts[0], ts[0], ts[0]);
    assert Ask(l, b, ts[0]) == Ask(l, start, ts[0]);
    SameFrom(l, b, start, ts);
    Budget(l, start, ts);
  }

  lemma SameFrom(l: Limits, b: Bucket, b': Bucket, ts: seq<real>)
    requires ts != [] && Ask(l, b, ts[0]) == Ask(l, b', ts[0])
    ensures AskAll(l, b, ts) == AskAll(l, b', ts)
  {
  }

  // ---------- the limiter ----------

  datatype Client = Client(bucket: Bucket, seen: real)

  type Clients = map<string, Client>

  /** A client idle for longer than five minutes is forgotten. */
  const IDLE := 300.0

  /** A request reads the clock up to three times: for a new bucket, for the client entry, and in the bucket. */
  function ServeAt(l: Limits, cs: Clients, ip: string, created: real, seen: real, now: real): (Clients, bool) {
    var b := if ip in cs then cs[ip].bucket else Fresh(l, created);
    var (b', ok) := Ask(l, b, now);
    (cs[ip := Client(b', seen)], ok)
  }

  /** A request during which the clock stands still. */
  function Serve(l: Limits, cs: Clients, ip: string, now: real): (Clients, bool) {
    ServeAt(l, cs, ip, now, now, now)
  }

  function Evicted(cs: Clients, now: real): Clients {
    map ip | ip in cs && !(now - cs[ip].seen > IDLE) :: cs[ip]
  }

  datatype Step = Request(ip: string, at: real) | Evict(at: real)

  /** The answers to the requests of a trace, with eviction or without. */
  function Answers(l: Limits, evicting: bool, cs: Clients, steps: seq<Step>): seq<bool>
    decreases |steps|
  {
    if steps == [] then []
    else
      match steps[0]
      case Request(ip, now) =>
        var (cs', ok) := Serve(l, cs, ip, now);
        [ok] + Answers(l, evicting, cs', steps[1..])
      case Evict(now) =>
        Answers(l, evicting, if evicting then Evicted(cs, now) else cs, steps[1..])
  }

  ghost predicate InOrder(from: real, steps: seq<Step>)
    decreases |steps|
  {
    steps == [] || (from <= steps[0].at && InOrder(steps[0].at, steps[1..]))
  }

  // ---------- when eviction cannot be seen ----------

  /** The limiter that evicts, next to one that keeps every bucket: they share what both have, and
      whoever only one still has has been idle long enough. */
  ghost predicate Mirrors(l: Limits, now: real, evicting: Clients, keeping: Clients) {
    && (forall ip :: ip in evicting ==> ip in keeping && evicting[ip] == keeping[ip])
    && (forall ip :: ip in keeping ==>
          && keeping[ip].seen == keeping[ip].bucket.last <= now && InRange(l, keeping[ip].bucket)
          && (ip !in evicting ==> now - keeping[ip].seen > IDLE))
  }

  /** A bucket that has been idle long enough answers as a new one does. */
  lemma IdleIsFresh(l: Limits, b: Bucket, now: real)
    requires Sensible(l) && InRange(l, b) && now - b.last > IDLE && l.burst <= l.rps * IDLE
    ensures Ask(l, b, now) == Ask(l, Fresh(l, now), now)
  {
    var slack := now - b.last - IDLE;
    assert Inflow(l, b.last, now) >= l.burst by {
      assert (now - b.last) * l.rps == IDLE * l.rps + slack * l.rps;
      assert slack * l.rps >= 0.0;
    }
    InflowAdds(l, now, now, now);
    hide Inflow;
  }

  lemma ServeMirrors(l: Limits, before: real, evicting: Clients, keeping: Clients, ip: string, now: real)
    requires Sensible(l) && l.burst <= l.rps * IDLE && before <= now
    requires Mirrors(l, before, evicting, keeping)
    ensures Serve(l, evicting, ip, now).1 == Serve(l, keeping, ip, now).1
    ensures Mirrors(l, now, Serve(l, evicting, ip, now).0, Serve(l, keeping, ip, now).0)
  {
    if ip in keeping && ip !in evicting {
      IdleIsFresh(l, keeping[ip].bucket, now);
    }
    AskKeeps(l, if ip in keeping then keeping[ip].bucket else Fresh(l, now), now);
    hide Ask;
  }

  lemma {:induction false} LongIdleIsInvisible(l: Limits, now: real, evicting: Clients, keeping: Clients,
                                               steps: seq<Step>)
    requires Sensible(l) && l.burst <= l.rps * IDLE
    requires Mirrors(l, now, evicting, keeping) && InOrder(now, steps)
    ensures Answers(l, true, evicting, steps) == Answers(l, false, keeping, steps)
    decreases |steps|
  {
    hide Serve, Mirrors;
    if steps != [] {
      match steps[0]
      case Request(ip, t) =>
        ServeMirrors(l, now, evicting, keeping, ip, t);
        LongIdleIsInvisible(l, t, Serve(l, evicting, ip, t).0, Serve(l, keeping, ip, t).0, steps[1..]);
      case Evict(t) =>
        EvictMirrors(l, now, evicting, keeping, t);
        LongIdleIsInvisible(l, t, Evicted(evicting, t), keeping, steps[1..]);
    }
  }

  lemma EvictMirrors(l: Limits, before: real, evicting: Clients, keeping: Clients, now: real)
    requires before <= now && Mirrors(l, before, evicting, keeping)
    ensures Mirrors(l, now, Evicted(evicting, now), keeping)
  {
  }

  /** With less than one token of burst every request is refused. */
  lemma {:induction false} SmallBurstRefuses(l: Limits, evicting: bool, cs: Clients, steps: seq<Step>)
    requires l.burst < 1.0
    ensures forall i :: 0 <= i < |Answers(l, evicting, cs, steps)| ==> !Answers(l, evicting, cs, steps)[i]
    ensures |Answers(l, evicting, cs, steps)| == Requests(steps)
    decreases |steps|
  {
    if steps != [] {
      match steps[0]
      case Request(ip, t) => SmallBurstRefuses(l, evicting, Serve(l, cs, ip, t).0, steps[1..]);
      case Evict(t) => SmallBurstRefuses(l, evicting, if evicting then Evicted(cs, t) else cs, steps[1..]);
    }
  }

  function Requests(steps: seq<Step>): nat {
    if steps == [] then 0 else (if steps[0].Request? then 1 else 0) + Requests(steps[1..])
  }

  /** On every ordered trace, evicting idle clients changes no answer. */
  ghost predicate Invisible(l: Limits) {
    forall steps :: InOrder(0.0, steps) ==> Answers(l, true, map[], steps) == Answers(l, false, map[], steps)
  }

  lemma InvisibleIf(l: Limits)
    requires Sensible(l) && (l.burst < 1.0 || l.burst <= l.rps * IDLE)
    ensures Invisible(l)
  {
    forall steps | InOrder(0.0, steps)
      ensures Answers(l, true, map[], steps) == Answers(l, false, map[], steps)
    {
      if l.burst < 1.0 {
        SmallBurstRefuses(l, true, map[], steps);
        SmallBurstRefuses(l, false, map[], steps);
      } else {
        LongIdleIsInvisible(l, 0.0, map[], map[], steps);
      }
    }
  }

  // ---------- when eviction can be seen ----------

  function Asks(ip: string, ts: seq<real>): seq<Step>
    decreases |ts|
  {
    if ts == [] then [] else [Request(ip, ts[0])] + Asks(ip, ts[1..])
  }

  /** Requests that leave a bucket with no token, or with less than one where none flow in. */
  lemma {:induction false} Drain(l: Limits, b: Bucket) returns (ts: seq<real>)
    requires Sensible(l) && l.burst >= 1.0 && InRange(l, b)
    ensures Nondecreasing(b.last, ts)
    ensures b.tokens >= 1.0 ==> ts != [] && ts[0] == b.last
    ensures AskAll(l, b, ts).0.tokens < 1.0
    ensures l.rps > 0.0 ==> AskAll(l, b, ts).0.tokens == 0.0
    ensures Allowed(AskAll(l, b, ts).1) as real + AskAll(l, b, ts).0.tokens
         == b.tokens + Inflow(l, b.last, AskAll(l, b, ts).0.last)
    decreases b.tokens.Floor
  {
    InflowAdds(l, b.last, b.last, b.last);
    if b.tokens >= 1.0 {
      var (b', ok) := Ask(l, b, b.last);
      assert b' == Bucket(b.tokens - 1.0, b.last) by { hide Inflow; }
      var rest := Drain(l, b');
      ts := [b.last] + rest;
      assert ts[1..] == rest;
    } else if l.rps > 0.0 {
      var wait := (1.0 - b.tokens) / l.rps;
      ts := [b.last + wait];
      assert Inflow(l, b.last, ts[0]) == wait * l.rps == 1.0 - b.tokens;
      assert ts[1..] == [];
      hide Inflow;
      assert Ask(l, b, ts[0]).0 == Bucket(0.0, ts[0]);
    } else {
      ts := [];
    }
  }

  /** Two different fillings of a bucket are told apart by some later requests. */
  lemma {:induction false} Distinguish(l: Limits, u: real, v: real, now: real) returns (ts: seq<real>)
    requires Sensible(l) && 0.0 <= u < v <= l.burst && l.burst >= 1.0
    requires l.rps > 0.0 || u < 1.0 <= v
    ensures ts != [] && Nondecreasing(now, ts)
    ensures AskAll(l, Bucket(u, now), ts).1 != AskAll(l, Bucket(v, now), ts).1
    decreases u.Floor
  {
    InflowAdds(l, now, now, now);
    if u >= 1.0 {
      assert Ask(l, Bucket(u, now), now) == (Bucket(u - 1.0, now), true) by { hide Inflow; }
      assert Ask(l, Bucket(v, now), now) == (Bucket(v - 1.0, now), true) by { hide Inflow; }
      var rest := Distinguish(l, u - 1.0, v - 1.0, now);
      ts := [now] + rest;
      assert ts[1..] == rest;
      SameTail(true, AskAll(l, Bucket(u - 1.0, now), rest).1, AskAll(l, Bucket(v - 1.0, now), rest).1);
    } else {
      var wait := if v >= 1.0 then 0.0 else (1.0 - v) / l.rps;
      ts := [now + wait];
      assert v < 1.0 ==> Inflow(l, now, ts[0]) == wait * l.rps == 1.0 - v;
      hide Inflow;
      assert !Ask(l, Bucket(u, now), ts[0]).1;
      assert Ask(l, Bucket(v, now), ts[0]).1;
      assert !AskAll(l, Bucket(u, now), ts).1[0];
      assert AskAll(l, Bucket(v, now), ts).1[0];
    }
  }

  lemma SameTail(x: bool, xs: seq<bool>, ys: seq<bool>)
    ensures [x] + xs == [x] + ys ==> xs == ys
  {
    assert ([x] + xs)[1..] == xs && ([x] + ys)[1..] == ys;
  }

  /** One client alone is answered by its own bucket. */
  lemma {:induction false} AloneIsTheBucket(l: Limits, evicting: bool, ip: string, c: Client, ts: seq<real>)
    ensures Answers(l, evicting, map[ip := c], Asks(ip, ts)) == AskAll(l, c.bucket, ts).1
    decreases |ts|
  {
    hide Ask;
    if ts != [] {
      var c' := Client(Ask(l, c.bucket, ts[0]).0, ts[0]);
      assert map[ip := c][ip := c'] == map[ip := c'];
      AloneIsTheBucket(l, evicting, ip, c', ts[1..]);
    }
  }

  lemma FirstRequestMakesTheBucket(l: Limits, evicting: bool, ip: string, steps: seq<Step>)
    requires steps != [] && steps[0].Request? && steps[0].ip == ip
    ensures Answers(l, evicting, map[], steps)
         == Answers(l, evicting, map[ip := Client(Fresh(l, steps[0].at), steps[0].at)], steps)
  {
    hide Ask;
    var now := steps[0].at;
    var c' := Client(Ask(l, Fresh(l, now), now).0, now);
    var none: Clients := map[];
    assert none[ip := c'] == map[ip := Client(Fresh(l, now), now)][ip := c'];
  }

  /** Requests, an eviction pass, and whatever follows, for one client alone. */
  lemma {:induction false} Probe(l: Limits, evicting: bool, ip: string, b: Bucket, ts: seq<real>, t: real,
                                 after: seq<Step>)
    ensures var b' := AskAll(l, b, ts).0;
      Answers(l, evicting, map[ip := Client(b, b.last)], Asks(ip, ts) + ([Evict(t)] + after))
      == AskAll(l, b, ts).1
         + Answers(l, evicting, if evicting && t - b'.last > IDLE then map[] else map[ip := Client(b', b'.last)], after)
    decreases |ts|
  {
    var cs := map[ip := Client(b, b.last)];
    var steps := Asks(ip, ts) + ([Evict(t)] + after);
    if ts == [] {
      assert steps[0] == Evict(t) && steps[1..] == after;
      assert Evicted(cs, t) == if t - b.last > IDLE then map[] else cs;
      assert AskAll(l, b, ts) == (b, []);
    } else {
      var (b', ok) := Ask(l, b, ts[0]);
      assert b'.last == ts[0];
      assert cs[ip := Client(b', ts[0])] == map[ip := Client(b', b'.last)];
      assert steps[0] == Request(ip, ts[0]);
      assert steps[1..] == Asks(ip, ts[1..]) + ([Evict(t)] + after);
      Probe(l, evicting, ip, b', ts[1..], t, after);
      hide Ask;
    }
  }

  lemma OneMoreInOrder(from: real, s: Step, steps: seq<Step>)
    requires from <= s.at && InOrder(s.at, steps)
    ensures InOrder(from, [s] + steps)
  {
    assert ([s] + steps)[1..] == steps;
  }

  lemma {:induction false} AsksInOrder(from: real, ip: string, ts: seq<real>, after: seq<Step>)
    requires Nondecreasing(from, ts)
    requires InOrder(if ts == [] then from else ts[|ts| - 1], after)
    ensures InOrder(from, Asks(ip, ts) + after)
    decreases |ts|
  {
    if ts == [] {
      assert Asks(ip, ts) + after == after;
    } else {
      AsksInOrder(ts[0], ip, ts[1..], after);
      hide InOrder;
      OneMoreInOrder(from, Request(ip, ts[0]), Asks(ip, ts[1..]) + after);
      assert Asks(ip, ts) + after == [Request(ip, ts[0])] + (Asks(ip, ts[1..]) + after);
    }
  }

  lemma NothingFlows(l: Limits, x: real, y: real)
    requires l.rps == 0.0
    ensures Inflow(l, x, y) == 0.0
  {
  }

  /** A bucket drained and left for a little more than five minutes that is not full again. */
  lemma LeftNotFull(l: Limits, b: Bucket) returns (t: real)
    requires Sensible(l) && l.burst >= 1.0 && l.burst > l.rps * IDLE && InRange(l, b)
    requires b.tokens < 1.0 && (l.rps > 0.0 ==> b.tokens == 0.0)
    ensures t - b.last > IDLE
    ensures Refilled(l, b, t) == b.tokens + Inflow(l, b.last, t) < l.burst
    ensures l.rps == 0.0 ==> Refilled(l, b, t) < 1.0
    ensures Refilled(l, b, t) >= 0.0
  {
    var d := if l.rps == 0.0 then IDLE + 1.0 else (IDLE + l.burst / l.rps) / 2.0;
    t := b.last + d;
    if l.rps == 0.0 {
      NothingFlows(l, b.last, t);
    } else {
      var q := l.burst / l.rps;
      assert q * l.rps == l.burst;
      assert (q - IDLE) * l.rps > 0.0;
      assert d < q;
      assert Inflow(l, b.last, t) == d * l.rps < q * l.rps;
    }
    InflowAdds(l, b.last, t, t);
  }

  /** Asking later is the same from the bucket brought up to date without having filled. */
  lemma BroughtUpToDate(l: Limits, b: Bucket, t: real, ts: seq<real>)
    requires Sensible(l) && ts != [] && b.last <= t <= ts[0]
    requires Refilled(l, b, t) == b.tokens + Inflow(l, b.last, t)
    ensures AskAll(l, b, ts) == AskAll(l, Bucket(Refilled(l, b, t), t), ts)
  {
    InflowAdds(l, b.last, t, ts[0]);
    hide Inflow, AskAll;
    SameFrom(l, b, Bucket(Refilled(l, b, t), t), ts);
  }

  lemma FreshStaysFull(l: Limits, t: real, ts: seq<real>)
    requires Sensible(l) && ts != [] && t <= ts[0]
    ensures AskAll(l, Bucket(l.burst, t), ts) == AskAll(l, Fresh(l, ts[0]), ts)
  {
    InflowAdds(l, t, ts[0], ts[0]);
    hide Inflow, AskAll;
    SameFrom(l, Bucket(l.burst, t), Fresh(l, ts[0]), ts);
  }

  /** Eviction shows: drain a bucket, leave it a little over five minutes, and probe it. */
  lemma ShortIdleIsSeen(l: Limits) returns (steps: seq<Step>)
    requires Sensible(l) && l.burst >= 1.0 && l.burst > l.rps * IDLE
    ensures InOrder(0.0, steps)
    ensures Answers(l, true, map[], steps) != Answers(l, false, map[], steps)
  {
    var ip := "";
    var full := Fresh(l, 0.0);
    var drain := Drain(l, full);
    Budget(l, full, drain);
    var b := AskAll(l, full, drain).0;
    var t := LeftNotFull(l, b);
    var u := Refilled(l, b, t);
    var probe := Distinguish(l, u, l.burst, t);
    var after := Asks(ip, probe);
    steps := Asks(ip, drain) + ([Evict(t)] + after);
    hide AskAll, Ask, Inflow, Refilled, Answers, Evicted;
    Probe(l, true, ip, full, drain, t, after);
    Probe(l, false, ip, full, drain, t, after);
    FirstRequestMakesTheBucket(l, true, ip, steps);
    FirstRequestMakesTheBucket(l, false, ip, steps);
    FirstRequestMakesTheBucket(l, true, ip, after);
    AloneIsTheBucket(l, true, ip, Client(Fresh(l, probe[0]), probe[0]), probe);
    AloneIsTheBucket(l, false, ip, Client(b, b.last), probe);
    BroughtUpToDate(l, b, t, probe);
    FreshStaysFull(l, t, probe);
    DifferentEnds(AskAll(l, full, drain).1, AskAll(l, Fresh(l, probe[0]), probe).1, AskAll(l, b, probe).1);
    ProbeInOrder(ip, drain, t, probe);
  }

  lemma DifferentEnds(xs: seq<bool>, ys: seq<bool>, zs: seq<bool>)
    requires ys != zs
    ensures xs + ys != xs + zs
  {
    assert (xs + ys)[|xs|..] == ys && (xs + zs)[|xs|..] == zs;
  }

  lemma ProbeInOrder(ip: string, drain: seq<real>, t: real, probe: seq<real>)
    requires Nondecreasing(0.0, drain) && Nondecreasing(t, probe)
    requires (if drain == [] then 0.0 else drain[|drain| - 1]) <= t
    ensures InOrder(0.0, Asks(ip, drain) + ([Evict(t)] + Asks(ip, probe)))
  {
    AsksInOrder(t, ip, probe, []);
    assert Asks(ip, probe) + [] == Asks(ip, probe);
    var rest := [Evict(t)] + Asks(ip, probe);
    assert rest[0] == Evict(t) && rest[1..] == Asks(ip, probe);
    AsksInOrder(0.0, ip, drain, rest);
  }

  /** Forgetting clients idle for five minutes is invisible on every trace exactly when a bucket fills
      in five minutes, or can never hold a whole token. */
  lemma EvictionIsInvisibleIff(l: Limits)
    requires Sensible(l)
    ensures Invisible(l) <==> l.burst < 1.0 || l.burst <= l.rps * 300.0
  {
    if l.burst < 1.0 || l.burst <= l.rps * IDLE {
      InvisibleIf(l);
    } else {
      var steps := ShortIdleIsSeen(l);
    }
  }
}
