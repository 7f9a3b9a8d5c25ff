/** The API gateway's limiter as it runs: one mutable bucket per client, a table of clients, and the pass
    that forgets idle ones. Clock readings are parameters. */
module Limiter {
  import opened RateLimit

  class TokenBucket {
    const limits: Limits
    var tokens: real
    var last: real

    constructor (l: Limits, now: real)
      ensures limits == l && Value() == Fresh(l, now)
    {
      limits := l;
      tokens := l.burst;
      last := now;
    }

    function Value(): Bucket
      reads this
    {
      Bucket(tokens, last)
    }

    method Allow(now: real) returns (ok: bool)
      modifies this
      ensures (Value(), ok) == Ask(limits, old(Value()), now)
    {
      hide Inflow;
      tokens := tokens + Inflow(limits, last, now);
      if tokens > limits.burst {
        tokens := limits.burst;
      }
      last := now;
      if tokens >= 1.0 {
        tokens := tokens - 1.0;
        return true;
      }
      return false;
    }
  }

  datatype ClientEntry = ClientEntry(bkt: TokenBucket, seen: real)

  class IPLimiter {
    const limits: Limits
    var clients: map<string, ClientEntry>
    /** What the limiter knows of each client. */
    ghost var table: Clients

    constructor (l: Limits)
      ensures Valid() && limits == l && table == map[] && clients == map[]
    {
      limits := l;
      clients := map[];
      table := map[];
    }

    ghost function Buckets(): set<TokenBucket>
      reads this
    {
      set ip | ip in clients :: clients[ip].bkt
    }

    /** No two clients share a bucket, and the table says what is in each. */
    ghost predicate Valid()
      reads this, Buckets()
    {
      && clients.Keys == table.Keys
      && (forall ip :: ip in clients ==> Entered(ip))
      && (forall ip, ip' :: ip in clients && ip' in clients && ip != ip' ==> clients[ip].bkt != clients[ip'].bkt)
    }

    ghost predicate Entered(ip: string)
      requires ip in clients && ip in table
      reads this, clients[ip].bkt
    {
      && clients[ip].bkt.limits == limits
      && table[ip] == Client(clients[ip].bkt.Value(), clients[ip].seen)
    }

    /** The client's bucket, a new one if it has none, with the client entry marked as seen. */
    method Enter(ip: string, created: real, seen: real) returns (bkt: TokenBucket)
      requires Valid()
      modifies this
      ensures Valid() && ip in clients && clients[ip].bkt == bkt
      ensures fresh(Buckets() - old(Buckets())) && bkt.limits == limits
      ensures var b := if ip in old(table) then old(table)[ip].bucket else Fresh(limits, created);
        table == old(table)[ip := Client(b, seen)]
    {
      if ip in clients {
        assert Entered(ip);
        bkt := clients[ip].bkt;
      } else {
        bkt := new TokenBucket(limits, created);
      }
      table := table[ip := Client(bkt.Value(), seen)];
      clients := clients[ip := ClientEntry(bkt, seen)];
      forall other | other in clients ensures Entered(other) {
        assert other != ip ==> old(Entered(other));
      }
    }

    method Allow(ip: string, created: real, seen: real, now: real) returns (ok: bool)
      requires Valid()
      modifies this, Buckets()
      ensures Valid() && fresh(Buckets() - old(Buckets()))
      ensures (table, ok) == ServeAt(limits, old(table), ip, created, seen, now)
      ensures table.Keys == old(table).Keys + {ip} && table[ip].seen == seen
      ensures forall other :: other in old(table) && other != ip ==> table[other] == old(table)[other]
    {
      hide Ask, ServeAt, Entered;
      ServedInTwo(limits, table, ip, created, seen, now);
      var bkt := Enter(ip, created, seen);
      ok := Spend(ip, bkt, now, seen);
    }

    /** Ask the client's bucket. */
    method Spend(ip: string, bkt: TokenBucket, now: real, ghost seen: real) returns (ok: bool)
      requires Valid() && ip in clients && ip in table && clients[ip].bkt == bkt && bkt.limits == limits
      requires table[ip].seen == seen
      modifies this`table, bkt
      ensures Valid() && clients == old(clients)
      ensures var (b, answer) := Ask(limits, old(table)[ip].bucket, now);
        ok == answer && table == old(table)[ip := Client(b, seen)]
    {
      hide Ask;
      assert Entered(ip);
      ok := bkt.Allow(now);
      table := table[ip := Client(bkt.Value(), seen)];
      forall other | other in clients ensures Entered(other) {
        assert old(Entered(other));
      }
    }

    method Evict(now: real)
      requires Valid()
      modifies this
      ensures Valid() && Buckets() <= old(Buckets())
      ensures table == Evicted(old(table), now)
      ensures forall ip :: ip in clients <==> ip in old(clients) && now - old(clients)[ip].seen <= 300.0
      ensures forall ip :: ip in clients ==> clients[ip] == old(clients)[ip]
    {
      var todo := clients.Keys;
      while todo != {}
        invariant todo <= old(clients).Keys && table == old(table)
        invariant clients.Keys <= old(clients).Keys
        invariant forall ip :: ip in clients ==> clients[ip] == old(clients)[ip]
        invariant forall ip :: ip in old(clients) ==>
          (ip in clients <==> ip in todo || !(now - old(clients)[ip].seen > IDLE))
        decreases |todo|
      {
        var ip :| ip in todo;
        todo := todo - {ip};
        if now - clients[ip].seen > IDLE {
          clients := clients - {ip};
        }
      }
      table := Evicted(table, now);
      forall ip | ip in clients ensures Entered(ip) {
      }
    }
  }

  /** Entering the client and asking its bucket serve the request. */
  lemma ServedInTwo(l: Limits, cs: Clients, ip: string, created: real, seen: real, now: real)
    ensures var b := if ip in cs then cs[ip].bucket else Fresh(l, created);
      var (b', ok) := Ask(l, b, now);
      ServeAt(l, cs, ip, created, seen, now) == (cs[ip := Client(b, seen)][ip := Client(b', seen)], ok)
  {
    hide Ask;
    var b := if ip in cs then cs[ip].bucket else Fresh(l, created);
    var (b', ok) := Ask(l, b, now);
    assert cs[ip := Client(b, seen)][ip := Client(b', seen)] == cs[ip := Client(b', seen)];
  }

  /** The limiter over a whole trace of requests and eviction passes. */
  method RunTrace(l: Limits, steps: seq<Step>) returns (answers: seq<bool>)
    ensures answers == Answers(l, true, map[], steps)
  {
    hide ServeAt, Evicted, Answers, IPLimiter.Valid;
    var limiter := new IPLimiter(l);
    answers := [];
    for i := 0 to |steps|
      invariant limiter.Valid() && limiter.limits == l && fresh(limiter) && fresh(limiter.Buckets())
      invariant answers + Answers(l, true, limiter.table, steps[i..]) == Answers(l, true, map[], steps)
    {
      OneMoreStep(l, limiter.table, steps, i);
      match steps[i]
      case Request(ip, now) =>
        var ok := limiter.Allow(ip, now, now, now);
        answers := answers + [ok];
      case Evict(now) =>
        limiter.Evict(now);
    }
    NoMoreSteps(l, limiter.table);
    assert steps[|steps|..] == [] && answers + [] == answers;
  }

  lemma OneMoreStep(l: Limits, cs: Clients, steps: seq<Step>, i: nat)
    requires i < |steps|
    ensures steps[i].Request? ==>
      var served := ServeAt(l, cs, steps[i].ip, steps[i].at, steps[i].at, steps[i].at);
      Answers(l, true, cs, steps[i..]) == [served.1] + Answers(l, true, served.0, steps[i + 1..])
    ensures steps[i].Evict? ==>
      Answers(l, true, cs, steps[i..]) == Answers(l, true, Evicted(cs, steps[i].at), steps[i + 1..])
  {
    hide ServeAt, Evicted;
    assert steps[i..][0] == steps[i] && steps[i..][1..] == steps[i + 1..];
  }

  lemma NoMoreSteps(l: Limits, cs: Clients)
    ensures Answers(l, true, cs, []) == []
  {
  }
}
