/** Exactly which requests a token bucket lets through: every one that keeps every stretch within the burst and the
    rate, so a refusal takes nothing away. */
module Refill {
  import opened RateLimit

  /** `x` more tokens at `t` would keep every stretch up to `t`, and what the bucket began with, within bounds. */
  ghost predicate Room(l: Limits, b: Bucket, ts: seq<real>, answers: seq<bool>, t: real, x: real)
    requires |answers| == |ts|
  {
    && x <= l.burst
    && Allowed(answers) as real + x <= b.tokens + Inflow(l, b.last, t)
    && forall j :: 0 <= j < |ts| ==> Allowed(answers[j..]) as real + x <= l.burst + Inflow(l, ts[j], t)
  }

  lemma {:induction false} AskSnoc(l: Limits, b: Bucket, ts: seq<real>, t: real)
    ensures var (b', answers) := AskAll(l, b, ts);
      AskAll(l, b, ts + [t]) == (Ask(l, b', t).0, answers + [Ask(l, b', t).1]) && |answers| == |ts|
    decreases |ts|
  {
    hide Ask;
    if ts == [] {
      assert [] + [t] == [t] && [t][1..] == [];
      assert AskAll(l, Ask(l, b, t).0, []) == (Ask(l, b, t).0, []);
      assert [Ask(l, b, t).1] + [] == [] + [Ask(l, b, t).1];
    } else {
      assert (ts + [t])[1..] == ts[1..] + [t];
      AskSnoc(l, Ask(l, b, ts[0]).0, ts[1..], t);
      var (b', answers) := AskAll(l, Ask(l, b, ts[0]).0, ts[1..]);
      var first, last := [Ask(l, b, ts[0]).1], [Ask(l, b', t).1];
      assert first + (answers + last) == (first + answers) + last;
    }
  }

  lemma {:induction false} AllowedSnoc(answers: seq<bool>, ok: bool)
    ensures Allowed(answers + [ok]) == Allowed(answers) + if ok then 1 else 0
    decreases |answers|
  {
    if answers == [] {
      assert [] + [ok] == [ok] && [ok][1..] == [];
    } else {
      assert (answers + [ok])[1..] == answers[1..] + [ok];
      AllowedSnoc(answers[1..], ok);
    }
  }

  lemma FlowAdds(l: Limits, x: real, y: real, z: real)
    ensures Inflow(l, x, z) == Inflow(l, x, y) + Inflow(l, y, z)
    ensures Inflow(l, x, x) == 0.0
  {
  }

  /** What flows in is the time in seconds times the rate. */
  lemma FlowIs(l: Limits, x: real, y: real)
    ensures Inflow(l, x, y) == (y - x) * l.rps
  {
  }

  /** The bound on the stretch from the j-th request on, with one more request made. */
  lemma StretchSnoc(l: Limits, ts: seq<real>, answers: seq<bool>, t: real, ok: bool, t': real, x: real, j: nat)
    requires |answers| == |ts| && j <= |ts|
    ensures var y := x + (if ok then 1.0 else 0.0) - Inflow(l, t, t');
      Allowed((answers + [ok])[j..]) as real + x <= l.burst + Inflow(l, (ts + [t])[j], t')
      <==> if j == |ts| then y <= l.burst else Allowed(answers[j..]) as real + y <= l.burst + Inflow(l, ts[j], t)
  {
    hide Inflow;
    assert (answers + [ok])[j..] == answers[j..] + [ok];
    AllowedSnoc(answers[j..], ok);
    FlowAdds(l, (ts + [t])[j], t, t');
    hide Allowed;
    if j == |ts| {
      NoneAllowedYet(answers[j..]);
      FlowAdds(l, t, t, t');
    }
  }

  lemma NoneAllowedYet(answers: seq<bool>)
    requires answers == []
    ensures Allowed(answers) == 0
  {
  }

  /** A request more, and room is counted from it. */
  lemma RoomSnoc(l: Limits, b: Bucket, ts: seq<real>, answers: seq<bool>, t: real, ok: bool, t': real, x: real)
    requires |answers| == |ts|
    ensures Room(l, b, ts + [t], answers + [ok], t', x)
       <==> x <= l.burst && Room(l, b, ts, answers, t, x + (if ok then 1.0 else 0.0) - Inflow(l, t, t'))
  {
    hide Inflow, Allowed;
    var y := x + (if ok then 1.0 else 0.0) - Inflow(l, t, t');
    AllowedSnoc(answers, ok);
    FlowAdds(l, b.last, t, t');
    forall j | 0 <= j <= |ts|
      ensures Allowed((answers + [ok])[j..]) as real + x <= l.burst + Inflow(l, (ts + [t])[j], t')
         <==> if j == |ts| then y <= l.burst else Allowed(answers[j..]) as real + y <= l.burst + Inflow(l, ts[j], t)
    {
      StretchSnoc(l, ts, answers, t, ok, t', x, j);
    }
    if Room(l, b, ts + [t], answers + [ok], t', x) {
      assert Allowed((answers + [ok])[|ts|..]) as real + x <= l.burst + Inflow(l, (ts + [t])[|ts|], t');
    }
  }

  /** The tokens in a bucket are the largest amount there is room for. */
  lemma {:induction false} RefilledIsRoom(l: Limits, b: Bucket, ts: seq<real>, t: real, x: real)
    ensures var (b', answers) := AskAll(l, b, ts);
      |answers| == |ts| && (Room(l, b, ts, answers, t, x) <==> x <= Refilled(l, b', t))
    decreases |ts|
  {
    hide Inflow, Ask;
    if ts == [] {
      assert AskAll(l, b, ts) == (b, []);
      NoneAllowedYet([]);
    } else {
      hide Room, AskAll, Refilled;
      var n := |ts| - 1;
      assert ts == ts[..n] + [ts[n]];
      AskSnoc(l, b, ts[..n], ts[n]);
      var (b', answers) := AskAll(l, b, ts[..n]);
      var (b'', ok) := Ask(l, b', ts[n]);
      RefilledIsRoom(l, b, ts[..n], ts[n], x + (if ok then 1.0 else 0.0) - Inflow(l, ts[n], t));
      RoomSnoc(l, b, ts[..n], answers, ts[n], ok, t, x);
      RefillAfterAsk(l, b', ts[n], t, x);
    }
  }

  lemma RefillAfterAsk(l: Limits, b: Bucket, t: real, t': real, x: real)
    ensures var (b', ok) := Ask(l, b, t);
      x <= Refilled(l, b', t') <==>
        x <= l.burst && x + (if ok then 1.0 else 0.0) - Inflow(l, t, t') <= Refilled(l, b, t)
  {
    hide Inflow;
    assert Ask(l, b, t).0.tokens + (if Ask(l, b, t).1 then 1.0 else 0.0) == Refilled(l, b, t);
  }

  /** A request is let through exactly when one token more keeps every stretch that ends with it within the burst
      and what flows in over the stretch, and all of it within what the bucket held and what flowed in since. */
  lemma LetThroughIff(l: Limits, b: Bucket, ts: seq<real>, k: nat)
    requires k < |ts|
    ensures var answers := AskAll(l, b, ts).1;
      && |answers| == |ts|
      && (answers[k] <==>
            && 1.0 <= l.burst
            && Allowed(answers[..k]) as real + 1.0 <= b.tokens + Inflow(l, b.last, ts[k])
            && forall j :: 0 <= j < k ==> Allowed(answers[j..k]) as real + 1.0 <= l.burst + Inflow(l, ts[j], ts[k]))
  {
    LetThroughIfRoom(l, b, ts, k);
    var answers := AskAll(l, b, ts).1;
    hide AskAll, Inflow, Allowed;
    assert forall j :: 0 <= j < k ==> answers[..k][j..] == answers[j..k] && ts[..k][j] == ts[j];
  }

  lemma LetThroughIfRoom(l: Limits, b: Bucket, ts: seq<real>, k: nat)
    requires k < |ts|
    ensures var answers := AskAll(l, b, ts).1;
      |answers| == |ts| && (answers[k] <==> Room(l, b, ts[..k], answers[..k], ts[k], 1.0))
  {
    hide AskAll, Inflow, Allowed, Room;
    AnswerOfPrefix(l, b, ts, k);
    RefilledIsRoom(l, b, ts[..k], ts[k], 1.0);
  }

  /** Later requests do not change earlier answers. */
  lemma {:induction false} AnswerOfPrefix(l: Limits, b: Bucket, ts: seq<real>, k: nat)
    requires k < |ts|
    ensures var answers, (b', before) := AskAll(l, b, ts).1, AskAll(l, b, ts[..k]);
      |answers| == |ts| && before == answers[..k] && answers[k] == Ask(l, b', ts[k]).1
    decreases |ts|
  {
    hide Ask;
    var n := |ts| - 1;
    AskSnoc(l, b, ts[..n], ts[n]);
    assert ts == ts[..n] + [ts[n]];
    if k < n {
      assert ts[..n][..k] == ts[..k];
      AnswerOfPrefix(l, b, ts[..n], k);
    }
  }

  /** While the bucket would not run over, no token is lost: what was let through and what is left is what was there
      and what flowed in. */
  lemma {:induction false} ExactAccount(l: Limits, b: Bucket, ts: seq<real>)
    requires Sensible(l) && Nondecreasing(b.last, ts)
    requires ts != [] ==> b.tokens + Inflow(l, b.last, ts[|ts| - 1]) <= l.burst
    ensures var (b', answers) := AskAll(l, b, ts);
      && b'.last == (if ts == [] then b.last else ts[|ts| - 1])
      && Allowed(answers) as real + b'.tokens == b.tokens + Inflow(l, b.last, b'.last)
    decreases |ts|
  {
    hide Inflow, Ask;
    if ts == [] {
      FlowAdds(l, b.last, b.last, b.last);
    } else {
      hide AskAll, Allowed;
      var n := |ts| - 1;
      if n > 0 {
        assert ts[n - 1] <= ts[n - 1 + 1];
        FlowAdds(l, b.last, ts[n - 1], ts[n]);
        InflowAdds(l, ts[n - 1], ts[n], ts[n]);
      }
      ExactAccount(l, b, ts[..n]);
      assert ts == ts[..n] + [ts[n]];
      ExactSnoc(l, b, ts[..n], ts[n]);
    }
  }

  lemma ExactSnoc(l: Limits, b: Bucket, ts: seq<real>, t: real)
    requires b.tokens + Inflow(l, b.last, t) <= l.burst
    requires var (b', answers) := AskAll(l, b, ts);
      Allowed(answers) as real + b'.tokens == b.tokens + Inflow(l, b.last, b'.last)
    ensures var (b', answers) := AskAll(l, b, ts + [t]);
      b'.last == t && Allowed(answers) as real + b'.tokens == b.tokens + Inflow(l, b.last, t)
  {
    hide AskAll, Allowed, Inflow, Ask;
    var (b', answers) := AskAll(l, b, ts);
    FlowAdds(l, b.last, b'.last, t);
    AskSnoc(l, b, ts, t);
    AllowedSnoc(answers, Ask(l, b', t).1);
    AskExactly(l, b', t);
  }

  lemma AskExactly(l: Limits, b: Bucket, t: real)
    requires b.tokens + Inflow(l, b.last, t) <= l.burst
    ensures var (b', ok) := Ask(l, b, t);
      b'.last == t && b'.tokens + (if ok then 1.0 else 0.0) == b.tokens + Inflow(l, b.last, t)
  {
    hide Inflow;
  }

  /** A refused request changes no later answer: asking too early costs nothing. */
  lemma RefusalCostsNothing(l: Limits, b: Bucket, t: real, ts: seq<real>)
    requires Sensible(l) && Nondecreasing(t, ts) && !AskAll(l, b, [t]).1[0]
    ensures AskAll(l, b, [t] + ts).1 == [false] + AskAll(l, b, ts).1
  {
    var b' := Ask(l, b, t).0;
    assert ([t] + ts)[1..] == ts && !Ask(l, b, t).1;
    if ts != [] {
      InflowAdds(l, t, ts[0], ts[0]);
      FlowAdds(l, b.last, t, ts[0]);
      hide Inflow;
      assert Ask(l, b', ts[0]) == Ask(l, b, ts[0]);
      hide Ask;
      SameFrom(l, b', b, ts);
    }
  }

  /** After a refusal the next request is let through from the moment on at which the missing part of a token has
      flowed in. */
  lemma RetryIff(l: Limits, b: Bucket, t: real, t': real)
    requires l.rps > 0.0 && l.burst >= 1.0 && !Ask(l, b, t).1
    ensures var left := Ask(l, b, t).0.tokens;
      && left < 1.0 && left == b.tokens + (t - b.last) * l.rps
      && (Ask(l, Ask(l, b, t).0, t').1 <==> t' >= t + (1.0 - left) / l.rps)
  {
    var left := Ask(l, b, t).0.tokens;
    var wait := (1.0 - left) / l.rps;
    assert wait * l.rps == 1.0 - left;
    assert (t' - t) * l.rps == wait * l.rps + (t' - t - wait) * l.rps;
    assert t' - t >= wait <==> (t' - t - wait) * l.rps >= 0.0;
  }

  /** Of requests made all at once, a new client gets as many as the burst has whole tokens. */
  lemma {:induction false} BurstAtOnce(l: Limits, t: real, ts: seq<real>)
    requires forall i :: 0 <= i < |ts| ==> ts[i] == t
    ensures var (b, answers) := AskAll(l, Fresh(l, t), ts);
      && |answers| == |ts| && (forall k :: 0 <= k < |ts| ==> (answers[k] <==> (k + 1) as real <= l.burst))
      && b.last == t && Allowed(answers) as real + b.tokens == l.burst
      && Allowed(answers) <= |ts| && (Allowed(answers) == |ts| || b.tokens < 1.0)
    decreases |ts|
  {
    hide Inflow;
    if ts == [] {
      NoneAllowedYet([]);
    } else {
      var n := |ts| - 1;
      assert ts == ts[..n] + [t];
      AskSnoc(l, Fresh(l, t), ts[..n], t);
      BurstAtOnce(l, t, ts[..n]);
      hide AskAll, Allowed;
      var (b, answers) := AskAll(l, Fresh(l, t), ts[..n]);
      FlowAdds(l, t, t, t);
      AllowedSnoc(answers, Ask(l, b, t).1);
    }
  }

  /** One token a second, one at most: half a second early is refused and costs nothing. */
  lemma EarlyThenOnTime(t: real)
    ensures AskAll(Limits(1.0, 1.0), Bucket(1.0, t), [t, t + 0.5, t + 1.0]).1 == [true, false, true]
  {
    var l := Limits(1.0, 1.0);
    var ts := [t, t + 0.5, t + 1.0];
    FlowIs(l, t, t);
    FlowIs(l, t, t + 0.5);
    FlowIs(l, t + 0.5, t + 1.0);
    hide Inflow;
    assert Ask(l, Bucket(1.0, t), t) == (Bucket(0.0, t), true);
    assert Ask(l, Bucket(0.0, t), t + 0.5) == (Bucket(0.5, t + 0.5), false);
    assert Ask(l, Bucket(0.5, t + 0.5), t + 1.0) == (Bucket(0.0, t + 1.0), true);
    hide Ask;
    assert ts[1..] == [t + 0.5, t + 1.0] && ts[1..][1..] == [t + 1.0] && ts[1..][1..][1..] == [];
    assert AskAll(l, Bucket(0.5, t + 0.5), [t + 1.0]).1 == [true] + [];
    assert AskAll(l, Bucket(0.0, t), [t + 0.5, t + 1.0]).1 == [false] + [true];
  }
}
