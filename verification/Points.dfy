/** How one submission's measurements become points. */
module Points {

  datatype Config = Config(
    maxP99: int, targetTps: real,
    latencyWeight: real, tpsWeight: real, correctnessWeight: real,
    crashPenalty: int, timeoutPenalty: int, scale: real)

  const DEFAULT := Config(100_000_000, 10_000.0, 0.4, 0.3, 0.3, 10_000, 1_000, 1_000.0)

  datatype Inputs = Inputs(p99: int, tps: real, correctness: real, crashes: int, timeouts: int)

  function Clamp01(x: real): real { if x < 0.0 then 0.0 else if x > 1.0 then 1.0 else x }

  /** To the nearest integer, halves away from zero. */
  function Round(x: real): int { if x >= 0.0 then (x + 0.5).Floor else -((0.5 - x).Floor) }

  predicate Usable(c: Config) { c.maxP99 > 0 && c.targetTps > 0.0 }

  /** Weights, scale and penalties that reward what is better. */
  predicate Fair(c: Config) {
    && Usable(c) && c.scale >= 0.0
    && c.latencyWeight >= 0.0 && c.tpsWeight >= 0.0 && c.correctnessWeight >= 0.0
    && c.crashPenalty >= 0 && c.timeoutPenalty >= 0
  }

  function LatencyNorm(c: Config, p99: int): real
    requires Usable(c)
  {
    Clamp01(1.0 - p99 as real / c.maxP99 as real)
  }

  function TpsNorm(c: Config, tps: real): real
    requires Usable(c)
  {
    Clamp01(tps / c.targetTps)
  }

  function Weighted(c: Config, lat: real, tps: real, corr: real): real {
    c.scale * (c.latencyWeight * lat + c.tpsWeight * tps + c.correctnessWeight * corr)
  }

  function Base(c: Config, x: Inputs): real
    requires Usable(c)
  {
    Weighted(c, LatencyNorm(c, x.p99), TpsNorm(c, x.tps), Clamp01(x.correctness))
  }

  function Penalty(c: Config, x: Inputs): int { x.crashes * c.crashPenalty + x.timeouts * c.timeoutPenalty }

  function FinalScore(c: Config, x: Inputs): int
    requires Usable(c)
  {
    var final := Round(Base(c, x)) - Penalty(c, x);
    if final > 0 then final else 0
  }

  /** The most points a policy can give. */
  function FullMarks(c: Config): int { Round(Weighted(c, 1.0, 1.0, 1.0)) }

  // ---------- better never scores lower ----------

  /** x is nowhere better than y. */
  predicate NoBetter(x: Inputs, y: Inputs) {
    && x.p99 >= y.p99 && x.tps <= y.tps && x.correctness <= y.correctness
    && x.crashes >= y.crashes && x.timeouts >= y.timeouts
  }

  lemma RoundMonotone(x: real, y: real)
    requires x <= y
    ensures Round(x) <= Round(y)
  {
  }

  lemma Scales(k: real, x: real, y: real)
    requires k >= 0.0 && x <= y
    ensures k * x <= k * y
  {
  }

  lemma Divides(k: real, x: real, y: real)
    requires k > 0.0 && x <= y
    ensures x / k <= y / k
  {
    Scales(1.0 / k, x, y);
    assert x / k == (1.0 / k) * x && y / k == (1.0 / k) * y;
  }

  /** Three products at once. */
  lemma SumsMonotone(k: real, k': real, k'': real, x: real, y: real, x': real, y': real, x'': real, y'': real)
    requires k >= 0.0 && k' >= 0.0 && k'' >= 0.0 && x <= y && x' <= y' && x'' <= y''
    ensures k * x + k' * x' + k'' * x'' <= k * y + k' * y' + k'' * y''
  {
    Scales(k, x, y);
    Scales(k', x', y');
    Scales(k'', x'', y'');
  }

  lemma WeightedMonotone(c: Config, lat: real, lat': real, tps: real, tps': real, corr: real, corr': real)
    requires Fair(c) && lat <= lat' && tps <= tps' && corr <= corr'
    ensures Weighted(c, lat, tps, corr) <= Weighted(c, lat', tps', corr')
  {
    SumsMonotone(c.latencyWeight, c.tpsWeight, c.correctnessWeight, lat, lat', tps, tps', corr, corr');
    var x := c.latencyWeight * lat + c.tpsWeight * tps + c.correctnessWeight * corr;
    var y := c.latencyWeight * lat' + c.tpsWeight * tps' + c.correctnessWeight * corr';
    Scales(c.scale, x, y);
    assert Weighted(c, lat, tps, corr) == c.scale * x && Weighted(c, lat', tps', corr') == c.scale * y;
  }

  lemma PenaltyMonotone(c: Config, x: Inputs, y: Inputs)
    requires Fair(c) && NoBetter(x, y)
    ensures Penalty(c, y) <= Penalty(c, x)
  {
    var a, b := x.crashes - y.crashes, x.timeouts - y.timeouts;
    assert a * c.crashPenalty >= 0 && b * c.timeoutPenalty >= 0;
    assert x.crashes * c.crashPenalty == y.crashes * c.crashPenalty + a * c.crashPenalty;
    assert x.timeouts * c.timeoutPenalty == y.timeouts * c.timeoutPenalty + b * c.timeoutPenalty;
  }

  lemma BaseMonotone(c: Config, x: Inputs, y: Inputs)
    requires Fair(c) && NoBetter(x, y)
    ensures Base(c, x) <= Base(c, y)
  {
    Divides(c.maxP99 as real, y.p99 as real, x.p99 as real);
    Divides(c.targetTps, x.tps, y.tps);
    hide Weighted;
    WeightedMonotone(c, LatencyNorm(c, x.p99), LatencyNorm(c, y.p99), TpsNorm(c, x.tps), TpsNorm(c, y.tps),
                     Clamp01(x.correctness), Clamp01(y.correctness));
  }

  /** Measurements that are nowhere worse never score lower. */
  lemma BetterScoresNoLower(c: Config, x: Inputs, y: Inputs)
    requires Fair(c) && NoBetter(x, y)
    ensures FinalScore(c, x) <= FinalScore(c, y)
  {
    hide Base, Penalty, Round;
    BaseMonotone(c, x, y);
    PenaltyMonotone(c, x, y);
    RoundMonotone(Base(c, x), Base(c, y));
  }

  // ---------- what the score is bounded by ----------

  /** Every measurement at its best. */
  function Flawless(c: Config): Inputs { Inputs(0, c.targetTps, 1.0, 0, 0) }

  lemma FlawlessEarnsFullMarks(c: Config)
    requires Fair(c)
    ensures Base(c, Flawless(c)) == Weighted(c, 1.0, 1.0, 1.0)
    ensures Penalty(c, Flawless(c)) == 0
  {
    assert 0 as real / c.maxP99 as real == 0.0;
    assert c.targetTps / c.targetTps == 1.0;
    hide Weighted;
  }

  lemma BaseAtMostFullMarks(c: Config, x: Inputs)
    requires Fair(c)
    ensures 0 <= Round(Base(c, x)) <= FullMarks(c)
  {
    WeightedMonotone(c, 0.0, LatencyNorm(c, x.p99), 0.0, TpsNorm(c, x.tps), 0.0, Clamp01(x.correctness));
    WeightedMonotone(c, LatencyNorm(c, x.p99), 1.0, TpsNorm(c, x.tps), 1.0, Clamp01(x.correctness), 1.0);
    assert Weighted(c, 0.0, 0.0, 0.0) == 0.0;
    hide Weighted;
    RoundMonotone(0.0, Base(c, x));
    RoundMonotone(Base(c, x), Weighted(c, 1.0, 1.0, 1.0));
    assert Round(0.0) == 0;
  }

  /** Counts of crashes and timeouts as a run reports them. */
  predicate Counts(x: Inputs) { x.crashes >= 0 && x.timeouts >= 0 }

  /** A score lies between nothing and full marks, and a flawless run earns them. */
  lemma ScoreInRange(c: Config, x: Inputs)
    requires Fair(c) && Counts(x)
    ensures 0 <= FinalScore(c, x) <= FullMarks(c)
    ensures FinalScore(c, Flawless(c)) == FullMarks(c)
  {
    BaseAtMostFullMarks(c, x);
    BaseAtMostFullMarks(c, Flawless(c));
    FlawlessEarnsFullMarks(c);
    assert Penalty(c, x) >= 0 by {
      assert x.crashes * c.crashPenalty >= 0 && x.timeouts * c.timeoutPenalty >= 0;
    }
    hide Base, Penalty, Round, Weighted;
  }

  /** Every run with a crash or a timeout is worth nothing. */
  ghost predicate FaultsForfeit(c: Config)
    requires Usable(c)
  {
    forall x: Inputs :: Counts(x) && (x.crashes > 0 || x.timeouts > 0) ==> FinalScore(c, x) == 0
  }

  lemma AtLeastOnce(n: int, k: int)
    requires n >= 1 && k >= 0
    ensures n * k >= k
  {
    assert (n - 1) * k >= 0;
  }

  /** A single crash or timeout forfeits every point exactly when each penalty is worth full marks. */
  lemma FaultsForfeitIff(c: Config)
    requires Fair(c)
    ensures FaultsForfeit(c) <==> c.crashPenalty >= FullMarks(c) && c.timeoutPenalty >= FullMarks(c)
  {
    if c.crashPenalty >= FullMarks(c) && c.timeoutPenalty >= FullMarks(c) {
      forall x: Inputs | Counts(x) && (x.crashes > 0 || x.timeouts > 0)
        ensures FinalScore(c, x) == 0
      {
        FaultForfeits(c, x);
      }
    } else {
      var perfect := Flawless(c);
      FlawlessEarnsFullMarks(c);
      var fault := if c.crashPenalty < FullMarks(c) then perfect.(crashes := 1) else perfect.(timeouts := 1);
      assert Base(c, fault) == Base(c, perfect);
      hide Base, Round, Weighted;
      assert Penalty(c, fault) < FullMarks(c);
      assert FinalScore(c, fault) > 0;
    }
  }

  lemma FaultForfeits(c: Config, x: Inputs)
    requires Fair(c) && Counts(x) && (x.crashes > 0 || x.timeouts > 0)
    requires c.crashPenalty >= FullMarks(c) && c.timeoutPenalty >= FullMarks(c)
    ensures FinalScore(c, x) == 0
  {
    BaseAtMostFullMarks(c, x);
    assert Penalty(c, x) >= FullMarks(c) by {
      if x.crashes > 0 {
        AtLeastOnce(x.crashes, c.crashPenalty);
      } else {
        assert x.crashes * c.crashPenalty == 0;
      }
      if x.timeouts > 0 {
        AtLeastOnce(x.timeouts, c.timeoutPenalty);
      } else {
        assert x.timeouts * c.timeoutPenalty == 0;
      }
    }
    hide Base, Penalty, Round;
  }

  /** A flawless run with one crash loses exactly the penalty. */
  lemma OneCrashCosts(c: Config)
    requires Fair(c) && FullMarks(c) > c.crashPenalty
    ensures FinalScore(c, Flawless(c).(crashes := 1)) == FullMarks(c) - c.crashPenalty
  {
    var x := Flawless(c).(crashes := 1);
    FlawlessEarnsFullMarks(c);
    SameBase(c, x, Flawless(c));
    hide Base, Weighted, Round;
    assert Penalty(c, x) == c.crashPenalty;
  }

  /** With a penalty of 10 points a crash does not forfeit full marks: a flawless run with one crash keeps 990. */
  lemma SmallPenaltyIsNoForfeit(c: Config)
    requires c == DEFAULT.(crashPenalty := 10)
    ensures FinalScore(c, Flawless(c).(crashes := 1)) == 990 && !FaultsForfeit(c)
  {
    SameWeights(c);
    DefaultFullMarks();
    hide FinalScore, Weighted, Round, FaultsForfeit;
    OneCrashCosts(c);
    FaultsForfeitIff(c);
  }

  lemma SameBase(c: Config, x: Inputs, y: Inputs)
    requires Usable(c) && x.p99 == y.p99 && x.tps == y.tps && x.correctness == y.correctness
    ensures Base(c, x) == Base(c, y)
  {
  }

  lemma SameWeights(c: Config)
    requires c == DEFAULT.(crashPenalty := c.crashPenalty)
    ensures Weighted(c, 1.0, 1.0, 1.0) == Weighted(DEFAULT, 1.0, 1.0, 1.0)
  {
  }

  lemma DefaultFullMarks()
    ensures FullMarks(DEFAULT) == 1000
  {
    assert Weighted(DEFAULT, 1.0, 1.0, 1.0) == 1000.0;
  }

  /** Under the default policy a score is between 0 and 1000, and any crash or timeout makes it 0. */
  lemma DefaultPolicy(x: Inputs)
    requires Counts(x)
    ensures 0 <= FinalScore(DEFAULT, x) <= 1000
    ensures x.crashes > 0 || x.timeouts > 0 ==> FinalScore(DEFAULT, x) == 0
  {
    DefaultFullMarks();
    hide FinalScore, FullMarks;
    ScoreInRange(DEFAULT, x);
    if x.crashes > 0 || x.timeouts > 0 {
      FaultForfeits(DEFAULT, x);
    }
  }

  // ---------- what each measurement is worth ----------

  /** Rounding goes to the nearest integer, and halves go away from zero. */
  lemma RoundIsNearest(x: real)
    ensures var n := Round(x) as real;
      && -0.5 <= n - x <= 0.5
      && (n - x == 0.5 ==> x >= 0.0) && (n - x == -0.5 ==> x < 0.0)
  {
  }

  /** A run without faults earns its rounded base; each crash and each timeout then costs its penalty, down to
      nothing. */
  lemma FaultsCost(c: Config, x: Inputs)
    requires Fair(c)
    ensures var clean := FinalScore(c, x.(crashes := 0, timeouts := 0));
      var left := clean - (x.crashes * c.crashPenalty + x.timeouts * c.timeoutPenalty);
      && clean == Round(Base(c, x))
      && FinalScore(c, x) == if left > 0 then left else 0
  {
    var y := x.(crashes := 0, timeouts := 0);
    BaseAtMostFullMarks(c, x);
    assert Base(c, y) == Base(c, x) && Penalty(c, y) == 0;
    hide Base, Round;
  }

  /** Measurements within their scales. */
  predicate OnScale(x: Inputs) {
    0 <= x.p99 <= 100_000_000 && 0.0 <= x.tps <= 10_000.0 && 0.0 <= x.correctness <= 1.0
  }

  /** By default latency is worth 400 points, less 4 for each millisecond; the rate 3 for each hundred orders a
      second, up to 300; correctness 300. A crash costs 10000 points, a timeout 1000. */
  lemma DefaultWorth(x: Inputs)
    requires OnScale(x)
    ensures Base(DEFAULT, x) == 400.0 * (1.0 - x.p99 as real / 100_000_000.0)
                              + 300.0 * (x.tps / 10_000.0) + 300.0 * x.correctness
    ensures DEFAULT.crashPenalty == 10_000 && DEFAULT.timeoutPenalty == 1_000
  {
    var lat := 1.0 - x.p99 as real / 100_000_000.0;
    Divides(100_000_000.0, 0.0, x.p99 as real);
    Divides(100_000_000.0, x.p99 as real, 100_000_000.0);
    Divides(10_000.0, 0.0, x.tps);
    Divides(10_000.0, x.tps, 10_000.0);
  }

  /** A measurement off its scale counts as the nearest end of it. */
  lemma OffScale(x: Inputs)
    ensures x.p99 < 0 ==> Base(DEFAULT, x) == Base(DEFAULT, x.(p99 := 0))
    ensures x.p99 > 100_000_000 ==> Base(DEFAULT, x) == Base(DEFAULT, x.(p99 := 100_000_000))
    ensures x.tps < 0.0 ==> Base(DEFAULT, x) == Base(DEFAULT, x.(tps := 0.0))
    ensures x.tps > 10_000.0 ==> Base(DEFAULT, x) == Base(DEFAULT, x.(tps := 10_000.0))
    ensures x.correctness < 0.0 ==> Base(DEFAULT, x) == Base(DEFAULT, x.(correctness := 0.0))
    ensures x.correctness > 1.0 ==> Base(DEFAULT, x) == Base(DEFAULT, x.(correctness := 1.0))
  {
    hide Weighted;
    assert x.p99 < 0 ==> x.p99 as real / 100_000_000.0 < 0.0;
    assert x.p99 > 100_000_000 ==> x.p99 as real / 100_000_000.0 > 1.0;
    assert x.tps < 0.0 ==> x.tps / 10_000.0 < 0.0;
    assert x.tps > 10_000.0 ==> x.tps / 10_000.0 > 1.0;
  }

  lemma Earns(x: Inputs, points: nat)
    requires x.crashes == 0 && x.timeouts == 0 && Base(DEFAULT, x) == points as real
    ensures FinalScore(DEFAULT, x) == points
  {
    hide Base;
  }

  /** Alone, the best latency earns 400 points, the best rate 300 and full correctness 300. */
  lemma AloneWorth()
    ensures FinalScore(DEFAULT, Inputs(0, 0.0, 0.0, 0, 0)) == 400
    ensures FinalScore(DEFAULT, Inputs(100_000_000, 10_000.0, 0.0, 0, 0)) == 300
    ensures FinalScore(DEFAULT, Inputs(100_000_000, 0.0, 1.0, 0, 0)) == 300
  {
    hide Base, FinalScore;
    DefaultWorth(Inputs(0, 0.0, 0.0, 0, 0));
    DefaultWorth(Inputs(100_000_000, 10_000.0, 0.0, 0, 0));
    DefaultWorth(Inputs(100_000_000, 0.0, 1.0, 0, 0));
    Earns(Inputs(0, 0.0, 0.0, 0, 0), 400);
    Earns(Inputs(100_000_000, 10_000.0, 0.0, 0, 0), 300);
    Earns(Inputs(100_000_000, 0.0, 1.0, 0, 0), 300);
  }
}
