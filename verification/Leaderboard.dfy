/** What the leaderboard stores and why: every write is one submission's score, justified by that
    submission's own verdict, and a contestant ranks by the best of them. Any number of replicas write,
    each write being one atomic step. */
module Leaderboard {
  import opened Options
  import opened Points

  // ---------- one tick: from fetched rows to writes ----------

  datatype Snap = Snap(contestant: string, submission: string, timeouts: int, tps: real, p99: int)

  datatype Verdict = Verdict(contestant: string, submission: string, checked: int, correctness: real)

  datatype Crash = Crash(contestant: string, submission: string, crashes: int)

  datatype Fetched<T> = Rows(rows: seq<T>) | Failed

  datatype Feed = Feed(snaps: Fetched<Snap>, verdicts: Fetched<Verdict>, crashes: Fetched<Crash>)

  datatype Upsert = Upsert(contestant: string, submission: string, score: int)

  /** An unreachable crash source counts as no crash. */
  function CrashRows(f: Feed): seq<Crash> {
    if f.crashes.Rows? then f.crashes.rows else []
  }

  /** Whether a verdict speaks for a snapshot: for its submission where it names one, and otherwise for
      its contestant. A verdict that checked nothing never does. */
  predicate Speaks(v: Verdict, s: Snap) {
    v.checked > 0 && (if s.submission != "" then v.submission == s.submission else v.contestant == s.contestant)
  }

  /** The latest verdict that speaks for a snapshot. */
  function OwnVerdict(vs: seq<Verdict>, s: Snap): Option<real> {
    if vs == [] then None
    else if Speaks(vs[|vs| - 1], s) then Some(vs[|vs| - 1].correctness)
    else OwnVerdict(vs[..|vs| - 1], s)
  }

  /** A submission's latest crash row, or the sum of a contestant's rows for a snapshot without a submission. */
  function OwnCrashes(cs: seq<Crash>, s: Snap): int {
    if cs == [] then 0
    else
      var c := cs[|cs| - 1];
      var earlier := OwnCrashes(cs[..|cs| - 1], s);
      if s.submission != "" then (if c.submission == s.submission then c.crashes else earlier)
      else earlier + (if c.contestant == s.contestant then c.crashes else 0)
  }

  function Measured(f: Feed, s: Snap, correctness: real): Inputs {
    Inputs(s.p99, s.tps, correctness, OwnCrashes(CrashRows(f), s), s.timeouts)
  }

  /** The write a snapshot leads to, if it has a verdict. */
  function WriteFor(c: Config, f: Feed, s: Snap): Option<Upsert>
    requires Usable(c) && f.verdicts.Rows?
  {
    match OwnVerdict(f.verdicts.rows, s)
    case None => None
    case Some(correctness) => Some(Upsert(s.contestant, s.submission, FinalScore(c, Measured(f, s, correctness))))
  }

  function WritesFor(c: Config, f: Feed, snaps: seq<Snap>): seq<Upsert>
    requires Usable(c) && f.verdicts.Rows?
  {
    if snaps == [] then []
    else
      var w := WriteFor(c, f, snaps[|snaps| - 1]);
      WritesFor(c, f, snaps[..|snaps| - 1]) + (if w.Some? then [w.value] else [])
  }

  /** A tick that cannot fetch snapshots or verdicts writes nothing. */
  function Plan(c: Config, f: Feed): seq<Upsert>
    requires Usable(c)
  {
    if f.snaps.Rows? && f.verdicts.Rows? then WritesFor(c, f, f.snaps.rows) else []
  }

  // ---------- why a write is justified ----------

  /** The k-th row is the last one that satisfies p. */
  ghost predicate IsLast<T(!new)>(rows: seq<T>, p: T -> bool, k: nat) {
    k < |rows| && p(rows[k]) && forall i :: k < i < |rows| ==> !p(rows[i])
  }

  ghost predicate CrashesAre(cs: seq<Crash>, s: Snap, n: int) {
    if s.submission != "" then
      || (n == 0 && forall i :: 0 <= i < |cs| ==> cs[i].submission != s.submission)
      || (exists k: nat :: IsLast(cs, (c: Crash) => c.submission == s.submission, k) && n == cs[k].crashes)
    else n == Total(cs, s.contestant)
  }

  function Total(cs: seq<Crash>, contestant: string): int {
    if cs == [] then 0
    else (if cs[0].contestant == contestant then cs[0].crashes else 0) + Total(cs[1..], contestant)
  }

  /** The write's score is computed from one fetched snapshot with the last verdict that speaks for that
      snapshot and with that snapshot's own crashes. */
  ghost predicate Justified(c: Config, f: Feed, u: Upsert)
    requires Usable(c)
  {
    && f.snaps.Rows? && f.verdicts.Rows?
    && exists s, k: nat, n ::
         && s in f.snaps.rows && s.contestant == u.contestant && s.submission == u.submission
         && IsLast(f.verdicts.rows, (v: Verdict) => Speaks(v, s), k)
         && CrashesAre(CrashRows(f), s, n)
         && u.score == FinalScore(c, Inputs(s.p99, s.tps, f.verdicts.rows[k].correctness, n, s.timeouts))
  }

  /** A row of the snapshot's own submission; a row that names none belongs to its contestant's unnamed one. */
  predicate OwnRow(contestant: string, submission: string, s: Snap) {
    submission == s.submission && (s.submission != "" || contestant == s.contestant)
  }

  ghost predicate OwnCrashesAre(cs: seq<Crash>, s: Snap, n: int) {
    if s.submission != "" then CrashesAre(cs, s, n) else n == Total(CrashesOf(cs, s), s.contestant)
  }

  /** The write's score is computed from one fetched snapshot with that snapshot's own rows alone: the last
      checked verdict that names its submission, and the crash rows that name it. */
  ghost predicate StrictlyJustified(c: Config, f: Feed, u: Upsert)
    requires Usable(c)
  {
    && f.snaps.Rows? && f.verdicts.Rows?
    && exists s, k: nat, n ::
         && s in f.snaps.rows && s.contestant == u.contestant && s.submission == u.submission
         && IsLast(f.verdicts.rows, (v: Verdict) => v.checked > 0 && OwnRow(v.contestant, v.submission, s), k)
         && OwnCrashesAre(CrashRows(f), s, n)
         && u.score == FinalScore(c, Inputs(s.p99, s.tps, f.verdicts.rows[k].correctness, n, s.timeouts))
  }

  function VerdictsOf(vs: seq<Verdict>, s: Snap): seq<Verdict> {
    if vs == [] then []
    else
      var v := vs[|vs| - 1];
      VerdictsOf(vs[..|vs| - 1], s) + if OwnRow(v.contestant, v.submission, s) then [v] else []
  }

  function CrashesOf(cs: seq<Crash>, s: Snap): seq<Crash> {
    if cs == [] then []
    else
      var c := cs[|cs| - 1];
      CrashesOf(cs[..|cs| - 1], s) + if OwnRow(c.contestant, c.submission, s) then [c] else []
  }

  lemma {:induction false} OwnVerdictIsLast(vs: seq<Verdict>, s: Snap) returns (k: nat)
    ensures OwnVerdict(vs, s).None? ==> forall v :: v in vs ==> !Speaks(v, s)
    ensures OwnVerdict(vs, s).Some? ==>
      IsLast(vs, (v: Verdict) => Speaks(v, s), k) && OwnVerdict(vs, s) == Some(vs[k].correctness)
    decreases |vs|
  {
    k := 0;
    if vs != [] {
      if Speaks(vs[|vs| - 1], s) {
        k := |vs| - 1;
      } else {
        k := OwnVerdictIsLast(vs[..|vs| - 1], s);
        assert vs == vs[..|vs| - 1] + [vs[|vs| - 1]];
      }
    }
  }

  lemma {:induction false} TotalSnoc(cs: seq<Crash>, c: Crash, contestant: string)
    ensures Total(cs + [c], contestant) == Total(cs, contestant) + (if c.contestant == contestant then c.crashes else 0)
    decreases |cs|
  {
    if cs != [] {
      assert (cs + [c])[1..] == cs[1..] + [c];
      TotalSnoc(cs[1..], c, contestant);
    }
  }

  lemma {:induction false} OwnCrashesMeet(cs: seq<Crash>, s: Snap)
    ensures CrashesAre(cs, s, OwnCrashes(cs, s))
    decreases |cs|
  {
    if cs != [] {
      var init, c := cs[..|cs| - 1], cs[|cs| - 1];
      assert cs == init + [c];
      OwnCrashesMeet(init, s);
      var own := (c: Crash) => c.submission == s.submission;
      if s.submission == "" {
        TotalSnoc(init, c, s.contestant);
      } else if c.submission == s.submission {
        assert IsLast(cs, own, |cs| - 1);
      } else if k: nat :| IsLast(init, own, k) && OwnCrashes(init, s) == init[k].crashes {
        assert IsLast(cs, own, k);
      }
    }
  }

  lemma WriteIsJustified(c: Config, f: Feed, s: Snap)
    requires Usable(c) && f.snaps.Rows? && f.verdicts.Rows? && s in f.snaps.rows
    ensures WriteFor(c, f, s).Some? ==> Justified(c, f, WriteFor(c, f, s).value)
    ensures WriteFor(c, f, s).None? <==> forall v :: v in f.verdicts.rows ==> !Speaks(v, s)
  {
    hide FinalScore, OwnVerdict, OwnCrashes;
    var k := OwnVerdictIsLast(f.verdicts.rows, s);
    OwnCrashesMeet(CrashRows(f), s);
    hide CrashesAre;
  }

  /** A write for a named submission rests on that submission's rows. */
  lemma NamedIsStrict(c: Config, f: Feed, u: Upsert)
    requires Usable(c) && u.submission != "" && Justified(c, f, u)
    ensures StrictlyJustified(c, f, u)
  {
    hide FinalScore, CrashesAre;
    var vs := f.verdicts.rows;
    var s, k: nat, n :|
      && s in f.snaps.rows && s.contestant == u.contestant && s.submission == u.submission
      && IsLast(vs, (v: Verdict) => Speaks(v, s), k) && CrashesAre(CrashRows(f), s, n)
      && u.score == FinalScore(c, Inputs(s.p99, s.tps, vs[k].correctness, n, s.timeouts));
    assert IsLast(vs, (v: Verdict) => v.checked > 0 && OwnRow(v.contestant, v.submission, s), k);
    assert OwnCrashesAre(CrashRows(f), s, n);
  }

  lemma {:induction false} WritesAreJustified(c: Config, f: Feed, snaps: seq<Snap>)
    requires Usable(c) && f.snaps.Rows? && f.verdicts.Rows? && forall s :: s in snaps ==> s in f.snaps.rows
    ensures forall u :: u in WritesFor(c, f, snaps) ==> Justified(c, f, u)
    decreases |snaps|
  {
    hide WriteFor, Justified;
    if snaps != [] {
      WritesAreJustified(c, f, snaps[..|snaps| - 1]);
      WriteIsJustified(c, f, snaps[|snaps| - 1]);
    }
  }

  lemma PlanIsJustified(c: Config, f: Feed)
    requires Usable(c)
    ensures forall u :: u in Plan(c, f) ==> Justified(c, f, u)
  {
    hide Justified;
    if f.snaps.Rows? && f.verdicts.Rows? {
      WritesAreJustified(c, f, f.snaps.rows);
    }
  }

  // ---------- the store ----------

  type Attempts = map<string, int>

  datatype Board = Board(scores: map<string, int>, subs: map<string, Attempts>)

  const EMPTY := Board(map[], map[])

  /** A submission without a name is stored under a fixed one. */
  function Label(submission: string): string { if submission == "" then "default" else submission }

  ghost predicate IsBest(m: Attempts, best: int) {
    (exists k :: k in m && m[k] == best) && forall k :: k in m ==> m[k] <= best
  }

  function AttemptsOf(b: Board, contestant: string): Attempts {
    if contestant in b.subs then b.subs[contestant] else map[]
  }

  function StoredIn(b: Board, u: Upsert): (m: Attempts)
    ensures Label(u.submission) in m
  {
    AttemptsOf(b, u.contestant)[Label(u.submission) := u.score]
  }

  ghost function BestOf(m: Attempts): (best: int)
    requires m != map[]
    ensures IsBest(m, best)
    decreases |m|
  {
    var k :| k in m;
    var rest := m - {k};
    if rest == map[] then
      assert forall k' :: k' in m ==> k' == k by {
        assert forall k' :: k' in m && k' != k ==> k' in rest;
      }
      m[k]
    else
      var b := BestOf(rest);
      assert forall k' :: k' in m && k' != k ==> k' in rest;
      if m[k] > b then m[k] else b
  }

  ghost function Upserted(b: Board, u: Upsert): Board {
    var attempts := StoredIn(b, u);
    Board(b.scores[u.contestant := BestOf(attempts)], b.subs[u.contestant := attempts])
  }

  lemma BestIsUnique(m: Attempts, x: int, y: int)
    requires IsBest(m, x) && IsBest(m, y)
    ensures x == y
  {
  }

  ghost function UpsertedAll(b: Board, log: seq<Upsert>): Board {
    if log == [] then b else Upserted(UpsertedAll(b, log[..|log| - 1]), log[|log| - 1])
  }

  // ---------- replicas ----------

  /** A replica mid-tick still has writes to send. */
  datatype System = System(board: Board, pending: map<nat, seq<Upsert>>)

  const START := System(EMPTY, map[])

  /** A replica begins a tick, sends its next write, or has its next write refused by the store. */
  datatype Act = Begin(replica: nat, feed: Feed) | Send(replica: nat) | Refuse(replica: nat)

  function Pending(s: System, replica: nat): seq<Upsert> {
    if replica in s.pending then s.pending[replica] else []
  }

  /** A tick due while the last one is still running is missed. */
  ghost function Do(c: Config, s: System, a: Act): System
    requires Usable(c)
  {
    var todo := Pending(s, a.replica);
    match a
    case Begin(r, feed) => if todo == [] then s.(pending := s.pending[r := Plan(c, feed)]) else s
    case Send(r) => if todo == [] then s else System(Upserted(s.board, todo[0]), s.pending[r := todo[1..]])
    case Refuse(r) => if todo == [] then s else s.(pending := s.pending[r := todo[1..]])
  }

  ghost function After(c: Config, acts: seq<Act>): System
    requires Usable(c)
  {
    if acts == [] then START else Do(c, After(c, acts[..|acts| - 1]), acts[|acts| - 1])
  }

  /** The writes that reached the store, in the order they did. */
  ghost function Log(c: Config, acts: seq<Act>): seq<Upsert>
    requires Usable(c)
  {
    if acts == [] then []
    else
      var s, a := After(c, acts[..|acts| - 1]), acts[|acts| - 1];
      Log(c, acts[..|acts| - 1]) + (if a.Send? && Pending(s, a.replica) != [] then [Pending(s, a.replica)[0]] else [])
  }

  /** However the replicas interleave, the board is the log replayed. */
  lemma {:induction false} BoardIsTheLog(c: Config, acts: seq<Act>)
    requires Usable(c)
    ensures After(c, acts).board == UpsertedAll(EMPTY, Log(c, acts))
    decreases |acts|
  {
    hide Upserted, Plan;
    if acts != [] {
      var init, a := acts[..|acts| - 1], acts[|acts| - 1];
      BoardIsTheLog(c, init);
      var todo := Pending(After(c, init), a.replica);
      if a.Send? && todo != [] {
        var log := Log(c, init) + [todo[0]];
        assert log[..|log| - 1] == Log(c, init);
      } else {
        assert Log(c, acts) == Log(c, init);
      }
    }
  }

  // ---------- what the ranking means ----------

  /** Writes to one submission of one contestant. */
  predicate Concerns(u: Upsert, contestant: string, name: string) {
    u.contestant == contestant && Label(u.submission) == name
  }

  ghost predicate LatestIs(log: seq<Upsert>, contestant: string, name: string, score: int) {
    exists k: nat :: IsLast(log, (u: Upsert) => Concerns(u, contestant, name), k) && log[k].score == score
  }

  /** The board keeps the latest score of every submission written, and nothing else. */
  ghost predicate KeepsLatest(b: Board, log: seq<Upsert>) {
    && (forall c, l :: l in AttemptsOf(b, c) ==> LatestIs(log, c, l, AttemptsOf(b, c)[l]))
    && (forall u :: u in log ==> Label(u.submission) in AttemptsOf(b, u.contestant))
  }

  ghost predicate Ranked(b: Board) {
    && b.scores.Keys == b.subs.Keys
    && forall c :: c in b.scores ==> IsBest(b.subs[c], b.scores[c])
  }

  lemma UpsertRanks(b: Board, u: Upsert)
    requires Ranked(b)
    ensures Ranked(Upserted(b, u))
  {
    hide IsBest;
  }

  lemma LatestSnoc(log: seq<Upsert>, u: Upsert, c: string, l: string, score: int)
    ensures Concerns(u, c, l) ==> LatestIs(log + [u], c, l, u.score)
    ensures !Concerns(u, c, l) && LatestIs(log, c, l, score) ==> LatestIs(log + [u], c, l, score)
  {
    var about := (u: Upsert) => Concerns(u, c, l);
    if Concerns(u, c, l) {
      assert IsLast(log + [u], about, |log|);
    } else if LatestIs(log, c, l, score) {
      var k: nat :| IsLast(log, about, k) && log[k].score == score;
      assert IsLast(log + [u], about, k);
    }
  }

  lemma UpsertKeepsLatest(b: Board, log: seq<Upsert>, u: Upsert)
    requires KeepsLatest(b, log)
    ensures KeepsLatest(Upserted(b, u), log + [u])
  {
    hide LatestIs, Label;
    var b' := Upserted(b, u);
    forall c, l | l in AttemptsOf(b', c)
      ensures LatestIs(log + [u], c, l, AttemptsOf(b', c)[l])
    {
      if !Concerns(u, c, l) {
        assert l in AttemptsOf(b, c) && AttemptsOf(b', c)[l] == AttemptsOf(b, c)[l];
      }
      LatestSnoc(log, u, c, l, AttemptsOf(b', c)[l]);
    }
  }

  lemma {:induction false} LogIsRanked(log: seq<Upsert>)
    ensures Ranked(UpsertedAll(EMPTY, log)) && KeepsLatest(UpsertedAll(EMPTY, log), log)
    decreases |log|
  {
    hide Ranked, KeepsLatest, Upserted;
    if log == [] {
      EmptyIsRanked();
    } else {
      var init, u := log[..|log| - 1], log[|log| - 1];
      assert log == init + [u];
      LogIsRanked(init);
      UpsertRanks(UpsertedAll(EMPTY, init), u);
      UpsertKeepsLatest(UpsertedAll(EMPTY, init), init, u);
    }
  }

  lemma EmptyIsRanked()
    ensures Ranked(EMPTY) && KeepsLatest(EMPTY, [])
  {
  }

  /** The contestant's ranked score is the largest among the latest stored scores of its submissions. */
  ghost predicate RanksByBest(log: seq<Upsert>, contestant: string, score: int) {
    && (exists l :: LatestIs(log, contestant, l, score))
    && forall l, s :: LatestIs(log, contestant, l, s) ==> s <= score
  }

  lemma LatestIsStored(b: Board, log: seq<Upsert>, c: string, l: string, s: int)
    requires KeepsLatest(b, log) && LatestIs(log, c, l, s)
    ensures l in AttemptsOf(b, c) && AttemptsOf(b, c)[l] == s
  {
    var about := (u: Upsert) => Concerns(u, c, l);
    var k: nat :| IsLast(log, about, k) && log[k].score == s;
    assert log[k] in log;
    var k': nat :| IsLast(log, about, k') && log[k'].score == AttemptsOf(b, c)[l];
    assert k == k';
  }

  /** In every interleaving of any number of replicas, exactly the contestants with a write are ranked,
      each by the best of its submissions' latest stored scores. */
  lemma RankingIsBestOfLatest(c: Config, acts: seq<Act>, contestant: string)
    requires Usable(c)
    ensures var board, log := After(c, acts).board, Log(c, acts);
      && (contestant in board.scores <==> exists u :: u in log && u.contestant == contestant)
      && (contestant in board.scores ==> RanksByBest(log, contestant, board.scores[contestant]))
  {
    hide Upserted, LatestIs, After, Log;
    var log := Log(c, acts);
    var b := UpsertedAll(EMPTY, log);
    BoardIsTheLog(c, acts);
    LogIsRanked(log);
    if contestant in b.scores {
      RankedByBest(b, log, contestant);
    }
    forall u | u in log && u.contestant == contestant ensures contestant in b.scores {
      assert Label(u.submission) in AttemptsOf(b, contestant);
    }
  }

  lemma RankedByBest(b: Board, log: seq<Upsert>, contestant: string)
    requires Ranked(b) && KeepsLatest(b, log) && contestant in b.scores
    ensures RanksByBest(log, contestant, b.scores[contestant])
    ensures exists u :: u in log && u.contestant == contestant
  {
    var best := b.scores[contestant];
    var l :| l in b.subs[contestant] && b.subs[contestant][l] == best;
    assert l in AttemptsOf(b, contestant);
    assert LatestIs(log, contestant, l, best);
    var k: nat :| IsLast(log, (u: Upsert) => Concerns(u, contestant, l), k) && log[k].score == best;
    assert log[k] in log;
    forall l', s | LatestIs(log, contestant, l', s) ensures s <= best {
      LatestIsStored(b, log, contestant, l', s);
    }
  }

  // ---------- every write has its reason ----------

  ghost predicate HasReason(c: Config, acts: seq<Act>, u: Upsert)
    requires Usable(c)
  {
    exists a :: a in acts && a.Begin? && Justified(c, a.feed, u)
  }

  ghost predicate PendingHasReason(c: Config, acts: seq<Act>, s: System)
    requires Usable(c)
  {
    forall r, u :: u in Pending(s, r) ==> HasReason(c, acts, u)
  }

  lemma ReasonStays(c: Config, acts: seq<Act>, a: Act, u: Upsert)
    requires Usable(c) && HasReason(c, acts, u)
    ensures HasReason(c, acts + [a], u)
  {
    hide Justified;
    var b :| b in acts && b.Begin? && Justified(c, b.feed, u);
    assert b in acts + [a];
  }

  lemma DoKeepsReasons(c: Config, acts: seq<Act>, s: System, a: Act)
    requires Usable(c) && PendingHasReason(c, acts, s)
    ensures PendingHasReason(c, acts + [a], Do(c, s, a))
  {
    hide Justified, Upserted, Plan, HasReason;
    var s' := Do(c, s, a);
    forall r, u | u in Pending(s', r) ensures HasReason(c, acts + [a], u) {
      if u in Pending(s, r) {
        ReasonStays(c, acts, a, u);
      } else {
        PlanHasReason(c, acts, a, u);
      }
    }
  }

  lemma PlanHasReason(c: Config, acts: seq<Act>, a: Act, u: Upsert)
    requires Usable(c) && a.Begin? && u in Plan(c, a.feed)
    ensures HasReason(c, acts + [a], u)
  {
    hide Justified;
    PlanIsJustified(c, a.feed);
    assert a in acts + [a];
  }

  ghost predicate HasStrictReason(c: Config, acts: seq<Act>, u: Upsert)
    requires Usable(c)
  {
    exists a :: a in acts && a.Begin? && StrictlyJustified(c, a.feed, u)
  }

  /** Every score the store ever received for a named submission came from one tick's feed, with that
      submission's own verdict, which had checked something, and its own crash row. */
  lemma NamedWritesAreStrict(c: Config, acts: seq<Act>)
    requires Usable(c)
    ensures forall u :: u in Log(c, acts) && u.submission != "" ==> HasStrictReason(c, acts, u)
  {
    EveryWriteIsJustified(c, acts);
    hide Log, Justified, StrictlyJustified;
    forall u | u in Log(c, acts) && u.submission != "" ensures HasStrictReason(c, acts, u) {
      var a :| a in acts && a.Begin? && Justified(c, a.feed, u);
      NamedIsStrict(c, a.feed, u);
    }
  }

  /** Every score the store ever received came from one tick's feed, with the last verdict that speaks for
      its snapshot, which had checked something, and the crashes charged to that snapshot. */
  lemma {:induction false} EveryWriteIsJustified(c: Config, acts: seq<Act>)
    requires Usable(c)
    ensures forall u :: u in Log(c, acts) ==> HasReason(c, acts, u)
    ensures PendingHasReason(c, acts, After(c, acts))
    decreases |acts|
  {
    hide HasReason, Do;
    if acts != [] {
      var init, a := acts[..|acts| - 1], acts[|acts| - 1];
      assert acts == init + [a];
      EveryWriteIsJustified(c, init);
      DoKeepsReasons(c, init, After(c, init), a);
      forall u | u in Log(c, acts) ensures HasReason(c, acts, u) {
        ReasonStays(c, init, a, u);
      }
    }
  }

  // ---------- better measurements never rank lower ----------

  /** The same writes, with no score lower. */
  ghost predicate NoLower(log: seq<Upsert>, log': seq<Upsert>) {
    && |log| == |log'|
    && forall i :: 0 <= i < |log| ==>
         && log[i].contestant == log'[i].contestant && log[i].submission == log'[i].submission
         && log[i].score <= log'[i].score
  }

  ghost predicate Below(b: Board, b': Board) {
    && b.scores.Keys == b'.scores.Keys && b.subs.Keys == b'.subs.Keys
    && (forall c :: c in b.scores ==> b.scores[c] <= b'.scores[c])
    && forall c :: c in b.subs ==> AttemptsBelow(b.subs[c], b'.subs[c])
  }

  ghost predicate AttemptsBelow(m: Attempts, m': Attempts) {
    m.Keys == m'.Keys && forall k :: k in m ==> m[k] <= m'[k]
  }

  lemma BestBelow(m: Attempts, m': Attempts)
    requires m != map[] && m' != map[] && AttemptsBelow(m, m')
    ensures BestOf(m) <= BestOf(m')
  {
    var k :| k in m && m[k] == BestOf(m);
    assert m'[k] <= BestOf(m');
  }

  lemma UpsertBelow(b: Board, b': Board, u: Upsert, u': Upsert)
    requires Below(b, b') && u.contestant == u'.contestant && u.submission == u'.submission && u.score <= u'.score
    ensures Below(Upserted(b, u), Upserted(b', u'))
  {
    BestBelow(StoredIn(b, u), StoredIn(b', u'));
    hide IsBest;
  }

  lemma {:induction false} NoLowerRanksNoLower(log: seq<Upsert>, log': seq<Upsert>)
    requires NoLower(log, log')
    ensures Below(UpsertedAll(EMPTY, log), UpsertedAll(EMPTY, log'))
    decreases |log|
  {
    if log != [] {
      var n := |log| - 1;
      NoLowerRanksNoLower(log[..n], log'[..n]);
      hide Upserted, Below;
      UpsertBelow(UpsertedAll(EMPTY, log[..n]), UpsertedAll(EMPTY, log'[..n]), log[n], log'[n]);
    }
  }

  /** Two fetches of the same rows, the first nowhere better. */
  ghost predicate SnapsNoBetter(xs: seq<Snap>, ys: seq<Snap>) {
    |xs| == |ys| && forall i :: 0 <= i < |xs| ==> SnapNoBetter(xs[i], ys[i])
  }

  predicate SnapNoBetter(x: Snap, y: Snap) {
    && x.contestant == y.contestant && x.submission == y.submission
    && x.p99 >= y.p99 && x.tps <= y.tps && x.timeouts >= y.timeouts
  }

  ghost predicate VerdictsNoBetter(xs: seq<Verdict>, ys: seq<Verdict>) {
    |xs| == |ys| && forall i :: 0 <= i < |xs| ==>
      xs[i] == ys[i].(correctness := xs[i].correctness) && xs[i].correctness <= ys[i].correctness
  }

  ghost predicate CrashesNoBetter(xs: seq<Crash>, ys: seq<Crash>) {
    |xs| == |ys| && forall i :: 0 <= i < |xs| ==>
      xs[i] == ys[i].(crashes := xs[i].crashes) && xs[i].crashes >= ys[i].crashes
  }

  ghost predicate FeedNoBetter(f: Feed, g: Feed) {
    && f.snaps.Rows? == g.snaps.Rows? && f.verdicts.Rows? == g.verdicts.Rows?
    && (f.snaps.Rows? ==> SnapsNoBetter(f.snaps.rows, g.snaps.rows))
    && (f.verdicts.Rows? ==> VerdictsNoBetter(f.verdicts.rows, g.verdicts.rows))
    && CrashesNoBetter(CrashRows(f), CrashRows(g))
  }

  lemma {:induction false} OwnVerdictNoBetter(xs: seq<Verdict>, ys: seq<Verdict>, s: Snap, t: Snap)
    requires VerdictsNoBetter(xs, ys) && SnapNoBetter(s, t)
    ensures OwnVerdict(xs, s).Some? == OwnVerdict(ys, t).Some?
    ensures OwnVerdict(xs, s).Some? ==> OwnVerdict(xs, s).value <= OwnVerdict(ys, t).value
    decreases |xs|
  {
    if xs != [] {
      OwnVerdictNoBetter(xs[..|xs| - 1], ys[..|ys| - 1], s, t);
    }
  }

  lemma {:induction false} OwnCrashesNoBetter(xs: seq<Crash>, ys: seq<Crash>, s: Snap, t: Snap)
    requires CrashesNoBetter(xs, ys) && SnapNoBetter(s, t)
    ensures OwnCrashes(xs, s) >= OwnCrashes(ys, t)
    decreases |xs|
  {
    if xs != [] {
      OwnCrashesNoBetter(xs[..|xs| - 1], ys[..|ys| - 1], s, t);
    }
  }

  lemma WriteNoLower(c: Config, f: Feed, g: Feed, s: Snap, t: Snap)
    requires Fair(c) && FeedNoBetter(f, g) && f.verdicts.Rows? && SnapNoBetter(s, t)
    ensures var w, w' := WriteFor(c, f, s), WriteFor(c, g, t);
      && w.Some? == w'.Some?
      && (w.Some? ==> NoLower([w.value], [w'.value]))
  {
    hide OwnVerdict, OwnCrashes, FinalScore;
    OwnVerdictNoBetter(f.verdicts.rows, g.verdicts.rows, s, t);
    OwnCrashesNoBetter(CrashRows(f), CrashRows(g), s, t);
    if OwnVerdict(f.verdicts.rows, s).Some? {
      BetterScoresNoLower(c, Measured(f, s, OwnVerdict(f.verdicts.rows, s).value),
                             Measured(g, t, OwnVerdict(g.verdicts.rows, t).value));
    }
  }

  lemma NoLowerAppend(xs: seq<Upsert>, xs': seq<Upsert>, ys: seq<Upsert>, ys': seq<Upsert>)
    requires NoLower(xs, xs') && NoLower(ys, ys')
    ensures NoLower(xs + ys, xs' + ys')
  {
  }

  lemma {:induction false} WritesNoLower(c: Config, f: Feed, g: Feed, xs: seq<Snap>, ys: seq<Snap>)
    requires Fair(c) && FeedNoBetter(f, g) && f.verdicts.Rows? && SnapsNoBetter(xs, ys)
    ensures NoLower(WritesFor(c, f, xs), WritesFor(c, g, ys))
    decreases |xs|
  {
    if xs != [] {
      var n := |xs| - 1;
      WritesNoLower(c, f, g, xs[..n], ys[..n]);
      WriteNoLower(c, f, g, xs[n], ys[n]);
      hide WriteFor;
      var w, w' := WriteFor(c, f, xs[n]), WriteFor(c, g, ys[n]);
      NoLowerAppend(WritesFor(c, f, xs[..n]), WritesFor(c, g, ys[..n]),
                    if w.Some? then [w.value] else [], if w'.Some? then [w'.value] else []);
    }
  }

  lemma PlanNoLower(c: Config, f: Feed, g: Feed)
    requires Fair(c) && FeedNoBetter(f, g)
    ensures NoLower(Plan(c, f), Plan(c, g))
  {
    if f.snaps.Rows? && f.verdicts.Rows? {
      WritesNoLower(c, f, g, f.snaps.rows, g.snaps.rows);
    }
  }

  predicate SameKind(a: Act, a': Act) {
    a.replica == a'.replica && a.Begin? == a'.Begin? && a.Send? == a'.Send?
  }

  /** The same acts of the same replicas, the first run's feeds nowhere better. */
  ghost predicate ActsNoBetter(acts: seq<Act>, acts': seq<Act>) {
    |acts| == |acts'| && forall i :: 0 <= i < |acts| ==>
      SameKind(acts[i], acts'[i]) && (acts[i].Begin? ==> FeedNoBetter(acts[i].feed, acts'[i].feed))
  }

  ghost predicate SystemBelow(s: System, s': System) {
    Below(s.board, s'.board) && forall r :: NoLower(Pending(s, r), Pending(s', r))
  }

  lemma DoBelow(c: Config, s: System, s': System, a: Act, a': Act)
    requires Fair(c) && SystemBelow(s, s') && SameKind(a, a')
    requires a.Begin? ==> FeedNoBetter(a.feed, a'.feed)
    ensures SystemBelow(Do(c, s, a), Do(c, s', a'))
  {
    hide Below, FeedNoBetter, Upserted, Plan;
    var todo, todo' := Pending(s, a.replica), Pending(s', a.replica);
    if a.Begin? {
      PlanNoLower(c, a.feed, a'.feed);
    } else if a.Send? && todo != [] {
      UpsertBelow(s.board, s'.board, todo[0], todo'[0]);
    }
    assert NoLower(todo, todo');
    var t, t' := Do(c, s, a), Do(c, s', a');
    forall r ensures NoLower(Pending(t, r), Pending(t', r)) {
      assert NoLower(Pending(s, r), Pending(s', r));
    }
  }

  lemma ActsPrefix(acts: seq<Act>, acts': seq<Act>, n: nat)
    requires ActsNoBetter(acts, acts') && n <= |acts|
    ensures ActsNoBetter(acts[..n], acts'[..n])
  {
    hide FeedNoBetter, SameKind;
  }

  /** Whatever the interleaving, measurements that are nowhere worse never lower anyone's ranked score. */
  lemma {:induction false} BetterRunsRankNoLower(c: Config, acts: seq<Act>, acts': seq<Act>)
    requires Fair(c) && ActsNoBetter(acts, acts')
    ensures SystemBelow(After(c, acts), After(c, acts'))
    decreases |acts|
  {
    if acts != [] {
      var n := |acts| - 1;
      hide Do, SystemBelow, FeedNoBetter, SameKind;
      ActsPrefix(acts, acts', n);
      assert SameKind(acts[n], acts'[n]) && (acts[n].Begin? ==> FeedNoBetter(acts[n].feed, acts'[n].feed));
      hide ActsNoBetter;
      BetterRunsRankNoLower(c, acts[..n], acts'[..n]);
      DoBelow(c, After(c, acts[..n]), After(c, acts'[..n]), acts[n], acts'[n]);
    }
  }

  // ---------- submissions told apart ----------

  ghost predicate LatestOfSubmission(log: seq<Upsert>, contestant: string, submission: string, score: int) {
    exists k: nat ::
      && IsLast(log, (u: Upsert) => u.contestant == contestant && u.submission == submission, k)
      && log[k].score == score
  }

  /** The contestant never sends both an unnamed submission and one whose name is the fixed one. */
  ghost predicate NamesDiffer(log: seq<Upsert>, contestant: string) {
    !(exists u, v ::
        && u in log && v in log && u.contestant == v.contestant == contestant
        && u.submission == "" && v.submission == "default")
  }

  /** No submission's latest score is above the rank. */
  ghost predicate RankCoversSubmissions(log: seq<Upsert>, contestant: string) {
    forall submission, s, rank ::
      LatestOfSubmission(log, contestant, submission, s) && RanksByBest(log, contestant, rank) ==> s <= rank
  }

  /** The same writes with other scores. */
  function Rescored(log: seq<Upsert>, score: seq<int>): (r: seq<Upsert>)
    requires |score| == |log|
    ensures |r| == |log| && forall i :: 0 <= i < |log| ==> r[i] == log[i].(score := score[i])
  {
    seq(|log|, i requires 0 <= i < |log| => log[i].(score := score[i]))
  }

  lemma NamedApart(log: seq<Upsert>, contestant: string)
    requires NamesDiffer(log, contestant)
    ensures RankCoversSubmissions(log, contestant)
  {
    forall submission, s, rank
      | LatestOfSubmission(log, contestant, submission, s) && RanksByBest(log, contestant, rank)
      ensures s <= rank
    {
      var own := (u: Upsert) => u.contestant == contestant && u.submission == submission;
      var about := (u: Upsert) => Concerns(u, contestant, Label(submission));
      var k: nat :| IsLast(log, own, k) && log[k].score == s;
      forall i | k < i < |log| ensures !about(log[i]) {
        assert !own(log[i]) && log[k] in log && log[i] in log;
      }
      assert IsLast(log, about, k);
      assert LatestIs(log, contestant, Label(submission), s);
    }
  }

  lemma {:induction false} LastOf(log: seq<Upsert>, contestant: string, submission: string) returns (k: nat)
    requires exists u :: u in log && u.contestant == contestant && u.submission == submission
    ensures IsLast(log, (u: Upsert) => u.contestant == contestant && u.submission == submission, k)
    decreases |log|
  {
    var n := |log| - 1;
    if log[n].contestant == contestant && log[n].submission == submission {
      k := n;
    } else {
      assert log == log[..n] + [log[n]];
      k := LastOf(log[..n], contestant, submission);
    }
  }

  /** Where both names are used, some scores hide one submission's latest score. */
  lemma NamesCollide(log: seq<Upsert>, contestant: string) returns (score: seq<int>)
    requires !NamesDiffer(log, contestant)
    ensures |score| == |log| && !RankCoversSubmissions(Rescored(log, score), contestant)
  {
    var i := LastOf(log, contestant, "");
    var j := LastOf(log, contestant, "default");
    assert i != j;
    var k, name := if i < j then i else j, if i < j then "" else "default";
    var later := if i < j then j else i;
    score := seq(|log|, x => if x == k then 1 else 0);
    var log' := Rescored(log, score);
    assert LatestOfSubmission(log', contestant, name, 1) by {
      assert IsLast(log', (u: Upsert) => u.contestant == contestant && u.submission == name, k);
    }
    assert Concerns(log'[later], contestant, "default");
    forall l, s | LatestIs(log', contestant, l, s) ensures s == 0 {
      var m: nat :| IsLast(log', (u: Upsert) => Concerns(u, contestant, l), m) && log'[m].score == s;
      assert m == k ==> l == "default";
      assert m != k;
    }
    LogIsRanked(log');
    var b := UpsertedAll(EMPTY, log');
    assert log'[k] in log';
    assert Label(name) in AttemptsOf(b, contestant);
    RankedByBest(b, log', contestant);
    assert b.scores[contestant] == 0;
  }

  /** A rank never hides a submission's latest score, whatever the scores, exactly when the contestant
      does not use both an empty submission name and the one it is stored under. */
  lemma SubmissionsCoveredIff(log: seq<Upsert>, contestant: string)
    ensures NamesDiffer(log, contestant)
       <==> forall score: seq<int> :: |score| == |log| ==> RankCoversSubmissions(Rescored(log, score), contestant)
  {
    if NamesDiffer(log, contestant) {
      forall score: seq<int> | |score| == |log| ensures RankCoversSubmissions(Rescored(log, score), contestant) {
        var log' := Rescored(log, score);
        forall u, v | u in log' && v in log' && u.contestant == v.contestant == contestant
          ensures !(u.submission == "" && v.submission == "default")
        {
          var x :| 0 <= x < |log'| && log'[x] == u;
          var y :| 0 <= y < |log'| && log'[y] == v;
          assert log[x] in log && log[y] in log;
        }
        NamedApart(log', contestant);
      }
    } else {
      var score := NamesCollide(log, contestant);
    }
  }

  /** An unnamed submission with 900 points, then one named by the fixed name with 100: the rank is 100. */
  lemma DefaultHidesUnnamed(contestant: string)
    ensures !RankCoversSubmissions([Upsert(contestant, "", 900), Upsert(contestant, "default", 100)], contestant)
  {
    var log := [Upsert(contestant, "", 900), Upsert(contestant, "default", 100)];
    assert IsLast(log, (u: Upsert) => u.contestant == contestant && u.submission == "", 0);
    assert LatestOfSubmission(log, contestant, "", 900);
    var about := (u: Upsert) => Concerns(u, contestant, "default");
    assert IsLast(log, about, 1);
    assert LatestIs(log, contestant, "default", 100);
    forall l, s | LatestIs(log, contestant, l, s) ensures s <= 100 {
      var k: nat :| IsLast(log, (u: Upsert) => Concerns(u, contestant, l), k) && log[k].score == s;
      assert Concerns(log[k], contestant, l) && l == "default" && Concerns(log[1], contestant, l);
    }
    assert RanksByBest(log, contestant, 100);
  }

  // ---------- unnamed snapshots borrow ----------

  /** A snapshot without a submission takes over a named sibling's verdict and crash. */
  lemma UnnamedBorrows(c: Config, p99: int, tps: real)
    requires Usable(c)
    ensures var f := Feed(Rows([Snap("A", "", 0, tps, p99)]), Rows([Verdict("A", "s1", 5, 1.0)]),
                          Rows([Crash("A", "s1", 1)]));
      var u := Upsert("A", "", FinalScore(c, Inputs(p99, tps, 1.0, 1, 0)));
      Plan(c, f) == [u] && Justified(c, f, u) && !StrictlyJustified(c, f, u)
  {
    hide FinalScore;
    var s, v, k := Snap("A", "", 0, tps, p99), Verdict("A", "s1", 5, 1.0), Crash("A", "s1", 1);
    var f := Feed(Rows([s]), Rows([v]), Rows([k]));
    assert [v][..0] == [] && [k][..0] == [] && [s][..0] == [];
    assert OwnCrashes([], s) == 0;
    assert OwnCrashes([k], s) == 1;
    assert WriteFor(c, f, s) == Some(Upsert("A", "", FinalScore(c, Inputs(p99, tps, 1.0, 1, 0))));
    assert WritesFor(c, f, []) == [];
    PlanIsJustified(c, f);
    hide Justified;
    assert Plan(c, f)[0] in Plan(c, f);
  }

  /** The fetched feed with nothing but the snapshot's own rows. */
  function OnlyOwn(f: Feed, s: Snap): Feed
    requires f.verdicts.Rows?
  {
    f.(verdicts := Rows(VerdictsOf(f.verdicts.rows, s)), crashes := Rows(CrashesOf(CrashRows(f), s)))
  }

  /** What a snapshot is scored on, if it is scored. */
  function MeasuredFor(f: Feed, s: Snap): Option<Inputs>
    requires f.verdicts.Rows?
  {
    match OwnVerdict(f.verdicts.rows, s)
    case None => None
    case Some(correctness) => Some(Measured(f, s, correctness))
  }

  /** The same rows, with any correctness and crash values. */
  ghost predicate SameRows(f: Feed, g: Feed) {
    && f.verdicts.Rows? && g.verdicts.Rows?
    && |f.verdicts.rows| == |g.verdicts.rows| && |CrashRows(f)| == |CrashRows(g)|
    && (forall i :: 0 <= i < |f.verdicts.rows| ==>
          g.verdicts.rows[i] == f.verdicts.rows[i].(correctness := g.verdicts.rows[i].correctness))
    && forall i :: 0 <= i < |CrashRows(f)| ==>
         CrashRows(g)[i] == CrashRows(f)[i].(crashes := CrashRows(g)[i].crashes)
  }

  /** Whatever the values, the snapshot is scored on its own rows alone. */
  ghost predicate RestsOnOwnRows(f: Feed, s: Snap) {
    forall g :: SameRows(f, g) ==> MeasuredFor(g, s) == MeasuredFor(OnlyOwn(g, s), s)
  }

  function LastSpeaking(vs: seq<Verdict>, s: Snap): Option<Verdict> {
    if vs == [] then None
    else if Speaks(vs[|vs| - 1], s) then Some(vs[|vs| - 1])
    else LastSpeaking(vs[..|vs| - 1], s)
  }

  /** The snapshot names a submission, or is not scored, or its contestant's last checked verdict and all its
      contestant's crash rows name none. */
  ghost predicate Attributed(f: Feed, s: Snap)
    requires f.verdicts.Rows?
  {
    || s.submission != ""
    || LastSpeaking(f.verdicts.rows, s).None?
    || (&& LastSpeaking(f.verdicts.rows, s).value.submission == ""
        && forall c :: c in CrashRows(f) && c.contestant == s.contestant ==> c.submission == "")
  }

  lemma OwnVerdictSnoc(vs: seq<Verdict>, v: Verdict, s: Snap)
    ensures OwnVerdict(vs + [v], s) == if Speaks(v, s) then Some(v.correctness) else OwnVerdict(vs, s)
  {
    assert (vs + [v])[..|vs|] == vs;
  }

  lemma {:induction false} VerdictOfOwn(vs: seq<Verdict>, s: Snap)
    requires var l := LastSpeaking(vs, s); l.None? || OwnRow(l.value.contestant, l.value.submission, s)
    ensures OwnVerdict(VerdictsOf(vs, s), s) == OwnVerdict(vs, s)
    decreases |vs|
  {
    if vs != [] {
      var init, v := vs[..|vs| - 1], vs[|vs| - 1];
      if !Speaks(v, s) {
        VerdictOfOwn(init, s);
      }
      OwnVerdictSnoc(VerdictsOf(init, s), v, s);
      assert VerdictsOf(init, s) + [] == VerdictsOf(init, s);
    }
  }

  lemma OwnCrashesSnoc(cs: seq<Crash>, c: Crash, s: Snap)
    ensures OwnCrashes(cs + [c], s)
         == if s.submission != "" then (if c.submission == s.submission then c.crashes else OwnCrashes(cs, s))
            else OwnCrashes(cs, s) + (if c.contestant == s.contestant then c.crashes else 0)
  {
    assert (cs + [c])[..|cs|] == cs;
  }

  lemma {:induction false} CrashesOfOwn(cs: seq<Crash>, s: Snap)
    requires s.submission != "" || forall c :: c in cs && c.contestant == s.contestant ==> c.submission == ""
    ensures OwnCrashes(CrashesOf(cs, s), s) == OwnCrashes(cs, s)
    decreases |cs|
  {
    if cs != [] {
      var init, c := cs[..|cs| - 1], cs[|cs| - 1];
      CrashesOfOwn(init, s);
      OwnCrashesSnoc(CrashesOf(init, s), c, s);
      assert CrashesOf(init, s) + [] == CrashesOf(init, s);
    }
  }

  lemma {:induction false} SameLastSpeaking(vs: seq<Verdict>, ws: seq<Verdict>, s: Snap)
    requires |vs| == |ws| && forall i :: 0 <= i < |vs| ==> ws[i] == vs[i].(correctness := ws[i].correctness)
    ensures var l, m := LastSpeaking(vs, s), LastSpeaking(ws, s);
      l.Some? == m.Some? && (l.Some? ==> m.value == l.value.(correctness := m.value.correctness))
    decreases |vs|
  {
    if vs != [] {
      SameLastSpeaking(vs[..|vs| - 1], ws[..|ws| - 1], s);
    }
  }

  lemma {:induction false} LastSpeaks(vs: seq<Verdict>, s: Snap)
    ensures LastSpeaking(vs, s).Some? ==> Speaks(LastSpeaking(vs, s).value, s)
    ensures OwnVerdict(vs, s) == if LastSpeaking(vs, s).None? then None else Some(LastSpeaking(vs, s).value.correctness)
    decreases |vs|
  {
    if vs != [] {
      LastSpeaks(vs[..|vs| - 1], s);
    }
  }

  lemma AttributedRests(f: Feed, s: Snap)
    requires f.verdicts.Rows? && Attributed(f, s)
    ensures RestsOnOwnRows(f, s)
  {
    forall g | SameRows(f, g) ensures MeasuredFor(g, s) == MeasuredFor(OnlyOwn(g, s), s) {
      var vs, cs := g.verdicts.rows, CrashRows(g);
      SameLastSpeaking(f.verdicts.rows, vs, s);
      LastSpeaks(vs, s);
      VerdictOfOwn(vs, s);
      if LastSpeaking(vs, s).Some? {
        forall c | c in cs && c.contestant == s.contestant ensures s.submission != "" || c.submission == "" {
          var i :| 0 <= i < |cs| && cs[i] == c;
          assert CrashRows(f)[i] in CrashRows(f);
        }
        CrashesOfOwn(cs, s);
      }
      hide OwnVerdict, OwnCrashes, VerdictsOf, CrashesOf, LastSpeaking;
    }
  }

  /** The rows with every value that is not the snapshot's own set to one, and its own to zero. */
  function MarkedVerdicts(vs: seq<Verdict>, s: Snap): (ws: seq<Verdict>)
    ensures |ws| == |vs| && forall i :: 0 <= i < |vs| ==>
      ws[i] == vs[i].(correctness := if OwnRow(vs[i].contestant, vs[i].submission, s) then 0.0 else 1.0)
  {
    seq(|vs|, i requires 0 <= i < |vs| =>
      vs[i].(correctness := if OwnRow(vs[i].contestant, vs[i].submission, s) then 0.0 else 1.0))
  }

  function MarkedCrashes(cs: seq<Crash>, s: Snap): (ds: seq<Crash>)
    ensures |ds| == |cs| && forall i :: 0 <= i < |cs| ==>
      ds[i] == cs[i].(crashes := if OwnRow(cs[i].contestant, cs[i].submission, s) then 0 else 1)
  {
    seq(|cs|, i requires 0 <= i < |cs| =>
      cs[i].(crashes := if OwnRow(cs[i].contestant, cs[i].submission, s) then 0 else 1))
  }

  lemma {:induction false} OwnVerdictsZero(vs: seq<Verdict>, s: Snap)
    requires forall v :: v in vs && OwnRow(v.contestant, v.submission, s) ==> v.correctness == 0.0
    ensures OwnVerdict(VerdictsOf(vs, s), s) in {None, Some(0.0)}
    decreases |vs|
  {
    if vs != [] {
      var init, v := vs[..|vs| - 1], vs[|vs| - 1];
      OwnVerdictsZero(init, s);
      OwnVerdictSnoc(VerdictsOf(init, s), v, s);
      assert VerdictsOf(init, s) + [] == VerdictsOf(init, s);
    }
  }

  lemma {:induction false} OwnCrashesZero(cs: seq<Crash>, s: Snap)
    requires s.submission == ""
    requires forall c :: c in cs ==> c.crashes == if OwnRow(c.contestant, c.submission, s) then 0 else 1
    ensures OwnCrashes(CrashesOf(cs, s), s) == 0 && OwnCrashes(cs, s) >= 0
    ensures (exists c :: c in cs && c.contestant == s.contestant && c.submission != "") ==> OwnCrashes(cs, s) > 0
    decreases |cs|
  {
    if cs != [] {
      var init, c := cs[..|cs| - 1], cs[|cs| - 1];
      assert cs == init + [c];
      OwnCrashesZero(init, s);
      OwnCrashesSnoc(CrashesOf(init, s), c, s);
      assert CrashesOf(init, s) + [] == CrashesOf(init, s);
    }
  }

  lemma UnattributedBorrows(f: Feed, s: Snap)
    requires f.verdicts.Rows? && !Attributed(f, s)
    ensures !RestsOnOwnRows(f, s)
  {
    var vs, cs := MarkedVerdicts(f.verdicts.rows, s), MarkedCrashes(CrashRows(f), s);
    var g := f.(verdicts := Rows(vs), crashes := Rows(cs));
    assert SameRows(f, g);
    SameLastSpeaking(f.verdicts.rows, vs, s);
    LastSpeaks(vs, s);
    LastIsMember(vs, s);
    OwnVerdictsZero(vs, s);
    if LastSpeaking(f.verdicts.rows, s).value.submission == "" {
      var c :| c in CrashRows(f) && c.contestant == s.contestant && c.submission != "";
      var i :| 0 <= i < |cs| && CrashRows(f)[i] == c;
      assert cs[i] in cs && cs[i].contestant == s.contestant && cs[i].submission != "";
    }
    OwnCrashesZero(cs, s);
    hide OwnVerdict, OwnCrashes, VerdictsOf, CrashesOf, LastSpeaking;
    assert MeasuredFor(g, s) != MeasuredFor(OnlyOwn(g, s), s);
  }

  lemma {:induction false} LastIsMember(vs: seq<Verdict>, s: Snap)
    ensures LastSpeaking(vs, s).Some? ==> LastSpeaking(vs, s).value in vs
    decreases |vs|
  {
    if vs != [] {
      LastIsMember(vs[..|vs| - 1], s);
    }
  }

  /** Whatever the correctness and crash values, a snapshot is scored on its own rows alone exactly when it
      names a submission, or is not scored, or its contestant's last checked verdict and crash rows name none. */
  lemma RestsOnOwnRowsIff(f: Feed, s: Snap)
    requires f.verdicts.Rows?
    ensures RestsOnOwnRows(f, s) <==> Attributed(f, s)
  {
    if Attributed(f, s) {
      AttributedRests(f, s);
    } else {
      UnattributedBorrows(f, s);
    }
  }
}
