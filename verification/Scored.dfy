/** Which snapshots a tick scores, and what the store holds after it, said of the fetched rows. */
module Scored {
  import opened Points
  import opened Leaderboard

  /** Some verdict that checked anything names the snapshot's submission, or its contestant where the snapshot
      has no submission. */
  ghost predicate Judged(vs: seq<Verdict>, s: Snap) {
    exists v :: v in vs && v.checked > 0 && (if s.submission != "" then v.submission == s.submission
                                                                   else v.contestant == s.contestant)
  }

  ghost function JudgedAt(vs: seq<Verdict>, snaps: seq<Snap>): set<int> {
    set j | 0 <= j < |snaps| && Judged(vs, snaps[j])
  }

  /** The score of a snapshot: its own measurements, the last verdict that judges it, and its crashes, of which
      there are none where the crash source failed. */
  ghost predicate IsScoreOf(c: Config, f: Feed, s: Snap, score: int)
    requires Usable(c) && f.verdicts.Rows?
  {
    exists k: nat, n ::
      && IsLast(f.verdicts.rows,
                (v: Verdict) => v.checked > 0 && if s.submission != "" then v.submission == s.submission
                                                                       else v.contestant == s.contestant, k)
      && CrashesAre(if f.crashes.Rows? then f.crashes.rows else [], s, n)
      && score == FinalScore(c, Inputs(s.p99, s.tps, f.verdicts.rows[k].correctness, n, s.timeouts))
  }

  ghost predicate IsWriteOf(c: Config, f: Feed, s: Snap, u: Upsert)
    requires Usable(c) && f.verdicts.Rows?
  {
    u.contestant == s.contestant && u.submission == s.submission && IsScoreOf(c, f, s, u.score)
  }

  /** One write for every judged snapshot, in the snapshots' order, and no other. */
  ghost predicate WritesEachJudged(c: Config, f: Feed, snaps: seq<Snap>, plan: seq<Upsert>)
    requires Usable(c) && f.verdicts.Rows?
  {
    && |plan| == |JudgedAt(f.verdicts.rows, snaps)|
    && forall i :: 0 <= i < |snaps| && Judged(f.verdicts.rows, snaps[i]) ==>
         var r := |JudgedAt(f.verdicts.rows, snaps[..i])|;
         r < |plan| && IsWriteOf(c, f, snaps[i], plan[r])
  }

  lemma JudgedSnoc(vs: seq<Verdict>, snaps: seq<Snap>, s: Snap)
    ensures |JudgedAt(vs, snaps + [s])| == |JudgedAt(vs, snaps)| + if Judged(vs, s) then 1 else 0
  {
    hide Judged;
    assert JudgedAt(vs, snaps + [s]) == JudgedAt(vs, snaps) + if Judged(vs, s) then {|snaps|} else {};
  }

  lemma WriteForJudged(c: Config, f: Feed, s: Snap)
    requires Usable(c) && f.verdicts.Rows?
    ensures WriteFor(c, f, s).Some? <==> Judged(f.verdicts.rows, s)
    ensures WriteFor(c, f, s).Some? ==> IsWriteOf(c, f, s, WriteFor(c, f, s).value)
  {
    hide FinalScore, OwnVerdict, OwnCrashes;
    var vs := f.verdicts.rows;
    var k := OwnVerdictIsLast(vs, s);
    OwnCrashesMeet(CrashRows(f), s);
    hide CrashesAre;
    if OwnVerdict(vs, s).Some? {
      assert vs[k] in vs && Speaks(vs[k], s);
      assert IsLast(vs, (v: Verdict) => v.checked > 0 && if s.submission != "" then v.submission == s.submission
                                                                               else v.contestant == s.contestant, k);
      assert IsScoreOf(c, f, s, FinalScore(c, Measured(f, s, vs[k].correctness)));
    }
  }

  lemma EachJudgedSnoc(c: Config, f: Feed, snaps: seq<Snap>, s: Snap, plan: seq<Upsert>, more: seq<Upsert>)
    requires Usable(c) && f.verdicts.Rows? && WritesEachJudged(c, f, snaps, plan)
    requires if Judged(f.verdicts.rows, s) then |more| == 1 && IsWriteOf(c, f, s, more[0]) else more == []
    ensures WritesEachJudged(c, f, snaps + [s], plan + more)
  {
    hide Judged, IsWriteOf, JudgedAt;
    var vs := f.verdicts.rows;
    JudgedSnoc(vs, snaps, s);
    forall i | 0 <= i < |snaps + [s]| && Judged(vs, (snaps + [s])[i])
      ensures var r := |JudgedAt(vs, (snaps + [s])[..i])|;
        r < |plan + more| && IsWriteOf(c, f, (snaps + [s])[i], (plan + more)[r])
    {
      assert (snaps + [s])[..i] == snaps[..i];
      assert i == |snaps| ==> snaps[..i] == snaps;
    }
  }

  lemma {:induction false} WritesCover(c: Config, f: Feed, snaps: seq<Snap>)
    requires Usable(c) && f.verdicts.Rows?
    ensures WritesEachJudged(c, f, snaps, WritesFor(c, f, snaps))
    decreases |snaps|
  {
    hide Judged, IsWriteOf, WriteFor;
    if snaps == [] {
      assert JudgedAt(f.verdicts.rows, []) == {};
    } else {
      hide WritesEachJudged;
      var n := |snaps| - 1;
      WritesCover(c, f, snaps[..n]);
      WriteForJudged(c, f, snaps[n]);
      assert snaps == snaps[..n] + [snaps[n]];
      var w := WriteFor(c, f, snaps[n]);
      EachJudgedSnoc(c, f, snaps[..n], snaps[n], WritesFor(c, f, snaps[..n]), if w.Some? then [w.value] else []);
    }
  }

  /** A tick that fetched writes every judged snapshot's score, once and in order, and nothing else; one that
      could not fetch snapshots or verdicts writes nothing. */
  lemma PlanScoresEachJudged(c: Config, f: Feed)
    requires Usable(c)
    ensures f.snaps.Rows? && f.verdicts.Rows? ==> WritesEachJudged(c, f, f.snaps.rows, Plan(c, f))
    ensures f.snaps.Failed? || f.verdicts.Failed? ==> Plan(c, f) == []
  {
    hide WritesEachJudged;
    if f.snaps.Rows? && f.verdicts.Rows? {
      WritesCover(c, f, f.snaps.rows);
    }
  }

  /** Crashes of a contestant add up over its rows. */
  lemma {:induction false} TotalIsSum(cs: seq<Crash>, cs': seq<Crash>, contestant: string)
    ensures Total(cs + cs', contestant) == Total(cs, contestant) + Total(cs', contestant)
    ensures forall c :: Total([c], contestant) == if c.contestant == contestant then c.crashes else 0
    decreases |cs|
  {
    if cs == [] {
      assert cs + cs' == cs';
    } else {
      assert (cs + cs')[1..] == cs[1..] + cs';
      TotalIsSum(cs[1..], cs', contestant);
    }
    forall c: Crash ensures Total([c], contestant) == if c.contestant == contestant then c.crashes else 0 {
      assert [c][1..] == [];
    }
  }

  // ---------- what the store holds after a tick ----------

  /** The name a snapshot's score is stored under. */
  predicate StoredAs(s: Snap, contestant: string, name: string) {
    s.contestant == contestant && (if s.submission == "" then name == "default" else name == s.submission)
  }

  /** The i-th snapshot is the last judged one that is stored under this name. */
  ghost predicate LastStored(vs: seq<Verdict>, snaps: seq<Snap>, contestant: string, name: string, i: nat) {
    && i < |snaps| && Judged(vs, snaps[i]) && StoredAs(snaps[i], contestant, name)
    && forall j :: i < j < |snaps| ==> !(Judged(vs, snaps[j]) && StoredAs(snaps[j], contestant, name))
  }

  ghost predicate NoneStored(vs: seq<Verdict>, snaps: seq<Snap>, contestant: string, name: string) {
    forall j :: 0 <= j < |snaps| ==> !(Judged(vs, snaps[j]) && StoredAs(snaps[j], contestant, name))
  }

  /** Under every name the board holds the score of the last judged snapshot of that name, or what it held. */
  ghost predicate Stores(c: Config, f: Feed, snaps: seq<Snap>, b: Board, b': Board)
    requires Usable(c) && f.verdicts.Rows?
  {
    forall contestant, name ::
      var was, now := AttemptsOf(b, contestant), AttemptsOf(b', contestant);
      if NoneStored(f.verdicts.rows, snaps, contestant, name) then
        (name in now <==> name in was) && (name in now ==> now[name] == was[name])
      else
        name in now && HoldsLast(c, f, snaps, contestant, name, now[name])
  }

  ghost predicate HoldsLast(c: Config, f: Feed, snaps: seq<Snap>, contestant: string, name: string, score: int)
    requires Usable(c) && f.verdicts.Rows?
  {
    exists i: nat :: i < |snaps| && LastStored(f.verdicts.rows, snaps, contestant, name, i)
                  && IsScoreOf(c, f, snaps[i], score)
  }

  lemma UpsertStores(b: Board, s: Snap, u: Upsert, contestant: string, name: string)
    requires u.contestant == s.contestant && u.submission == s.submission
    ensures var was, now := AttemptsOf(b, contestant), AttemptsOf(Upserted(b, u), contestant);
      if StoredAs(s, contestant, name) then name in now && now[name] == u.score
      else (name in now <==> name in was) && (name in now ==> now[name] == was[name])
  {
  }

  lemma LastSnoc(vs: seq<Verdict>, snaps: seq<Snap>, s: Snap, contestant: string, name: string)
    ensures NoneStored(vs, snaps + [s], contestant, name)
       <==> NoneStored(vs, snaps, contestant, name) && !(Judged(vs, s) && StoredAs(s, contestant, name))
    ensures Judged(vs, s) && StoredAs(s, contestant, name) ==>
      LastStored(vs, snaps + [s], contestant, name, |snaps|)
    ensures forall i: nat :: LastStored(vs, snaps, contestant, name, i) ==>
      (Judged(vs, s) && StoredAs(s, contestant, name)) || LastStored(vs, snaps + [s], contestant, name, i)
  {
    hide Judged, StoredAs;
    var all := snaps + [s];
    assert all[|snaps|] == s && forall j :: 0 <= j < |snaps| ==> all[j] == snaps[j];
  }

  lemma StoresOneMore(c: Config, f: Feed, snaps: seq<Snap>, s: Snap, b: Board, mid: Board, b': Board)
    requires Usable(c) && f.verdicts.Rows? && Stores(c, f, snaps, b, mid)
    requires if Judged(f.verdicts.rows, s) then exists u :: IsWriteOf(c, f, s, u) && b' == Upserted(mid, u)
             else b' == mid
    ensures Stores(c, f, snaps + [s], b, b')
  {
    hide Judged, StoredAs, IsScoreOf, HoldsLast, NoneStored, Upserted, AttemptsOf;
    var vs := f.verdicts.rows;
    forall contestant, name
      ensures var was, now := AttemptsOf(b, contestant), AttemptsOf(b', contestant);
        if NoneStored(vs, snaps + [s], contestant, name) then
          (name in now <==> name in was) && (name in now ==> now[name] == was[name])
        else
          name in now && HoldsLast(c, f, snaps + [s], contestant, name, now[name])
    {
      LastSnoc(vs, snaps, s, contestant, name);
      if Judged(vs, s) {
        var u :| IsWriteOf(c, f, s, u) && b' == Upserted(mid, u);
        UpsertStores(mid, s, u, contestant, name);
      }
      StoresUnder(c, f, snaps, s, b, mid, b', contestant, name);
    }
  }

  /** The same for one name. */
  lemma StoresUnder(c: Config, f: Feed, snaps: seq<Snap>, s: Snap, b: Board, mid: Board, b': Board,
                    contestant: string, name: string)
    requires Usable(c) && f.verdicts.Rows? && Stores(c, f, snaps, b, mid)
    requires var vs, was, now := f.verdicts.rows, AttemptsOf(mid, contestant), AttemptsOf(b', contestant);
      if Judged(vs, s) && StoredAs(s, contestant, name) then name in now && IsScoreOf(c, f, s, now[name])
      else (name in now <==> name in was) && (name in now ==> now[name] == was[name])
    ensures var vs, was, now := f.verdicts.rows, AttemptsOf(b, contestant), AttemptsOf(b', contestant);
      if NoneStored(vs, snaps + [s], contestant, name) then
        (name in now <==> name in was) && (name in now ==> now[name] == was[name])
      else
        name in now && HoldsLast(c, f, snaps + [s], contestant, name, now[name])
  {
    hide Judged, StoredAs, IsScoreOf, LastStored, NoneStored, AttemptsOf;
    var vs, now := f.verdicts.rows, AttemptsOf(b', contestant);
    LastSnoc(vs, snaps, s, contestant, name);
    if Judged(vs, s) && StoredAs(s, contestant, name) {
      assert (snaps + [s])[|snaps|] == s;
    } else if !NoneStored(vs, snaps, contestant, name) {
      var i: nat :| i < |snaps| && LastStored(vs, snaps, contestant, name, i) && IsScoreOf(c, f, snaps[i], now[name]);
      assert (snaps + [s])[i] == snaps[i];
    }
  }

  lemma {:induction false} WritesStore(c: Config, f: Feed, snaps: seq<Snap>, b: Board)
    requires Usable(c) && f.verdicts.Rows?
    ensures Stores(c, f, snaps, b, UpsertedAll(b, WritesFor(c, f, snaps)))
    decreases |snaps|
  {
    hide Judged, IsWriteOf, IsScoreOf, WriteFor, Upserted;
    if snaps != [] {
      hide Stores;
      var n := |snaps| - 1;
      WritesStore(c, f, snaps[..n], b);
      WriteForJudged(c, f, snaps[n]);
      var log, w := WritesFor(c, f, snaps[..n]), WriteFor(c, f, snaps[n]);
      if w.Some? {
        assert (log + [w.value])[..|log|] == log;
      } else {
        assert log + [] == log;
      }
      assert snaps == snaps[..n] + [snaps[n]];
      StoresOneMore(c, f, snaps[..n], snaps[n], b, UpsertedAll(b, log), UpsertedAll(b, WritesFor(c, f, snaps)));
    }
  }

  lemma {:induction false} WritesRank(b: Board, log: seq<Upsert>)
    requires Ranked(b)
    ensures Ranked(UpsertedAll(b, log))
    decreases |log|
  {
    hide Ranked, Upserted;
    if log != [] {
      WritesRank(b, log[..|log| - 1]);
      UpsertRanks(UpsertedAll(b, log[..|log| - 1]), log[|log| - 1]);
    }
  }

  /** What one tick makes of the board. */
  ghost predicate Ticked(c: Config, f: Feed, b: Board, b': Board)
    requires Usable(c)
  {
    && (if f.snaps.Rows? && f.verdicts.Rows? then Stores(c, f, f.snaps.rows, b, b') else b' == b)
    && (Ranked(b) ==> Ranked(b'))
  }

  /** After a tick every judged snapshot's name holds the score of its last judged snapshot, every other name what
      it held, and a contestant's rank is still the best of its names. */
  lemma TickStores(c: Config, f: Feed, b: Board)
    requires Usable(c)
    ensures Ticked(c, f, b, UpsertedAll(b, Plan(c, f)))
  {
    hide Stores, Ranked, WritesFor;
    if f.snaps.Rows? && f.verdicts.Rows? {
      WritesStore(c, f, f.snaps.rows, b);
    }
    if Ranked(b) {
      WritesRank(b, Plan(c, f));
    }
  }

  /** A judged snapshot's contestant is ranked after the tick. */
  lemma JudgedAreRanked(c: Config, f: Feed, b: Board, b': Board, s: Snap)
    requires Usable(c) && f.snaps.Rows? && f.verdicts.Rows? && Ticked(c, f, b, b') && Ranked(b)
    requires s in f.snaps.rows && Judged(f.verdicts.rows, s)
    ensures s.contestant in b'.scores
    ensures forall l :: l in b'.subs[s.contestant] ==> b'.subs[s.contestant][l] <= b'.scores[s.contestant]
  {
    hide Judged, IsScoreOf, LastStored;
    var name := if s.submission == "" then "default" else s.submission;
    assert StoredAs(s, s.contestant, name);
    assert !NoneStored(f.verdicts.rows, f.snaps.rows, s.contestant, name);
    assert name in AttemptsOf(b', s.contestant);
  }

  // ---------- a replica that gets to send ----------

  function Sends(replica: nat, n: nat): seq<Act> {
    if n == 0 then [] else Sends(replica, n - 1) + [Send(replica)]
  }

  lemma Begins(c: Config, acts: seq<Act>, replica: nat, f: Feed)
    requires Usable(c) && Pending(After(c, acts), replica) == []
    ensures var run := acts + [Begin(replica, f)];
      Pending(After(c, run), replica) == Plan(c, f) && Log(c, run) == Log(c, acts)
  {
    hide Plan, Upserted;
    assert (acts + [Begin(replica, f)])[..|acts|] == acts;
  }

  lemma SendsOne(c: Config, acts: seq<Act>, replica: nat)
    requires Usable(c) && Pending(After(c, acts), replica) != []
    ensures var run, todo := acts + [Send(replica)], Pending(After(c, acts), replica);
      Pending(After(c, run), replica) == todo[1..] && Log(c, run) == Log(c, acts) + [todo[0]]
  {
    hide Plan, Upserted;
    assert (acts + [Send(replica)])[..|acts|] == acts;
  }

  lemma {:induction false} SendsPlan(c: Config, acts: seq<Act>, replica: nat, f: Feed, n: nat)
    requires Usable(c) && Pending(After(c, acts), replica) == [] && n <= |Plan(c, f)|
    ensures var run := acts + [Begin(replica, f)] + Sends(replica, n);
      && Pending(After(c, run), replica) == Plan(c, f)[n..]
      && Log(c, run) == Log(c, acts) + Plan(c, f)[..n]
    decreases n
  {
    hide Plan, After, Log, Pending;
    var begun, plan := acts + [Begin(replica, f)], Plan(c, f);
    if n == 0 {
      Begins(c, acts, replica, f);
      assert begun + [] == begun && Log(c, acts) + plan[..0] == Log(c, acts);
    } else {
      SendsPlan(c, acts, replica, f, n - 1);
      var before := begun + Sends(replica, n - 1);
      assert begun + Sends(replica, n) == before + [Send(replica)];
      SendsOne(c, before, replica);
      assert plan[..n] == plan[..n - 1] + [plan[n - 1]];
    }
  }

  /** From any state, an idle replica that begins a tick and sends as often as its plan is long has written every
      judged snapshot's score to the shared board. */
  lemma TickReachesTheBoard(c: Config, acts: seq<Act>, replica: nat, f: Feed)
    requires Usable(c) && Pending(After(c, acts), replica) == []
    ensures var run := acts + [Begin(replica, f)] + Sends(replica, |Plan(c, f)|);
      && Log(c, run) == Log(c, acts) + Plan(c, f) && Pending(After(c, run), replica) == []
      && Ticked(c, f, After(c, acts).board, After(c, run).board)
  {
    hide Plan, Ticked, After, Log;
    var plan := Plan(c, f);
    var run := acts + [Begin(replica, f)] + Sends(replica, |plan|);
    SendsPlan(c, acts, replica, f, |plan|);
    assert plan[..|plan|] == plan && plan[|plan|..] == [];
    BoardIsTheLog(c, acts);
    BoardIsTheLog(c, run);
    UpsertedAppend(EMPTY, Log(c, acts), plan);
    TickStores(c, f, After(c, acts).board);
  }

  lemma {:induction false} UpsertedAppend(b: Board, log: seq<Upsert>, log': seq<Upsert>)
    ensures UpsertedAll(b, log + log') == UpsertedAll(UpsertedAll(b, log), log')
    decreases |log'|
  {
    hide Upserted;
    if log' == [] {
      assert log + [] == log;
    } else {
      var n := |log'| - 1;
      assert (log + log')[..|log + log'| - 1] == log + log'[..n];
      UpsertedAppend(b, log, log'[..n]);
    }
  }
}
