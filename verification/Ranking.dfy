/** The in-memory leaderboard store and the tick that feeds it. The Redis store runs the same write as one
    script. */
module Ranking {
  import opened Options
  import opened Points
  import opened Leaderboard
  import Scored

  datatype Entry = Entry(contestant: string, score: int)

  ghost predicate Distinct(es: seq<Entry>) {
    forall i, j :: 0 <= i < j < |es| ==> es[i].contestant != es[j].contestant
  }

  ghost predicate Descending(es: seq<Entry>) {
    forall i, j :: 0 <= i < j < |es| ==> es[i].score >= es[j].score
  }

  /** Every ranked contestant once, with its score. */
  ghost predicate Lists(es: seq<Entry>, scores: map<string, int>) {
    && Distinct(es)
    && (forall e :: e in es ==> e.contestant in scores && e.score == scores[e.contestant])
    && (forall c :: c in scores ==> Entry(c, scores[c]) in es)
  }

  /** The board's head: in order, as many as asked for, and nobody left out who beats one kept. */
  ghost predicate IsTop(kept: seq<Entry>, scores: map<string, int>, n: int) {
    && |kept| == (if 0 < n < |scores| then n else |scores|)
    && Distinct(kept) && Descending(kept)
    && (forall e :: e in kept ==> e.contestant in scores && e.score == scores[e.contestant])
    && (forall c, e :: c in scores && Entry(c, scores[c]) !in kept && e in kept ==> scores[c] <= e.score)
  }

  lemma {:induction false} ListsAll(es: seq<Entry>, scores: map<string, int>)
    requires Lists(es, scores)
    ensures |es| == |scores|
    decreases |es|
  {
    if es == [] {
      assert scores == map[];
    } else {
      var n := |es| - 1;
      var c := es[n].contestant;
      assert es == es[..n] + [es[n]];
      assert es[n] in es;
      assert (scores - {c}).Keys == scores.Keys - {c};
      ListsAll(es[..n], scores - {c});
      assert |scores.Keys| == |(scores - {c}).Keys| + 1;
    }
  }

  lemma LeftOutIsNoBetter(es: seq<Entry>, n: nat, left: Entry, kept: Entry)
    requires n <= |es| && Descending(es) && left in es && left !in es[..n] && kept in es[..n]
    ensures left.score <= kept.score
  {
    assert forall x :: 0 <= x < n ==> es[..n][x] == es[x] && es[..n][x] in es[..n];
    var i :| 0 <= i < |es| && es[i] == left;
    var j :| 0 <= j < n && es[..n][j] == kept;
  }

  lemma PrefixIsTop(es: seq<Entry>, scores: map<string, int>, n: int)
    requires Lists(es, scores) && Descending(es)
    ensures IsTop(if 0 < n < |es| then es[..n] else es, scores, n)
  {
    ListsAll(es, scores);
    if 0 < n < |es| {
      assert forall x :: 0 <= x < n ==> es[..n][x] == es[x];
      assert Distinct(es[..n]) && Descending(es[..n]);
      forall c, e | c in scores && Entry(c, scores[c]) !in es[..n] && e in es[..n] ensures scores[c] <= e.score {
        LeftOutIsNoBetter(es, n, Entry(c, scores[c]), e);
      }
      hide Distinct, Descending;
    }
  }

  /** Sorting by score, highest first. */
  method SortByScore(es: seq<Entry>) returns (sorted: seq<Entry>)
    requires Distinct(es)
    ensures Descending(sorted) && Distinct(sorted) && forall e :: e in sorted <==> e in es
  {
    hide Insert;
    sorted := [];
    for i := 0 to |es|
      invariant Descending(sorted) && Distinct(sorted)
      invariant forall e :: e in sorted <==> e in es[..i]
    {
      var k := |sorted|;
      while k > 0 && es[i].score > sorted[k - 1].score
        invariant 0 <= k <= |sorted|
        invariant forall j :: k <= j < |sorted| ==> es[i].score > sorted[j].score
      {
        k := k - 1;
      }
      forall j | 0 <= j < |sorted| ensures sorted[j].contestant != es[i].contestant {
        assert sorted[j] in es[..i];
      }
      InsertedAt(sorted, k, es[i]);
      InsertedElems(sorted, k, es[i]);
      sorted := Insert(sorted, k, es[i]);
      assert es[..i + 1] == es[..i] + [es[i]];
    }
    assert es[..|es|] == es;
  }

  function Insert(es: seq<Entry>, k: nat, e: Entry): (r: seq<Entry>)
    requires k <= |es|
    ensures |r| == |es| + 1
    ensures forall x :: 0 <= x < |r| ==> r[x] == if x < k then es[x] else if x == k then e else es[x - 1]
  {
    es[..k] + [e] + es[k..]
  }

  lemma InsertedAt(es: seq<Entry>, k: nat, e: Entry)
    requires k <= |es| && Distinct(es) && Descending(es)
    requires forall j :: 0 <= j < |es| ==> es[j].contestant != e.contestant
    requires k > 0 ==> es[k - 1].score >= e.score
    requires forall j :: k <= j < |es| ==> e.score >= es[j].score
    ensures Distinct(Insert(es, k, e)) && Descending(Insert(es, k, e))
  {
    var r := Insert(es, k, e);
    assert forall j :: 0 <= j < k ==> es[j].score >= e.score;
    assert forall x :: 0 <= x < |r| ==> r[x] == if x < k then es[x] else if x == k then e else es[x - 1];
    hide Insert;
    assert Distinct(r);
    assert Descending(r);
  }

  lemma InsertedElems(es: seq<Entry>, k: nat, e: Entry)
    requires k <= |es|
    ensures forall x :: x in Insert(es, k, e) <==> x in es || x == e
  {
    assert es == es[..k] + es[k..];
  }

  class Stub {
    var scores: map<string, int>
    var subs: map<string, map<string, int>>

    constructor ()
      ensures Value() == EMPTY
    {
      scores := map[];
      subs := map[];
    }

    ghost function Value(): Board
      reads this
    {
      Board(scores, subs)
    }

    method UpsertSubmission(contestant: string, submission: string, score: int)
      modifies this
      ensures Value() == Upserted(old(Value()), Upsert(contestant, submission, score))
    {
      var name := if submission == "" then "default" else submission;
      var m := if contestant in subs then subs[contestant] else map[];
      m := m[name := score];
      subs := subs[contestant := m];
      var best, todo := score, m.Keys;
      assert m[name] == best;
      while todo != {}
        invariant todo <= m.Keys
        invariant exists k :: k in m && m[k] == best
        invariant m[name] <= best && forall k :: k in m ==> k in todo || m[k] <= best
        decreases |todo|
      {
        var k :| k in todo;
        todo := todo - {k};
        if m[k] > best {
          best := m[k];
        }
      }
      scores := scores[contestant := best];
      BestIsUnique(m, best, BestOf(m));
    }

    method Top(n: int) returns (kept: seq<Entry>)
      ensures IsTop(kept, scores, n)
    {
      var entries, todo := [], scores.Keys;
      while todo != {}
        invariant todo <= scores.Keys
        invariant Distinct(entries)
        invariant forall e :: e in entries ==> e.contestant in scores.Keys - todo && e.score == scores[e.contestant]
        invariant forall c :: c in scores ==> c in todo || Entry(c, scores[c]) in entries
        decreases |todo|
      {
        var c :| c in todo;
        todo := todo - {c};
        forall i | 0 <= i < |entries| ensures entries[i].contestant != c {
          assert entries[i] in entries;
        }
        entries := entries + [Entry(c, scores[c])];
      }
      var sorted := SortByScore(entries);
      PrefixIsTop(sorted, scores, n);
      kept := if 0 < n < |sorted| then sorted[..n] else sorted;
    }
  }

  // ---------- the tick ----------

  /** The verdict maps speak as the rows do. */
  ghost predicate VerdictMaps(vs: seq<Verdict>, bySubmission: map<string, real>, byContestant: map<string, real>) {
    forall s: Snap :: OwnVerdict(vs, s) ==
      var m := if s.submission != "" then bySubmission else byContestant;
      var k := if s.submission != "" then s.submission else s.contestant;
      if k in m then Some(m[k]) else None
  }

  ghost predicate CrashMaps(cs: seq<Crash>, bySubmission: map<string, int>, byContestant: map<string, int>) {
    forall s: Snap :: OwnCrashes(cs, s) ==
      var m := if s.submission != "" then bySubmission else byContestant;
      var k := if s.submission != "" then s.submission else s.contestant;
      Count(m, k)
  }

  /** A missing row reads as zero. */
  function Count(m: map<string, int>, k: string): int { if k in m then m[k] else 0 }

  method ReadVerdicts(vs: seq<Verdict>) returns (bySubmission: map<string, real>, byContestant: map<string, real>)
    ensures VerdictMaps(vs, bySubmission, byContestant)
  {
    bySubmission, byContestant := map[], map[];
    for i := 0 to |vs|
      invariant VerdictMaps(vs[..i], bySubmission, byContestant)
    {
      var v := vs[i];
      assert vs[..i + 1][..i] == vs[..i];
      if v.checked <= 0 {
        continue;
      }
      if v.submission != "" {
        bySubmission := bySubmission[v.submission := v.correctness];
      }
      byContestant := byContestant[v.contestant := v.correctness];
    }
    assert vs[..|vs|] == vs;
  }

  method ReadCrashes(cs: seq<Crash>) returns (bySubmission: map<string, int>, byContestant: map<string, int>)
    ensures CrashMaps(cs, bySubmission, byContestant)
  {
    bySubmission, byContestant := map[], map[];
    for i := 0 to |cs|
      invariant CrashMaps(cs[..i], bySubmission, byContestant)
    {
      var c := cs[i];
      assert cs[..i + 1][..i] == cs[..i];
      if c.submission != "" {
        bySubmission := bySubmission[c.submission := c.crashes];
      }
      byContestant := byContestant[c.contestant := Count(byContestant, c.contestant) + c.crashes];
    }
    assert cs[..|cs|] == cs;
  }

  /** The write of one snapshot, if its verdict is in. */
  method Judge(c: Config, feed: Feed, s: Snap, verdictOf: map<string, real>, verdictBy: map<string, real>,
               crashesOf: map<string, int>, crashesBy: map<string, int>) returns (w: Option<Upsert>)
    requires Usable(c) && feed.verdicts.Rows?
    requires VerdictMaps(feed.verdicts.rows, verdictOf, verdictBy) && CrashMaps(CrashRows(feed), crashesOf, crashesBy)
    ensures w == WriteFor(c, feed, s)
  {
    hide FinalScore, OwnVerdict, OwnCrashes;
    var correctness, crashes;
    if s.submission != "" {
      if s.submission !in verdictOf {
        return None;
      }
      correctness := verdictOf[s.submission];
      crashes := Count(crashesOf, s.submission);
    } else {
      if s.contestant !in verdictBy {
        return None;
      }
      correctness := verdictBy[s.contestant];
      crashes := Count(crashesBy, s.contestant);
    }
    var points := FinalScore(c, Inputs(s.p99, s.tps, correctness, crashes, s.timeouts));
    w := Some(Upsert(s.contestant, s.submission, points));
  }

  lemma WritesSnoc(c: Config, feed: Feed, snaps: seq<Snap>, s: Snap, b: Board)
    requires Usable(c) && feed.verdicts.Rows?
    ensures var before := UpsertedAll(b, WritesFor(c, feed, snaps));
      UpsertedAll(b, WritesFor(c, feed, snaps + [s]))
      == match WriteFor(c, feed, s)
         case None => before
         case Some(u) => Upserted(before, u)
  {
    hide WriteFor, Upserted;
    var log, w := WritesFor(c, feed, snaps), WriteFor(c, feed, s);
    assert (snaps + [s])[..|snaps|] == snaps;
    if w.Some? {
      assert (log + [w.value])[..|log|] == log;
    } else {
      assert log + [] == log;
    }
  }

  /** One tick of one replica with the store to itself: fetch, score each submission that has a verdict,
      write, and read the head of the board. Every judged snapshot's name then holds the score of its last
      judged snapshot, every other name what it held, and contestants rank by the best. */
  method Tick(c: Config, feed: Feed, store: Stub, n: int) returns (ok: bool, top: seq<Entry>)
    requires Usable(c)
    modifies store
    ensures ok <==> feed.snaps.Rows? && feed.verdicts.Rows?
    ensures store.Value() == UpsertedAll(old(store.Value()), Plan(c, feed))
    ensures Scored.Ticked(c, feed, old(store.Value()), store.Value())
    ensures ok ==> IsTop(top, store.scores, n)
  {
    hide Upserted, UpsertedAll, WritesFor, WriteFor, VerdictMaps, CrashMaps, IsTop, Scored.Ticked;
    Scored.TickStores(c, feed, store.Value());
    top := [];
    if feed.snaps.Failed? || feed.verdicts.Failed? {
      NoWrites(store.Value());
      return false, top;
    }
    var verdictOf, verdictBy := ReadVerdicts(feed.verdicts.rows);
    var crashesOf, crashesBy := ReadCrashes(CrashRows(feed));
    var snaps := feed.snaps.rows;
    ghost var before := store.Value();
    NoWrites(before);
    NoSnaps(c, feed);
    for i := 0 to |snaps|
      invariant store.Value() == UpsertedAll(before, WritesFor(c, feed, snaps[..i]))
    {
      assert snaps[..i + 1] == snaps[..i] + [snaps[i]];
      WritesSnoc(c, feed, snaps[..i], snaps[i], before);
      var w := Judge(c, feed, snaps[i], verdictOf, verdictBy, crashesOf, crashesBy);
      if w.None? {
        continue;
      }
      store.UpsertSubmission(w.value.contestant, w.value.submission, w.value.score);
    }
    assert snaps[..|snaps|] == snaps;
    top := store.Top(n);
    ok := true;
  }

  lemma NoWrites(b: Board)
    ensures UpsertedAll(b, []) == b
  {
  }

  lemma NoSnaps(c: Config, feed: Feed)
    requires Usable(c) && feed.verdicts.Rows?
    ensures WritesFor(c, feed, []) == []
  {
  }
}
