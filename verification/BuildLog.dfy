/** The build log of the submission service: a bounded ring of numbered lines per submission, and a client
    that polls it with the last number it was given. */
module BuildLog {

  datatype Line = Line(number: int, stream: string, text: string, at: int)

  /** What happens: a line is offered for some submission, or the client polls. */
  datatype Event = Append(submission: string, stream: string, text: string, at: int) | Poll

  predicate Kept(e: Event) { e.Append? && e.submission != "" && e.text != "" }

  /** Every line a submission was ever given, numbered from one. */
  function Extended(h: seq<Line>, e: Event): seq<Line>
    requires e.Append?
  {
    h + [Line(|h| + 1, e.stream, e.text, e.at)]
  }

  function History(es: seq<Event>, submission: string): seq<Line> {
    if es == [] then []
    else
      var h, e := History(es[..|es| - 1], submission), es[|es| - 1];
      if Kept(e) && e.submission == submission then Extended(h, e) else h
  }

  predicate Numbered(h: seq<Line>) { forall i :: 0 <= i < |h| ==> h[i].number == i + 1 }

  lemma {:induction false} HistoryNumbered(es: seq<Event>, submission: string)
    ensures Numbered(History(es, submission))
    decreases |es|
  {
    if es != [] {
      HistoryNumbered(es[..|es| - 1], submission);
    }
  }

  /** Where a line with some text is offered for this submission, which has a name. */
  ghost function OfferedAt(es: seq<Event>, submission: string): set<int> {
    set i | 0 <= i < |es| && es[i].Append? && es[i].submission == submission != "" && es[i].text != ""
  }

  /** The history holds every line offered with some text, in order and numbered from one, and nothing else. */
  ghost predicate HoldsOffered(es: seq<Event>, submission: string, h: seq<Line>) {
    && |h| == |OfferedAt(es, submission)|
    && forall i :: i in OfferedAt(es, submission) ==>
         var n := |OfferedAt(es[..i], submission)|;
         n < |h| && h[n] == Line(n + 1, es[i].stream, es[i].text, es[i].at)
  }

  lemma OfferedSnoc(es: seq<Event>, e: Event, submission: string)
    ensures var offered := e.Append? && e.submission == submission != "" && e.text != "";
      && OfferedAt(es + [e], submission) == OfferedAt(es, submission) + (if offered then {|es|} else {})
      && |OfferedAt(es + [e], submission)| == |OfferedAt(es, submission)| + if offered then 1 else 0
  {
    var offered := e.Append? && e.submission == submission != "" && e.text != "";
    assert OfferedAt(es + [e], submission) == OfferedAt(es, submission) + if offered then {|es|} else {};
  }

  lemma OfferedOneMore(es: seq<Event>, e: Event, submission: string, h: seq<Line>)
    requires HoldsOffered(es, submission, h)
    ensures HoldsOffered(es + [e], submission, if Kept(e) && e.submission == submission then Extended(h, e) else h)
  {
    OfferedSnoc(es, e, submission);
    var h' := if Kept(e) && e.submission == submission then Extended(h, e) else h;
    forall i | i in OfferedAt(es + [e], submission)
      ensures var n := |OfferedAt((es + [e])[..i], submission)|;
        n < |h'| && h'[n] == Line(n + 1, (es + [e])[i].stream, (es + [e])[i].text, (es + [e])[i].at)
    {
      assert (es + [e])[..i] == if i < |es| then es[..i] else es;
      assert i < |es| ==> i in OfferedAt(es, submission);
      assert i >= |es| ==> i == |es|;
    }
  }

  lemma {:induction false} HistoryHoldsOffered(es: seq<Event>, submission: string)
    ensures HoldsOffered(es, submission, History(es, submission))
    decreases |es|
  {
    if es == [] {
      assert OfferedAt(es, submission) == {};
    } else {
      var n := |es| - 1;
      HistoryHoldsOffered(es[..n], submission);
      hide HoldsOffered;
      OfferedOneMore(es[..n], es[n], submission, History(es[..n], submission));
      assert es == es[..n] + [es[n]];
    }
  }

  /** The newest lines, as many as fit. */
  function Newest(h: seq<Line>, limit: nat): (r: seq<Line>)
    ensures |r| == if |h| <= limit then |h| else limit
    ensures r == h[|h| - |r|..]
  {
    if |h| <= limit then h else h[|h| - limit..]
  }

  function After(ls: seq<Line>, since: int): seq<Line> {
    if ls == [] then []
    else After(ls[..|ls| - 1], since) + (if ls[|ls| - 1].number > since then [ls[|ls| - 1]] else [])
  }

  /** How many lines of a history of n a poll from `since` no longer gets. */
  function Lost(n: nat, limit: nat, since: int): (k: nat)
    ensures k <= n
  {
    var from := if n <= limit then 0 else n - limit;
    if since <= from then from else if since <= n then since else n
  }

  lemma Snoc(h: seq<Line>, from: nat, end: nat)
    requires from < end <= |h|
    ensures h[from..end] == h[from..end - 1] + [h[end - 1]]
  {
  }

  lemma AfterSnoc(ls: seq<Line>, l: Line, since: int)
    ensures After(ls + [l], since) == if l.number > since then After(ls, since) + [l] else After(ls, since)
  {
    assert (ls + [l])[..|ls|] == ls;
  }

  /** The lines numbered above `since` of a stretch of a history. */
  function Stretch(h: seq<Line>, from: nat, end: nat, since: int): seq<Line>
    requires from <= end <= |h|
  {
    if since <= from then h[from..end] else if since <= end then h[since..end] else []
  }

  lemma NothingStretched(h: seq<Line>, from: nat, since: int)
    requires from <= |h|
    ensures After(h[from..from], since) == Stretch(h, from, from, since)
  {
    assert h[from..from] == [];
  }

  lemma StretchSnoc(h: seq<Line>, from: nat, end: nat, since: int)
    requires from < end <= |h|
    ensures Stretch(h, from, end, since)
         == if end > since then Stretch(h, from, end - 1, since) + [h[end - 1]] else Stretch(h, from, end - 1, since)
  {
    if since <= from {
      Snoc(h, from, end);
    } else if since < end {
      Snoc(h, since, end);
    }
  }

  lemma {:induction false} AfterIsSuffix(h: seq<Line>, from: nat, end: nat, since: int)
    requires Numbered(h) && from <= end <= |h|
    ensures After(h[from..end], since) == Stretch(h, from, end, since)
    decreases end - from
  {
    if from == end {
      NothingStretched(h, from, since);
    } else {
      var x := h[end - 1];
      assert x.number == end;
      hide After, Numbered, Stretch;
      AfterIsSuffix(h, from, end - 1, since);
      AfterSnoc(h[from..end - 1], x, since);
      StretchSnoc(h, from, end, since);
      Snoc(h, from, end);
      assert After(h[from..end], since) == After(h[from..end - 1] + [x], since);
    }
  }

  /** A poll returns the contiguous newest lines after the cursor that the ring still holds. */
  lemma PollIsSuffix(h: seq<Line>, limit: nat, since: int)
    requires Numbered(h)
    ensures After(Newest(h, limit), since) == h[Lost(|h|, limit, since)..]
  {
    var r := Newest(h, limit);
    var k := |h| - |r|;
    assert h[k..] == h[k..|h|];
    hide After, Numbered, Newest;
    AfterIsSuffix(h, |h| - |r|, |h|, since);
  }

  /** It returns a line exactly if that is numbered above the cursor and among the newest that fit. */
  lemma PollGets(h: seq<Line>, limit: nat, since: int)
    requires Numbered(h)
    ensures forall l :: l in h[Lost(|h|, limit, since)..] <==> l in h && l.number > since && l.number > |h| - limit
  {
    var from := Lost(|h|, limit, since);
    forall l | l in h && l.number > since && l.number > |h| - limit ensures l in h[from..] {
      var i :| 0 <= i < |h| && h[i] == l;
      assert h[from..][i - from] == l;
    }
  }

  // ---------- a client that polls ----------

  datatype Client = Client(cursor: int, got: seq<Line>)

  /** The client adds what a poll returns to what it has and moves its cursor to the returned number. */
  function Following(limit: nat, es: seq<Event>, submission: string): Client {
    if es == [] then Client(0, [])
    else
      var c := Following(limit, es[..|es| - 1], submission);
      if es[|es| - 1].Poll? then
        var h := History(es, submission);
        Client(|h|, c.got + After(Newest(h, limit), c.cursor))
      else c
  }

  /** At no poll have more lines arrived since the poll before than the ring holds. */
  ghost predicate PollsInTime(limit: nat, es: seq<Event>, submission: string) {
    es != [] ==>
      && PollsInTime(limit, es[..|es| - 1], submission)
      && (es[|es| - 1].Poll? ==>
            |History(es, submission)| - Following(limit, es[..|es| - 1], submission).cursor <= limit)
  }

  /** The lines are in order, each at most once, and each is the history's own line of its number. */
  ghost predicate Faithful(c: Client, h: seq<Line>) {
    && 0 <= c.cursor <= |h|
    && (forall i :: 0 <= i < |c.got| ==> 1 <= c.got[i].number <= c.cursor && c.got[i] == h[c.got[i].number - 1])
    && (forall i, j :: 0 <= i < j < |c.got| ==> c.got[i].number < c.got[j].number)
  }

  lemma PollFaithful(c: Client, h: seq<Line>, more: seq<Line>)
    requires Faithful(c, h) && Numbered(h)
    requires exists k :: c.cursor <= k <= |h| && more == h[k..]
    ensures Faithful(Client(|h|, c.got + more), h)
  {
  }

  lemma HistoryGrows(es: seq<Event>, submission: string)
    requires es != []
    ensures History(es[..|es| - 1], submission) <= History(es, submission)
  {
  }

  /** What was lost is gone for good: a client has the whole log up to its cursor, or lacks a line of it. */
  lemma CountedOnce(c: Client, h: seq<Line>)
    requires Faithful(c, h)
    ensures |c.got| <= c.cursor
    ensures |c.got| == c.cursor ==> c.got == h[..c.cursor]
  {
    AtLeast(c, h, |c.got|);
    assert c.cursor <= |h|;
    hide Faithful;
    if |c.got| == c.cursor {
      forall i | 0 <= i < |c.got| ensures c.got[i] == h[i] {
        InPlace(c, h, i);
      }
    }
  }

  lemma InPlace(c: Client, h: seq<Line>, i: nat)
    requires Faithful(c, h) && |c.got| == c.cursor && i < |c.got|
    ensures c.got[i] == h[i]
  {
    AtLeast(c, h, i);
    AtMost(c, h, i);
    assert c.got[i].number == i + 1;
  }

  lemma {:induction false} AtLeast(c: Client, h: seq<Line>, i: nat)
    requires Faithful(c, h) && i <= |c.got|
    ensures i < |c.got| ==> c.got[i].number >= i + 1
    ensures i == |c.got| ==> c.cursor >= i
    decreases i
  {
    if i > 0 {
      AtLeast(c, h, i - 1);
    }
  }

  lemma {:induction false} AtMost(c: Client, h: seq<Line>, i: nat)
    requires Faithful(c, h) && i < |c.got|
    ensures c.got[i].number <= c.cursor - (|c.got| - 1 - i)
    decreases |c.got| - i
  {
    if i + 1 < |c.got| {
      AtMost(c, h, i + 1);
    }
  }

  /** Over every interleaving: no line twice, none out of order, none altered. */
  lemma {:induction false} NoDuplicates(limit: nat, es: seq<Event>, submission: string)
    ensures Faithful(Following(limit, es, submission), History(es, submission))
    decreases |es|
  {
    if es != [] {
      var init := es[..|es| - 1];
      NoDuplicates(limit, init, submission);
      HistoryGrows(es, submission);
      if es[|es| - 1].Poll? {
        var c, h := Following(limit, init, submission), History(es, submission);
        HistoryNumbered(es, submission);
        PollIsSuffix(h, limit, c.cursor);
        PollFaithful(c, h, After(Newest(h, limit), c.cursor));
      }
    }
  }

  lemma PollCounts(limit: nat, c: Client, h: seq<Line>)
    requires Faithful(c, h) && Numbered(h)
    ensures var got := c.got + After(Newest(h, limit), c.cursor);
      (|got| == |h|) <==> |c.got| == c.cursor && |h| - c.cursor <= limit
  {
    PollIsSuffix(h, limit, c.cursor);
    CountedOnce(c, h);
  }

  /** The polls concatenate to the whole log, up to the last poll, exactly when each came in time. */
  lemma {:induction false} NoGapsIff(limit: nat, es: seq<Event>, submission: string)
    ensures var c := Following(limit, es, submission);
      && 0 <= c.cursor <= |History(es, submission)|
      && (c.got == History(es, submission)[..c.cursor] <==> PollsInTime(limit, es, submission))
    decreases |es|
  {
    NoDuplicates(limit, es, submission);
    CountedOnce(Following(limit, es, submission), History(es, submission));
    if es != [] {
      var init := es[..|es| - 1];
      NoGapsIff(limit, init, submission);
      NoDuplicates(limit, init, submission);
      CountedOnce(Following(limit, init, submission), History(init, submission));
      HistoryGrows(es, submission);
      if es[|es| - 1].Poll? {
        HistoryNumbered(es, submission);
        PollCounts(limit, Following(limit, init, submission), History(es, submission));
      }
    }
  }

  /** A ring of one line, two lines between polls: the client gets the second only. */
  lemma LatePollMissesALine(submission: string, x: string, y: string)
    requires submission != "" && x != "" && y != ""
    ensures var es := [Event.Append(submission, "stdout", x, 0), Event.Append(submission, "stdout", y, 0), Poll];
      && Following(1, es, submission).got == [Line(2, "stdout", y, 0)]
      && |History(es, submission)| == 2 && !PollsInTime(1, es, submission)
  {
    var a, b := Event.Append(submission, "stdout", x, 0), Event.Append(submission, "stdout", y, 0);
    var one, two := Line(1, "stdout", x, 0), Line(2, "stdout", y, 0);
    assert [a][..0] == [] && [a, b][..1] == [a] && [a, b, Poll][..2] == [a, b];
    assert History([a], submission) == [one];
    assert History([a, b], submission) == [one, two];
    assert History([a, b, Poll], submission) == [one, two];
    assert Following(1, [a, b], submission) == Client(0, []) by {
      assert Following(1, [a], submission) == Client(0, []);
    }
    HistoryNumbered([a, b, Poll], submission);
    PollIsSuffix([one, two], 1, 0);
    assert [one, two][1..] == [two];
  }

  // ---------- the buffer ----------

  /** A submission keeps its newest lines and the number of the last. */
  ghost predicate Retains(limit: nat, h: seq<Line>, ls: seq<Line>, n: int) {
    Numbered(h) && ls == Newest(h, limit) && n == |h|
  }

  function Trimmed(limit: nat, ls: seq<Line>): seq<Line> {
    if |ls| > limit then ls[|ls| - limit..] else ls
  }

  lemma NumberedSnoc(h: seq<Line>, l: Line)
    requires Numbered(h) && l.number == |h| + 1
    ensures Numbered(h + [l])
  {
  }

  lemma NewestSnoc(h: seq<Line>, l: Line, limit: nat)
    requires limit > 0
    ensures Newest(h + [l], limit) == Trimmed(limit, Newest(h, limit) + [l])
  {
  }

  lemma RetainsNext(limit: nat, h: seq<Line>, ls: seq<Line>, n: int, l: Line)
    requires limit > 0 && Retains(limit, h, ls, n) && l.number == n + 1
    ensures Retains(limit, h + [l], Trimmed(limit, ls + [l]), n + 1)
    ensures n == |h|
  {
    hide Numbered, Newest, Trimmed;
    NumberedSnoc(h, l);
    NewestSnoc(h, l, limit);
  }

  lemma RetainsNone(limit: nat)
    ensures Retains(limit, [], [], 0)
  {
  }

  /** An absent submission has no lines and the number zero. */
  function Of(m: map<string, seq<Line>>, s: string): seq<Line> { if s in m then m[s] else [] }

  function NumberOf(m: map<string, int>, s: string): int { if s in m then m[s] else 0 }

  class Buffer {
    const limit: nat
    var lines: map<string, seq<Line>>
    var numbers: map<string, int>
    /** Every line each submission was given. */
    ghost var given: map<string, seq<Line>>

    constructor (maxLines: int)
      ensures Valid() && given == map[]
      ensures limit == if maxLines <= 0 then 2000 else maxLines
    {
      limit := if maxLines <= 0 then 2000 else maxLines;
      RetainsNone(if maxLines <= 0 then 2000 else maxLines);
      lines, numbers, given := map[], map[], map[];
    }

    ghost predicate Valid()
      reads this
    {
      limit > 0 && forall s :: Retains(limit, Of(given, s), Of(lines, s), NumberOf(numbers, s))
    }

    method Append(submission: string, stream: string, text: string, now: int)
      requires Valid()
      modifies this
      ensures Valid()
      ensures var e := Event.Append(submission, stream, text, now);
        given == if Kept(e) then old(given)[submission := Extended(Of(old(given), submission), e)] else old(given)
      ensures var h := Of(old(given), submission);
        Of(given, submission)
        == if submission != "" && text != "" then h + [Line(|h| + 1, stream, text, now)] else h
    {
      hide Retains, Trimmed;
      ghost var e := Event.Append(submission, stream, text, now);
      if submission == "" || text == "" {
        assert !Kept(e);
        return;
      }
      assert Kept(e);
      hide Kept;
      var last, kept := NumberOf(numbers, submission), Of(lines, submission);
      var line := Line(last + 1, stream, text, now);
      RetainsNext(limit, Of(given, submission), kept, last, line);
      numbers := numbers[submission := last + 1];
      lines := lines[submission := Trimmed(limit, kept + [line])];
      given := given[submission := Of(given, submission) + [line]];
      forall s ensures Retains(limit, Of(given, s), Of(lines, s), NumberOf(numbers, s)) {
        assert Retains(limit, Of(old(given), s), Of(old(lines), s), NumberOf(old(numbers), s));
      }
    }

    method Since(submission: string, since: int) returns (out: seq<Line>, latest: int)
      requires Valid()
      ensures latest == |Of(given, submission)|
      ensures out == Of(given, submission)[Lost(latest, limit, since)..]
      ensures forall l :: l in out <==>
        l in Of(given, submission) && l.number > since && l.number > latest - limit
    {
      var all := Of(lines, submission);
      out := [];
      for i := 0 to |all|
        invariant out == After(all[..i], since)
      {
        assert all[..i + 1][..i] == all[..i];
        if all[i].number > since {
          out := out + [all[i]];
        }
      }
      assert all[..|all|] == all;
      latest := NumberOf(numbers, submission);
      PollIsSuffix(Of(given, submission), limit, since);
      PollGets(Of(given, submission), limit, since);
    }
  }

  /** A client following one submission while lines arrive for any. */
  method Follow(maxLines: int, es: seq<Event>, submission: string) returns (got: seq<Line>)
    ensures got == Following(if maxLines <= 0 then 2000 else maxLines, es, submission).got
  {
    hide History, Following, Lost, Extended;
    EmptyLog(submission);
    var b := new Buffer(maxLines);
    var cursor := 0;
    got := [];
    for i := 0 to |es|
      invariant b.Valid() && fresh(b) && b.limit == if maxLines <= 0 then 2000 else maxLines
      invariant Of(b.given, submission) == History(es[..i], submission)
      invariant Client(cursor, got) == Following(b.limit, es[..i], submission)
    {
      NextEvent(b.limit, es[..i], es[i], submission);
      assert es[..i + 1] == es[..i] + [es[i]];
      match es[i]
      case Append(s, stream, text, at) =>
        b.Append(s, stream, text, at);
      case Poll =>
        var more, latest := b.Since(submission, cursor);
        cursor, got := latest, got + more;
    }
    assert es[..|es|] == es;
  }

  lemma EmptyLog(submission: string)
    ensures History([], submission) == [] && forall limit :: Following(limit, [], submission) == Client(0, [])
  {
  }

  lemma NextEvent(limit: nat, es: seq<Event>, e: Event, submission: string)
    ensures var h, h' := History(es, submission), History(es + [e], submission);
      h' == if Kept(e) && e.submission == submission then Extended(h, e) else h
    ensures var h, c := History(es, submission), Following(limit, es, submission);
      Following(limit, es + [e], submission)
      == if e.Poll? then Client(|h|, c.got + h[Lost(|h|, limit, c.cursor)..]) else c
  {
    assert (es + [e])[..|es|] == es;
    HistoryNumbered(es, submission);
    PollIsSuffix(History(es, submission), limit, Following(limit, es, submission).cursor);
    hide Newest, After, Lost, Numbered;
  }
}
