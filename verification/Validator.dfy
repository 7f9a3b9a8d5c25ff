/** The validator service: one slice book and one set of counters per run, updated in place by each
    event, proved against `Scoring.Process`. */
module Validator {
  import opened Market
  import opened Telemetry
  import opened Scoring
  import ReplayBook
  import Slices

  class Tally {
    var contestant: string
    var submission: string
    var total: int
    var mismatches: int
    var lastTs: int
    /** The run this tally counts. */
    ghost const run: string

    constructor (contestant: string, submission: string, ghost run: string)
      ensures View() == Counters(contestant, submission, 0, 0, 0) && this.run == run
    {
      this.run := run;
      this.contestant, this.submission := contestant, submission;
      total, mismatches, lastTs := 0, 0, 0;
    }

    function View(): Counters
      reads this
    {
      Counters(contestant, submission, total, mismatches, lastTs)
    }
  }

  datatype Report = Report(contestant: string, submission: string, totalChecked: int, mismatches: int,
                           correctness: real)

  function MakeReport(c: Counters): Report {
    Report(c.contestant, c.submission, c.total, c.mismatches, Correctness(c))
  }

  /** The report says what was counted, and as its correctness the share reported right. */
  ghost predicate Accounts(r: Report, c: Counters) {
    && r.contestant == c.contestant && r.submission == c.submission
    && r.totalChecked == c.total && r.mismatches == c.mismatches
    && (c.total > 0 ==> r.correctness * c.total as real == (c.total - c.mismatches) as real)
    && (c.total <= 0 ==> r.correctness == 1.0)
  }

  lemma ReportAccounts(c: Counters)
    ensures Accounts(MakeReport(c), c)
  {
    CorrectnessIsShare(c);
  }

  class Validator {
    var books: map<string, ReplayBook.Book>
    var counters: map<string, Tally>
    /** Every run as a value. */
    ghost var table: Table
    ghost var Repr: set<object>

    /** Run `k` has a book and a tally of its own, showing its table entry. */
    ghost predicate Lane(k: string)
      reads this, Repr
    {
      && k in books && books[k] in Repr && books[k].run == k
      && k in counters && counters[k] in Repr && counters[k].run == k
      && k in table && Shows(books[k], counters[k], table[k])
    }

    ghost predicate Valid()
      reads this, Repr
    {
      && books.Keys == counters.Keys == table.Keys && this !in Repr
      && forall k :: k in books ==> Lane(k)
    }

    constructor ()
      ensures Valid() && table == map[] && Repr == {}
    {
      books, counters, table, Repr := map[], map[], map[], {};
    }

    /** Give a run a book and a tally of its own. */
    method Enter(key: string, book: ReplayBook.Book, tally: Tally)
      requires Valid() && key !in books && book.Valid() && book.run == key && tally.run == key
      modifies this
      ensures Valid() && key in books && Repr == old(Repr) + {book, tally}
      ensures table == old(table)[key := Run(old(book.View()), old(tally.View()))]
    {
      hide ReplayBook.Book.Valid, ReplayBook.Book.View, Tally.View, Shows;
      ghost var r := Run(book.View(), tally.View());
      ShowsItself(book, tally);
      Put(key, book, tally, r);
      hide Lane;
      forall k | k in books
        ensures Lane(k)
      {
        if k != key {
          LaneKept(k);
        }
      }
    }

    /** The maps take in a run. */
    method Put(key: string, book: ReplayBook.Book, tally: Tally, ghost r: Run)
      requires key !in books && book.run == key && tally.run == key && Shows(book, tally, r)
      modifies this
      ensures Lane(key) && Repr == old(Repr) + {book, tally} && table == old(table)[key := r]
      ensures books == old(books)[key := book] && counters == old(counters)[key := tally]
    {
      hide Shows;
      table, Repr := table[key := r], Repr + {book, tally};
      books, counters := books[key := book], counters[key := tally];
    }

    /** A run whose objects and table entry stay is still in order. */
    twostate lemma LaneKept(k: string)
      requires old(Lane(k)) && old(Repr) <= Repr && k in books && k in counters && k in table
      requires books[k] == old(books[k]) && counters[k] == old(counters[k]) && table[k] == old(table[k])
      requires unchanged(books[k]) && unchanged(counters[k])
      ensures Lane(k)
    {
      hide Shows;
    }

    method Process(e: Event)
      requires Valid()
      modifies this, Repr
      ensures Valid() && table == Scoring.Process(old(table), e) && fresh(Repr - old(Repr))
    {
      hide Score, Lane;
      if !Accepted(e) {
        return;
      }
      var key := RunKey(e);
      Open(key, e);
      Advance(key, e);
      ProcessedInTwo(old(table), e);
    }

    /** Give the event's run a fresh book and tally if it has none. */
    method Open(key: string, e: Event)
      requires Valid() && e.Event? && key == RunKey(e)
      modifies this
      ensures Valid() && key in books && key in table && fresh(Repr - old(Repr))
      ensures table == old(table)[key := Entry(old(table), e)]
    {
      hide Lane;
      if key !in books {
        var book := new ReplayBook.Book(key);
        var tally := new Tally(e.contestant, e.submission, key);
        Enter(key, book, tally);
      } else {
        assert table == table[key := table[key]];
      }
    }

    /** The newest of a contestant's runs, by its last event. */
    method LatestForContestant(contestant: string) returns (found: bool, best: string)
      requires Valid()
      ensures found <==> exists k :: k in table && table[k].counters.contestant == contestant
      ensures found ==> best in table && table[best].counters.contestant == contestant
      ensures found ==> forall k :: k in table && table[k].counters.contestant == contestant ==>
                          table[k].counters.lastTs <= table[best].counters.lastTs
    {
      hide Lane;
      found, best := false, "";
      var todo := counters.Keys;
      while todo != {}
        invariant Valid() && todo <= counters.Keys
        invariant found ==> best in table && table[best].counters.contestant == contestant
        invariant forall k :: k in table && k !in todo && table[k].counters.contestant == contestant ==>
                    found && table[k].counters.lastTs <= table[best].counters.lastTs
        decreases |todo|
      {
        var k :| k in todo;
        Shown(k);
        Shown(if found then best else k);
        if counters[k].contestant == contestant && (!found || counters[k].lastTs > counters[best].lastTs) {
          found, best := true, k;
        }
        todo := todo - {k};
      }
    }

    /** A tally shows its table entry. */
    lemma Shown(k: string)
      requires Valid() && k in counters
      ensures k in table && counters[k].View() == table[k].counters
    {
      assert Lane(k);
    }

    /** The report for a run key, or failing that for the contestant's newest run. */
    method GetReport(key: string) returns (r: Report, ok: bool)
      requires Valid()
      ensures key in table ==> ok && r == MakeReport(table[key].counters) && Accounts(r, table[key].counters)
      ensures ok <==> key in table || exists k :: k in table && table[k].counters.contestant == key
      ensures ok && key !in table ==>
        exists k :: && k in table && table[k].counters.contestant == key && Accounts(r, table[k].counters)
                    && r == MakeReport(table[k].counters)
                    && forall j :: j in table && table[j].counters.contestant == key ==>
                         table[j].counters.lastTs <= table[k].counters.lastTs
    {
      hide Lane, MakeReport, Accounts;
      var k := key;
      ok := true;
      if key !in counters {
        ok, k := LatestForContestant(key);
        if !ok {
          return Report("", "", 0, 0, 0.0), false;
        }
      }
      Shown(k);
      r := MakeReport(counters[k].View());
      ReportAccounts(table[k].counters);
    }

    method Advance(key: string, e: Event)
      requires Valid() && key in books && e.Event?
      modifies this`table, Repr
      ensures Valid() && table == old(table)[key := Score(old(table)[key], e)]
    {
      hide Score, ReplayBook.Book.Valid, ReplayBook.Book.View, Tally.View, Shows;
      assert Lane(key);
      assert books[key].Valid() && table[key] == Run(books[key].View(), counters[key].View()) by {
        ShowsMeans(books[key], counters[key], table[key]);
      }
      Compare(books[key], counters[key], e);
      ShowsItself(books[key], counters[key]);
      table := table[key := Score(table[key], e)];
      forall k | k in books
        ensures Lane(k)
      {
        assert old(Lane(k));
      }
    }
  }

  /** A book and a tally that show the run. */
  ghost predicate Shows(book: ReplayBook.Book, tally: Tally, r: Run)
    reads book, tally
  {
    book.Valid() && r == Run(book.View(), tally.View())
  }

  lemma ShowsItself(book: ReplayBook.Book, tally: Tally)
    requires book.Valid()
    ensures Shows(book, tally, Run(book.View(), tally.View()))
  {
  }

  lemma ShowsMeans(book: ReplayBook.Book, tally: Tally, r: Run)
    requires Shows(book, tally, r)
    ensures book.Valid() && r == Run(book.View(), tally.View())
  {
  }

  /** A run before the event, a new one if it has none. */
  ghost function Entry(t: Table, e: Event): Run
    requires e.Event?
  {
    if RunKey(e) in t then t[RunKey(e)] else Opened(e)
  }

  lemma ProcessedInTwo(t: Table, e: Event)
    requires Accepted(e)
    ensures Scoring.Process(t, e) == t[RunKey(e) := Entry(t, e)][RunKey(e) := Score(Entry(t, e), e)]
  {
    hide Score;
    var k := RunKey(e);
    assert t[k := Entry(t, e)][k := Score(Entry(t, e), e)] == t[k := Score(Entry(t, e), e)];
  }

  /** Replay one event and compare its report. */
  method Compare(book: ReplayBook.Book, c: Tally, e: Event)
    requires book.Valid() && e.Event?
    modifies book, c
    ensures book.Valid()
    ensures Run(book.View(), c.View()) == Score(Run(old(book.View()), old(c.View())), e)
  {
    if e.sentTs > c.lastTs {
      c.lastTs := e.sentTs;
    }
    var expected := 0;
    match e.kind {
      case TypeUnspecified =>
      case TypeLimit =>
        expected := book.Place(ReplaySide(e), Rest(e.orderId, e.price, e.sentTs, e.quantity));
      case TypeMarket =>
        expected := book.PlaceMarket(ReplaySide(e), e.orderId, e.quantity);
      case TypeCancel =>
        var found := book.Cancel(e.orderId);
    }
    if (e.kind == TypeLimit || e.kind == TypeMarket) && e.result != ResultUnspecified {
      c.total := c.total + 1;
      if expected != e.filled {
        c.mismatches := c.mismatches + 1;
      }
    }
  }

  /** A whole stream through a fresh validator. */
  method Replay(es: seq<Event>) returns (v: Validator)
    ensures v.Valid() && v.table == ProcessAll(map[], es)
  {
    hide Validator.Lane, Scoring.Process;
    v := new Validator();
    for i := 0 to |es|
      invariant v.Valid() && fresh(v) && fresh(v.Repr)
      invariant ProcessAll(map[], es) == ProcessAll(v.table, es[i..])
    {
      v.Process(es[i]);
      assert es[i..][1..] == es[i + 1..];
    }
    assert es[|es|..] == [];
  }
}
