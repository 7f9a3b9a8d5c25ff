/** The telemetry ingester as an interleaving of atomic steps: stream handlers pushing into a bounded
    channel, the drain loop batching and publishing, and main's shutdown sequence. */
module Ingester {
  import opened Telemetry

  /** Where main is: serving, signalled (ctx done), servers stopped, buffer marked closed, channel
      closed, exited. */
  datatype Phase = Serving | Signalled | Stopped | Marked | Closed | Exited

  /** Where the drain loop is: selecting, draining after ctx is done, or returned. */
  datatype Mode = Selecting | Draining | Returned

  datatype State = State(
    phase: Phase,
    mode: Mode,
    /** Handlers that have passed Push's closed check and are about to send. */
    pushing: map<nat, Event>,
    queue: seq<Event>,
    pending: seq<Event>,
    published: seq<seq<Event>>,
    /** Events for which Push returned true, in the order the channel took them. */
    accepted: seq<Event>,
    dropped: nat,
    /** Some handler has sent on the closed channel. */
    panicked: bool)

  datatype Config = Config(capacity: nat, batchSize: nat)

  /** New: a capacity that is not positive becomes 1024. */
  function Configure(capacity: int, batchSize: nat): Config {
    Config(if capacity <= 0 then 1024 else capacity, batchSize)
  }

  const START := State(Serving, Selecting, map[], [], [], [], [], 0, false)

  predicate FlagClosed(s: State) { s.phase.Marked? || s.phase.Closed? || s.phase.Exited? }

  predicate ChannelClosed(s: State) { s.phase.Closed? || s.phase.Exited? }

  /** Handlers live until GracefulStop has returned. */
  predicate HandlersRun(s: State) { s.phase.Serving? || s.phase.Signalled? }

  // ---------- Push ----------

  /** The load of the closed flag: a handler that sees it set gives up at once. */
  ghost predicate BeginPush(s: State, s': State, h: nat, e: Event) {
    && HandlersRun(s) && h !in s.pushing
    && s' == if FlagClosed(s) then s else s.(pushing := s.pushing[h := e])
  }

  /** The non-blocking send: panic on a closed channel, drop on a full one, otherwise enqueue. */
  ghost predicate Send(c: Config, s: State, s': State, h: nat) {
    && h in s.pushing
    && var t := s.(pushing := s.pushing - {h});
       s' == if ChannelClosed(s) then t.(panicked := true)
             else if |s.queue| >= c.capacity then t.(dropped := s.dropped + 1)
             else t.(queue := s.queue + [s.pushing[h]], accepted := s.accepted + [s.pushing[h]])
  }

  // ---------- drain loop ----------

  function Publish(s: State): State {
    if s.pending == [] then s else s.(published := s.published + [s.pending], pending := [])
  }

  /** Take one event off the channel, publishing when the batch is full. */
  ghost predicate Receive(c: Config, s: State, s': State) {
    && !s.mode.Returned? && s.queue != []
    && var t := s.(queue := s.queue[1..], pending := s.pending + [s.queue[0]]);
       s' == if |t.pending| >= c.batchSize then Publish(t) else t
  }

  ghost predicate Tick(s: State, s': State) { s.mode.Selecting? && s' == Publish(s) }

  ghost predicate SeeDone(s: State, s': State) {
    s.mode.Selecting? && !s.phase.Serving? && s' == s.(mode := Draining)
  }

  /** The channel is closed and empty: publish what is pending and return. */
  ghost predicate Finish(s: State, s': State) {
    !s.mode.Returned? && ChannelClosed(s) && s.queue == [] && s' == Publish(s).(mode := Returned)
  }

  // ---------- main ----------

  ghost predicate Signal(s: State, s': State) { s.phase.Serving? && s' == s.(phase := Signalled) }

  /** GracefulStop returns once no handler is left. */
  ghost predicate Stop(s: State, s': State) {
    s.phase.Signalled? && s.pushing == map[] && s' == s.(phase := Stopped)
  }

  /** Close sets the flag, then closes the channel. */
  ghost predicate Mark(s: State, s': State) { s.phase.Stopped? && s' == s.(phase := Marked) }

  ghost predicate Shut(s: State, s': State) { s.phase.Marked? && s' == s.(phase := Closed) }

  ghost predicate Exit(s: State, s': State) {
    s.phase.Closed? && s.mode.Returned? && s' == s.(phase := Exited)
  }

  // ---------- runs ----------

  ghost predicate Next(c: Config, s: State, s': State) {
    || (exists h, e :: BeginPush(s, s', h, e))
    || (exists h :: Send(c, s, s', h))
    || Receive(c, s, s') || Tick(s, s') || SeeDone(s, s') || Finish(s, s')
    || Signal(s, s') || Stop(s, s') || Mark(s, s') || Shut(s, s') || Exit(s, s')
  }

  ghost predicate IsRun(c: Config, run: seq<State>) {
    && run != [] && run[0] == START
    && forall i :: 0 <= i < |run| - 1 ==> Next(c, run[i], run[i + 1])
  }

  function Flat(batches: seq<seq<Event>>): seq<Event> {
    if batches == [] then [] else Flat(batches[..|batches| - 1]) + batches[|batches| - 1]
  }

  ghost predicate Inv(c: Config, s: State) {
    && !s.panicked
    && Flat(s.published) + s.pending + s.queue == s.accepted
    && (!HandlersRun(s) ==> s.pushing == map[])
    && (forall i :: 0 <= i < |s.published| ==> 0 < |s.published[i]| <= Cap(c))
    && |s.pending| < Cap(c)
    && |s.queue| <= c.capacity
    && (s.mode.Returned? ==> ChannelClosed(s) && s.pending == [] && s.queue == [])
    && (s.phase.Exited? ==> s.mode.Returned?)
  }

  /** A batch size of zero publishes every event by itself. */
  function Cap(c: Config): nat { if c.batchSize == 0 then 1 else c.batchSize }

  lemma PublishKeeps(c: Config, s: State)
    requires |s.pending| <= Cap(c)
    requires forall i :: 0 <= i < |s.published| ==> 0 < |s.published[i]| <= Cap(c)
    ensures var t := Publish(s);
      && Flat(t.published) + t.pending == Flat(s.published) + s.pending && t.pending == []
      && (forall i :: 0 <= i < |t.published| ==> 0 < |t.published[i]| <= Cap(c))
      && t == s.(published := t.published, pending := t.pending)
  {
    if s.pending != [] {
      var t := Publish(s);
      assert t.published[..|t.published| - 1] == s.published;
      assert Flat(t.published) == Flat(s.published) + s.pending;
    }
  }

  lemma SendKeeps(c: Config, s: State, s': State, h: nat)
    requires Inv(c, s) && Send(c, s, s', h)
    ensures Inv(c, s')
  {
    var all := Flat(s.published) + s.pending;
    assert s.accepted + [s.pushing[h]] == all + (s.queue + [s.pushing[h]]);
  }

  lemma ReceiveKeeps(c: Config, s: State, s': State)
    requires Inv(c, s) && Receive(c, s, s')
    ensures Inv(c, s')
  {
    var t := s.(queue := s.queue[1..], pending := s.pending + [s.queue[0]]);
    assert s.queue == [s.queue[0]] + s.queue[1..];
    assert Flat(t.published) + t.pending + t.queue == Flat(s.published) + s.pending + s.queue;
    PublishKeeps(c, t);
  }

  lemma NextKeeps(c: Config, s: State, s': State)
    requires Inv(c, s) && Next(c, s, s')
    ensures Inv(c, s')
  {
    if h :| Send(c, s, s', h) {
      SendKeeps(c, s, s', h);
    } else if Receive(c, s, s') {
      ReceiveKeeps(c, s, s');
    } else if Tick(s, s') || Finish(s, s') {
      PublishKeeps(c, s);
    }
  }

  /** In every interleaving no push hits a closed channel, and published batches, pending events and
      queue together are exactly the accepted events, in order. */
  lemma {:induction false} EveryStateKeepsOrder(c: Config, run: seq<State>, n: nat)
    requires IsRun(c, run) && n < |run|
    ensures Inv(c, run[n])
    decreases n
  {
    if n > 0 {
      EveryStateKeepsOrder(c, run, n - 1);
      assert Next(c, run[n - 1], run[n - 1 + 1]);
      NextKeeps(c, run[n - 1], run[n]);
    }
  }

  /** At exit every accepted event has been handed to Publish exactly once, in order, in batches of at
      least one event and at most the batch size. */
  lemma ExitedMeansPublished(c: Config, run: seq<State>)
    requires IsRun(c, run) && run[|run| - 1].phase.Exited?
    ensures var s := run[|run| - 1];
      && Flat(s.published) == s.accepted && !s.panicked
      && forall i :: 0 <= i < |s.published| ==> 0 < |s.published[i]| <= Cap(c)
  {
    EveryStateKeepsOrder(c, run, |run| - 1);
    var s := run[|run| - 1];
    assert Flat(s.published) + [] + [] == Flat(s.published);
  }

  /** Taking an event publishes a batch exactly when that event makes it as large as a batch is to be, and then the
      batch is all that was pending and the event; a batch size of zero counts as one. */
  lemma FullBatchesOnReceipt(c: Config, s: State, s': State)
    requires Inv(c, s) && Receive(c, s, s')
    ensures var size, batch := if c.batchSize == 0 then 1 else c.batchSize, s.pending + [s.queue[0]];
      if |batch| == size then s'.published == s.published + [batch] && s'.pending == []
      else s'.published == s.published && s'.pending == batch
  {
  }

  /** A batch smaller than that is what was pending when the ticker fired or the loop returned. */
  lemma SmallBatchesAreFlushes(c: Config, s: State, s': State)
    requires Inv(c, s) && Next(c, s, s') && s'.published != s.published
    ensures s'.pending == [] && |s'.published| == |s.published| + 1 && s'.published[..|s.published|] == s.published
    ensures var size, batch := if c.batchSize == 0 then 1 else c.batchSize, s'.published[|s.published|];
      && 0 < |batch| <= size
      && (|batch| < size ==> batch == s.pending && (Tick(s, s') || (Finish(s, s') && s'.mode.Returned?)))
  {
    if Receive(c, s, s') {
      FullBatchesOnReceipt(c, s, s');
    }
  }

  /** No tick leaves anything pending. */
  lemma TickFlushes(s: State, s': State)
    requires Tick(s, s')
    ensures s'.pending == [] && s'.published == if s.pending == [] then s.published else s.published + [s.pending]
  {
  }

  // ---------- why shutdown waits for the handlers ----------

  /** GracefulStop that returns with handlers still running. */
  ghost predicate HastyStop(s: State, s': State) { s.phase.Signalled? && s' == s.(phase := Stopped) }

  ghost predicate HastyNext(c: Config, s: State, s': State) { Next(c, s, s') || HastyStop(s, s') }

  /** If shutdown did not wait, a run would reach a panic: a handler passes the closed check, the channel is
      closed, and the handler sends. */
  lemma HastyShutdownPanics(c: Config, e: Event) returns (run: seq<State>)
    ensures run != [] && run[0] == START && run[|run| - 1].panicked
    ensures forall i :: 0 <= i < |run| - 1 ==> HastyNext(c, run[i], run[i + 1])
  {
    var pushing := START.(pushing := map[0 := e]);
    run := [START, pushing, pushing.(phase := Signalled), pushing.(phase := Stopped), pushing.(phase := Marked),
            pushing.(phase := Closed), START.(phase := Closed, panicked := true)];
    assert BeginPush(run[0], run[1], 0, e);
    assert Signal(run[1], run[2]) && HastyStop(run[2], run[3]) && Mark(run[3], run[4]) && Shut(run[4], run[5]);
    assert run[5].pushing - {0} == map[];
    assert Send(c, run[5], run[6], 0);
    forall i | 0 <= i < |run| - 1 ensures HastyNext(c, run[i], run[i + 1]) {
      assert i == 0 || i == 1 || i == 2 || i == 3 || i == 4 || i == 5;
    }
  }

  // ---------- shutdown can always complete ----------

  ghost predicate IsPath(c: Config, path: seq<State>) {
    path != [] && forall i :: 0 <= i < |path| - 1 ==> Next(c, path[i], path[i + 1])
  }

  function Left(p: Phase): nat {
    match p
    case Serving => 5 case Signalled => 4 case Stopped => 3 case Marked => 2 case Closed => 1 case Exited => 0
  }

  /** What shutdown does next when nobody pushes any more. */
  function Forward(c: Config, s: State): State {
    if s.pushing != map[] then s
    else if s.queue != [] then
      var t := s.(queue := s.queue[1..], pending := s.pending + [s.queue[0]]);
      if |t.pending| >= c.batchSize then Publish(t) else t
    else
      match s.phase
      case Serving => s.(phase := Signalled)
      case Signalled => s.(phase := Stopped)
      case Stopped => s.(phase := Marked)
      case Marked => s.(phase := Closed)
      case Closed => if s.mode.Returned? then s.(phase := Exited) else Publish(s).(mode := Returned)
      case Exited => s
  }

  lemma ForwardIsAStep(c: Config, s: State)
    requires Inv(c, s) && s.pushing == map[] && !s.phase.Exited?
    ensures Next(c, s, Forward(c, s))
    ensures var t := Forward(c, s);
      && t.pushing == map[]
      && (if s.queue != [] then |t.queue| < |s.queue| && Left(t.phase) == Left(s.phase)
          else && t.queue == []
               && (|| Left(t.phase) < Left(s.phase)
                   || (t.phase == s.phase && t.mode.Returned? && !s.mode.Returned?)))
  {
    assert s.queue != [] ==> !s.mode.Returned?;
    hide Inv;
    if s.queue != [] {
      assert Receive(c, s, Forward(c, s));
    }
  }

  /** From every reachable state some continuation exits, losing nothing it had accepted: neither the
      channel nor a handler can hold shutdown up for ever. */
  lemma {:induction false} ShutdownCanComplete(c: Config, s: State) returns (path: seq<State>)
    requires Inv(c, s)
    ensures IsPath(c, path) && path[0] == s && path[|path| - 1].phase.Exited?
    decreases |s.pushing|, |s.queue|, Left(s.phase), if s.mode.Returned? then 0 else 1
  {
    if s.phase.Exited? {
      return [s];
    }
    var t;
    if s.pushing != map[] {
      var h :| h in s.pushing;
      t := SendNext(c, s, h);
    } else {
      ForwardIsAStep(c, s);
      t := Forward(c, s);
    }
    NextKeeps(c, s, t);
    hide Inv, Next;
    var rest := ShutdownCanComplete(c, t);
    path := [s] + rest;
  }

  lemma SendNext(c: Config, s: State, h: nat) returns (t: State)
    requires Inv(c, s) && h in s.pushing
    ensures Next(c, s, t) && |t.pushing| < |s.pushing|
  {
    var u := s.(pushing := s.pushing - {h});
    t := if ChannelClosed(s) then u.(panicked := true)
         else if |s.queue| >= c.capacity then u.(dropped := s.dropped + 1)
         else u.(queue := s.queue + [s.pushing[h]], accepted := s.accepted + [s.pushing[h]]);
    assert Send(c, s, t, h);
    assert (s.pushing - {h}).Keys == s.pushing.Keys - {h};
    assert |s.pushing.Keys - {h}| == |s.pushing.Keys| - 1;
  }

  // ---------- every run that stops ticking exits ----------

  /** What is left to do once the servers have stopped. */
  function Remaining(s: State): nat {
    |s.queue| + Left(s.phase) + match s.mode { case Selecting => 2 case Draining => 1 case Returned => 0 }
  }

  lemma StepRemains(c: Config, s: State, s': State)
    requires Inv(c, s) && !HandlersRun(s) && Next(c, s, s')
    ensures !HandlersRun(s') && Remaining(s') <= Remaining(s)
    ensures !Tick(s, s') ==> Remaining(s') < Remaining(s)
  {
  }

  /** The steps of a path that are not ticks. */
  ghost function Moves(path: seq<State>): nat {
    if |path| <= 1 then 0
    else Moves(path[..|path| - 1]) + if Tick(path[|path| - 2], path[|path| - 1]) then 0 else 1
  }

  lemma {:induction false} MovesAreBounded(c: Config, path: seq<State>)
    requires IsPath(c, path) && Inv(c, path[0]) && !HandlersRun(path[0])
    ensures var s := path[|path| - 1];
      Inv(c, s) && !HandlersRun(s) && Moves(path) + Remaining(s) <= Remaining(path[0])
    decreases |path|
  {
    hide Next, Inv, Remaining, HandlersRun, Tick;
    var n := |path| - 1;
    if n > 0 {
      PrefixIsPath(c, path);
      MovesAreBounded(c, path[..n]);
      StepRemains(c, path[n - 1], path[n]);
      NextKeeps(c, path[n - 1], path[n]);
    }
  }

  lemma PrefixIsPath(c: Config, path: seq<State>)
    requires IsPath(c, path) && |path| > 1
    ensures IsPath(c, path[..|path| - 1]) && Next(c, path[|path| - 2], path[|path| - 1])
  {
    var n := |path| - 1;
    assert Next(c, path[n - 1], path[n - 1 + 1]);
    forall i | 0 <= i < n - 1 ensures Next(c, path[..n][i], path[..n][i + 1]) {
      assert Next(c, path[i], path[i + 1]);
    }
  }

  /** Once the servers have stopped, every continuation makes at most a fixed number of moves other than
      ticks, and as long as it has not exited another one is possible: so every run that ticks finitely often
      and does not stand still exits. */
  lemma ShutdownCompletes(c: Config, path: seq<State>)
    requires IsPath(c, path) && Inv(c, path[0]) && !HandlersRun(path[0])
    ensures Moves(path) <= Remaining(path[0])
    ensures var s := path[|path| - 1];
      s.phase.Exited? <==> !exists t :: Next(c, s, t) && !Tick(s, t)
  {
    MovesAreBounded(c, path);
    var s := path[|path| - 1];
    if s.phase.Exited? {
      forall t | Next(c, s, t) ensures Tick(s, t) {
        StepRemains(c, s, t);
      }
    } else {
      ForwardIsAStep(c, s);
      var t := Forward(c, s);
      assert !Tick(s, t);
    }
  }

  // ---------- the loop and the buffer as they run ----------

  /** What the select, or the range that drains the channel, finds ready: ctx is done, the ticker, an event,
      or the closed empty channel. */
  datatype Wake = Done | Ticked | Got(e: Event) | Drained

  ghost predicate Ready(s: State, w: Wake) {
    match w
    case Done => s.mode.Selecting? && !s.phase.Serving?
    case Ticked => s.mode.Selecting?
    case Got(e) => !s.mode.Returned? && s.queue != [] && s.queue[0] == e
    case Drained => !s.mode.Returned? && ChannelClosed(s) && s.queue == []
  }

  /** The pending events and the batches after taking an event. */
  function Batched(c: Config, e: Event, pending: seq<Event>, published: seq<seq<Event>>)
    : (seq<Event>, seq<seq<Event>>)
  {
    if |pending| + 1 >= c.batchSize then ([], published + [pending + [e]]) else (pending + [e], published)
  }

  /** The batches after publishing what is pending. */
  function Flushed(pending: seq<Event>, published: seq<seq<Event>>): seq<seq<Event>> {
    if pending == [] then published else published + [pending]
  }

  /** The loop's share of the state after a wake-up. */
  ghost function Woken(c: Config, s: State, w: Wake): State {
    match w
    case Done => s.(mode := Draining)
    case Ticked => Publish(s)
    case Got(e) =>
      var (pending, published) := Batched(c, e, s.pending, s.published);
      s.(queue := if s.queue == [] then [] else s.queue[1..], pending := pending, published := published)
    case Drained => Publish(s).(mode := Returned)
  }

  /** Every wake-up is a step of the system. */
  lemma WokenIsNext(c: Config, s: State, w: Wake)
    requires Ready(s, w)
    ensures Next(c, s, Woken(c, s, w))
  {
    match w
    case Done => assert SeeDone(s, Woken(c, s, w));
    case Ticked => assert Tick(s, Woken(c, s, w));
    case Got(e) => assert Receive(c, s, Woken(c, s, w));
    case Drained => assert Finish(s, Woken(c, s, w));
  }

  /** And nothing but a wake-up changes what the loop owns. */
  lemma OnlyTheLoop(c: Config, s: State, s': State) returns (w: Wake)
    requires Next(c, s, s') && !(s'.pending == s.pending && s'.published == s.published && s'.mode == s.mode)
    ensures Ready(s, w) && s' == Woken(c, s, w)
  {
    if Receive(c, s, s') {
      w := Got(s.queue[0]);
    } else if Tick(s, s') {
      w := Ticked;
    } else if SeeDone(s, s') {
      w := Done;
    } else {
      w := Drained;
    }
  }

  /** The loop wakes up in these states, one after the other; between two wake-ups the rest of the system may
      do what it likes, but leaves what the loop owns alone. */
  ghost predicate Schedule(c: Config, seen: seq<State>, wakes: seq<Wake>) {
    && |seen| == |wakes|
    && (forall i :: 0 <= i < |seen| ==> Ready(seen[i], wakes[i]))
    && (forall i :: 0 <= i < |seen| ==> Owns(c, seen, wakes, i, seen[i].pending, seen[i].published, seen[i].mode))
  }

  /** What the loop owns after i wake-ups. */
  ghost predicate Owns(c: Config, seen: seq<State>, wakes: seq<Wake>, i: nat,
                       pending: seq<Event>, published: seq<seq<Event>>, mode: Mode)
    requires i <= |seen| == |wakes|
  {
    if i == 0 then pending == [] && published == [] && mode == Selecting
    else
      var t := Woken(c, seen[i - 1], wakes[i - 1]);
      pending == t.pending && published == t.published && mode == t.mode
  }

  lemma OneMoreWake(c: Config, seen: seq<State>, wakes: seq<Wake>, s: State, w: Wake)
    requires Schedule(c, seen, wakes) && Ready(s, w)
    requires Owns(c, seen, wakes, |wakes|, s.pending, s.published, s.mode)
    ensures Schedule(c, seen + [s], wakes + [w])
    ensures var t := Woken(c, s, w);
      Owns(c, seen + [s], wakes + [w], |wakes| + 1, t.pending, t.published, t.mode)
  {
    hide Ready, Woken;
    var seen', wakes' := seen + [s], wakes + [w];
    forall i | 0 <= i < |seen'|
      ensures Ready(seen'[i], wakes'[i])
      ensures Owns(c, seen', wakes', i, seen'[i].pending, seen'[i].published, seen'[i].mode)
    {
      if i < |seen| {
        assert Owns(c, seen, wakes, i, seen[i].pending, seen[i].published, seen[i].mode);
      }
    }
  }

  /** The wake-ups of any run of the system, with the states they happen in, are a schedule, and the loop ends
      up owning what the run ends with. */
  lemma {:induction false} EveryRunIsASchedule(c: Config, run: seq<State>) returns (seen: seq<State>, wakes: seq<Wake>)
    requires IsRun(c, run)
    ensures Schedule(c, seen, wakes) && forall s :: s in seen ==> s in run
    ensures var s := run[|run| - 1]; Owns(c, seen, wakes, |wakes|, s.pending, s.published, s.mode)
    decreases |run|
  {
    hide Next, Ready, Woken;
    var n := |run| - 1;
    if n == 0 {
      seen, wakes := [], [];
    } else {
      var init := run[..n];
      assert IsRun(c, init) by {
        forall i | 0 <= i < n - 1 ensures Next(c, init[i], init[i + 1]) {
          assert Next(c, run[i], run[i + 1]);
        }
      }
      seen, wakes := EveryRunIsASchedule(c, init);
      var s, t := run[n - 1], run[n];
      assert init[|init| - 1] == s;
      assert Next(c, run[n - 1], run[n - 1 + 1]);
      if !(t.pending == s.pending && t.published == s.published && t.mode == s.mode) {
        var w := OnlyTheLoop(c, s, t);
        OneMoreWake(c, seen, wakes, s, w);
        seen, wakes := seen + [s], wakes + [w];
      }
    }
  }

  /** The events taken, in order. */
  function Taken(wakes: seq<Wake>): seq<Event> {
    if wakes == [] then []
    else Taken(wakes[..|wakes| - 1]) + if wakes[|wakes| - 1].Got? then [wakes[|wakes| - 1].e] else []
  }

  ghost predicate Sized(c: Config, batches: seq<seq<Event>>) {
    forall b :: b in batches ==> 0 < |b| <= Cap(c)
  }

  /** What has been published and what is pending is what was taken, in batches of the right size. */
  ghost predicate Kept(c: Config, taken: seq<Event>, pending: seq<Event>, published: seq<seq<Event>>) {
    Flat(published) + pending == taken && Sized(c, published) && |pending| < Cap(c)
  }

  lemma FlatSnoc(batches: seq<seq<Event>>, b: seq<Event>)
    ensures Flat(batches + [b]) == Flat(batches) + b
  {
    assert (batches + [b])[..|batches|] == batches;
  }

  /** Publish what is pending, if anything. */
  method PublishPending(c: Config, pending: seq<Event>, published: seq<seq<Event>>, ghost taken: seq<Event>)
    returns (batches: seq<seq<Event>>)
    requires Kept(c, taken, pending, published)
    ensures Kept(c, taken, [], batches)
    ensures batches == Flushed(pending, published)
  {
    batches := published;
    if |pending| == 0 {
      return;
    }
    FlatSnoc(published, pending);
    batches := published + [pending];
  }

  /** Take an event, publishing a full batch. */
  method Take(c: Config, e: Event, pending: seq<Event>, published: seq<seq<Event>>, ghost taken: seq<Event>)
    returns (pending': seq<Event>, published': seq<seq<Event>>)
    requires Kept(c, taken, pending, published)
    ensures (pending', published') == Batched(c, e, pending, published)
    ensures Kept(c, taken + [e], pending', published')
  {
    pending', published' := pending + [e], published;
    assert Flat(published) + (pending + [e]) == taken + [e];
    if |pending'| >= c.batchSize {
      FlatSnoc(published, pending');
      published' := published + [pending'];
      pending' := [];
    }
  }

  lemma TakenSnoc(wakes: seq<Wake>, i: nat)
    requires i < |wakes|
    ensures Taken(wakes[..i + 1]) == if wakes[i].Got? then Taken(wakes[..i]) + [wakes[i].e] else Taken(wakes[..i])
  {
    assert wakes[..i + 1][..i] == wakes[..i];
  }

  /** The next wake-up finds what the loop owns and leaves what the system's step leaves. */
  lemma OwnsNext(c: Config, seen: seq<State>, wakes: seq<Wake>, i: nat,
                 pending: seq<Event>, published: seq<seq<Event>>, mode: Mode)
    requires Schedule(c, seen, wakes) && i < |wakes| && Owns(c, seen, wakes, i, pending, published, mode)
    ensures match wakes[i]
      case Done => mode == Selecting && Owns(c, seen, wakes, i + 1, pending, published, Draining)
      case Ticked => mode == Selecting && Owns(c, seen, wakes, i + 1, [], Flushed(pending, published), Selecting)
      case Got(e) =>
        var (pending', published') := Batched(c, e, pending, published);
        mode != Returned && Owns(c, seen, wakes, i + 1, pending', published', mode)
      case Drained => mode != Returned && Owns(c, seen, wakes, i + 1, [], Flushed(pending, published), Returned)
  {
    assert Ready(seen[i], wakes[i]);
    assert Owns(c, seen, wakes, i, seen[i].pending, seen[i].published, seen[i].mode);
    hide Schedule;
  }

  /** The range over the channel after ctx is done: it takes events until the channel is closed and empty. */
  method DrainRest(c: Config, wakes: seq<Wake>, ghost seen: seq<State>, start: nat,
                   pending: seq<Event>, published: seq<seq<Event>>)
    returns (i: nat, pending': seq<Event>, published': seq<seq<Event>>)
    requires |seen| == |wakes| && Schedule(c, seen, wakes) && start <= |wakes|
    requires Owns(c, seen, wakes, start, pending, published, Draining)
    requires Kept(c, Taken(wakes[..start]), pending, published)
    ensures i == |wakes|
    ensures Owns(c, seen, wakes, i, pending', published',
                 if start < i && wakes[i - 1].Drained? then Returned else Draining)
    ensures Kept(c, Taken(wakes), pending', published')
  {
    hide Kept, Taken, Schedule, Owns, Batched, Flushed;
    i, pending', published' := start, pending, published;
    while i < |wakes|
      invariant start <= i <= |wakes|
      invariant Owns(c, seen, wakes, i, pending', published', Draining)
      invariant Kept(c, Taken(wakes[..i]), pending', published')
      invariant start < i ==> !wakes[i - 1].Drained?
    {
      OwnsNext(c, seen, wakes, i, pending', published', Draining);
      TakenSnoc(wakes, i);
      if wakes[i].Got? {
        pending', published' := Take(c, wakes[i].e, pending', published', Taken(wakes[..i]));
        i := i + 1;
      } else {
        published' := PublishPending(c, pending', published', Taken(wakes[..i]));
        pending' := [];
        i := i + 1;
        NothingAfter(c, seen, wakes, i);
        break;
      }
    }
    assert wakes[..i] == wakes;
  }

  /** A loop that has returned wakes no more. */
  lemma NothingAfter(c: Config, seen: seq<State>, wakes: seq<Wake>, i: nat)
    requires Schedule(c, seen, wakes) && 0 < i <= |wakes| && wakes[i - 1].Drained?
    ensures i == |wakes|
  {
    var t := Woken(c, seen[i - 1], wakes[i - 1]);
    if i < |wakes| {
      OwnsNext(c, seen, wakes, i, t.pending, t.published, Returned);
      assert false;
    }
  }

  /** The drain loop, run on any schedule of the system: it leaves exactly what the system's steps leave, and
      has published every event it took, once and in order, in batches of the right size. */
  method DrainLoop(c: Config, wakes: seq<Wake>, ghost seen: seq<State>)
    returns (pending: seq<Event>, published: seq<seq<Event>>, ghost mode: Mode)
    requires |seen| == |wakes| && Schedule(c, seen, wakes)
    ensures Owns(c, seen, wakes, |wakes|, pending, published, mode)
    ensures Kept(c, Taken(wakes), pending, published)
    ensures mode.Returned? ==> pending == [] && Flat(published) == Taken(wakes)
  {
    hide Taken, Batched, Flushed, Kept, Schedule, Owns;
    pending, published, mode := [], [], Selecting;
    StartKept(c, wakes, seen);
    var i := 0;
    while i < |wakes| && !wakes[i].Done? && !wakes[i].Drained?
      invariant 0 <= i <= |wakes|
      invariant Owns(c, seen, wakes, i, pending, published, Selecting)
      invariant Kept(c, Taken(wakes[..i]), pending, published)
    {
      OwnsNext(c, seen, wakes, i, pending, published, Selecting);
      TakenSnoc(wakes, i);
      if wakes[i].Got? {
        pending, published := Take(c, wakes[i].e, pending, published, Taken(wakes[..i]));
      } else {
        published := PublishPending(c, pending, published, Taken(wakes[..i]));
        pending := [];
      }
      i := i + 1;
    }
    if i == |wakes| {
      assert wakes[..i] == wakes;
      return;
    }
    OwnsNext(c, seen, wakes, i, pending, published, Selecting);
    TakenSnoc(wakes, i);
    i := i + 1;
    if wakes[i - 1].Done? {
      ghost var start := i;
      i, pending, published := DrainRest(c, wakes, seen, i, pending, published);
      mode := if start < i && wakes[i - 1].Drained? then Returned else Draining;
    } else {
      published := PublishPending(c, pending, published, Taken(wakes[..i]));
      pending := [];
      mode := Returned;
      NothingAfter(c, seen, wakes, i);
      assert wakes[..i] == wakes;
    }
    ReturnedKept(c, seen, wakes, pending, published, mode);
  }

  lemma StartKept(c: Config, wakes: seq<Wake>, seen: seq<State>)
    requires Schedule(c, seen, wakes)
    ensures |seen| == |wakes| && Kept(c, Taken(wakes[..0]), [], []) && Owns(c, seen, wakes, 0, [], [], Selecting)
  {
  }

  lemma ReturnedKept(c: Config, seen: seq<State>, wakes: seq<Wake>,
                     pending: seq<Event>, published: seq<seq<Event>>, mode: Mode)
    requires Schedule(c, seen, wakes) && wakes != [] && Owns(c, seen, wakes, |wakes|, pending, published, mode)
    requires Kept(c, Taken(wakes), pending, published)
    ensures mode.Returned? ==> pending == [] && Flat(published) == Taken(wakes)
  {
    if mode.Returned? {
      assert Ready(seen[|wakes| - 1], wakes[|wakes| - 1]);
      assert wakes[|wakes| - 1].Drained?;
      assert Flat(published) + [] == Flat(published);
    }
  }

  /** What the rest of the system sees of the buffer. */
  datatype Channel = Channel(queue: seq<Event>, closed: bool, accepted: seq<Event>, dropped: nat)

  function ChannelOf(s: State): Channel { Channel(s.queue, FlagClosed(s), s.accepted, s.dropped) }

  /** A push that nothing comes between. */
  function Offer(capacity: nat, ch: Channel, e: Event): (Channel, bool) {
    if ch.closed then (ch, false)
    else if |ch.queue| < capacity then (ch.(queue := ch.queue + [e], accepted := ch.accepted + [e]), true)
    else (ch.(dropped := ch.dropped + 1), false)
  }

  /** Such a push is the system's two steps, the check of the flag and the send, of one handler. */
  lemma PushIsTwoSteps(c: Config, s: State, h: nat, e: Event) returns (mid: State, t: State)
    requires HandlersRun(s) && h !in s.pushing
    ensures BeginPush(s, mid, h, e) && Send(c, mid, t, h)
    ensures ChannelOf(t) == Offer(c.capacity, ChannelOf(s), e).0
    ensures t == s.(queue := t.queue, accepted := t.accepted, dropped := t.dropped)
  {
    mid := s.(pushing := s.pushing[h := e]);
    assert mid.pushing - {h} == s.pushing;
    var ch := Offer(c.capacity, ChannelOf(s), e).0;
    t := s.(queue := ch.queue, accepted := ch.accepted, dropped := ch.dropped);
  }

  /** The bounded buffer seen by one caller at a time. */
  class Buffer {
    const capacity: nat
    var queue: seq<Event>
    var closed: bool
    var pushed: nat
    var dropped: nat
    /** Everything taken off the front. */
    ghost var received: seq<Event>
    ghost var accepted: seq<Event>

    ghost predicate Valid()
      reads this
    {
      |queue| <= capacity && accepted == received + queue && pushed == |accepted|
    }

    ghost function View(): Channel
      reads this
    {
      Channel(queue, closed, accepted, dropped)
    }

    constructor (capacity: int)
      ensures Valid() && View() == Channel([], false, [], 0)
      ensures this.capacity == if capacity <= 0 then 1024 else capacity
    {
      this.capacity := if capacity <= 0 then 1024 else capacity;
      queue, closed, pushed, dropped, received, accepted := [], false, 0, 0, [], [];
    }

    method Push(e: Event) returns (ok: bool)
      requires Valid()
      modifies this
      ensures Valid() && received == old(received)
      ensures (View(), ok) == Offer(capacity, old(View()), e)
      ensures ok <==> !old(closed) && |old(queue)| < capacity
      ensures accepted == if ok then old(accepted) + [e] else old(accepted)
      ensures queue == if ok then old(queue) + [e] else old(queue)
      ensures dropped == if !ok && !old(closed) then old(dropped) + 1 else old(dropped)
    {
      if closed {
        return false;
      }
      if |queue| < capacity {
        queue, accepted := queue + [e], accepted + [e];
        pushed := pushed + 1;
        return true;
      }
      dropped := dropped + 1;
      return false;
    }

    method Receive() returns (e: Event)
      requires Valid() && queue != []
      modifies this
      ensures Valid() && View() == old(View()).(queue := queue)
      ensures received == old(received) + [e] && [e] + queue == old(queue)
    {
      e := queue[0];
      received := received + [e];
      queue := queue[1..];
    }

    method Close()
      requires Valid()
      modifies this
      ensures Valid() && View() == old(View()).(closed := true) && received == old(received)
    {
      closed := true;
    }
  }
}
