# A verified model of the contest platform's trading core

The platform runs contestants' order books under load and ranks them. Two price-time-priority matching engines
written independently of each other decide what a correct fill is: the sample heap book that contestants start from,
and the sorted-slice book inside the validator. Around them sit the services that turn order events into a rank: the
validator, the aggregator's latency windows, the telemetry ingester, the leaderboard, the gateway's rate limiter and
the build log. This project models those parts in Dafny and proves what they promise.

Nothing here runs the original services. Check the project with `dafny verify dfyconfig.toml`.

## How the modules fit together

**Matching.** `Market` has the vocabulary: sides, resting orders, commands, fills. `Bags` is the meaning of matching: one
side as an unordered bag from which a best order is taken again and again, with ties broken in any way. `Reference` is a
book of two bags driven by commands (`Legal` answers, `Next` states). Both engines are tied to it:

- `BinaryHeap` is Go's `container/heap` as functions of the array, with what they keep. `ExactBook` is the heap book as a
  function of the book and its two arrays: it determines every answer, ties included, and every answer is one `Reference`
  allows. `HeapBook` is the book as it runs, with entries, back-pointers, an id index per heap and a map of live orders,
  all changed in place, and it answers exactly as `ExactBook` does, whatever the order, quantity or id. `Snapshot` is its
  aggregated view.
- `Slices` says what each operation of the slice book does to its sorted lists; `ReplayBook` is the class with the loops,
  the binary search and the deletions, proved against `Slices`.
- `Priority` says of both, in plain prices and times, who is served first, what an answer leaves and when it stops.
- `Agreement`, `Runs` and `Engine` prove that both engines fill alike over whole command streams; `Retiming` that only the
  order of timestamps matters. `Ties` and `HeapTies` say exactly when they agree from a book on, and `Witness` and `Parting`
  run both engines on a stream where they part.

**Scoring.** `Telemetry` has the events, `Scoring` what the validator computes from them, `Validator` the class that does it,
`Fairness` runs an engine through to its report, and `Refusals` and `RefusalInputs` say what a refused
order does to it.

**Services.** `Windows`, `Counts` and `Aggregator` (latency windows), `Ingester` (buffer, drain loop and shutdown),
`RateLimit`, `Refill`, `ClientRate` and `Limiter` (token buckets), `Points`, `Leaderboard`, `Scored` and `Ranking` (scores and
ranks), `BuildLog` (the line ring). `Counts`, `Refill` and `Scored` say what the windows, the buckets and the ticks do in
terms of the events, requests and rows themselves.

## What turned out false, and exactly when it holds

- *The two engines always agree.* A heap of tied orders serves the first, then the last, then the last but one
  (`Parting.TiesAreRotated`), and the slice book is first in, first out; a cancel then makes a fill differ. Both engines,
  run on one stream, answer 0 and 5 to its last order (`Parting.EnginesPart`). From any state of the heap book that sorted
  lists show, it fills as the slice book does on every continuation that adds no tie and reuses no id exactly when no two
  resting orders of one side tie (`HeapTies.HeapAgreesIff`), so the first order that ties is what parts them
  (`HeapTies.FirstTieParts`). Without cancels and refusals ties and clocks do not matter at all (`Runs.TimesDoNotMatter`).
- *An honest contestant is never marked wrong.* An order the engine refuses is replayed all the same. A distinct run with one
  refusal at its end has a mismatch exactly when the engine's own book could have filled some of the refused order
  (`Refusals.FirstRefusal`, input in `RefusalInputs.CrossingRefusalIsMarkedWrong`). A refused limit order also rests in the
  replayed book, where it makes later correct fills wrong (`RefusalInputs.RestingRefusalSpoilsLaterFill`): a refusal never
  shows, now or on any continuation that adds no tie, reuses no id and has no further refusal, exactly when the order asks
  for nothing or is a market order against an empty side (`Refusals.ForgivenIff`). Any number of such refusals costs nothing
  (`Refusals.HarmlessRefusalsEarnFullMarks`).
- *Every stored score used its submission's own verdict and crash row.* True of every named submission
  (`Leaderboard.NamedWritesAreStrict`). A snapshot without a submission takes over its contestant's named rows
  (`Leaderboard.UnnamedBorrows`); whatever the values, a snapshot is scored on its own rows alone exactly when it names a
  submission, or is not scored, or its contestant's last checked verdict and all its crash rows name none
  (`Leaderboard.RestsOnOwnRowsIff`).
- *Windows under one run key share their identity tags* (a comment at services/aggregator/internal/windowing/aggregator.go:351-352).
  They do, for every flush schedule, exactly when all events of the run name the same contestant and submission
  (`Windows.TaggedAlikeIff`); one submission id used by two contestants breaks it (`Windows.SharedSubmissionMixesTags`).
- *Forgetting idle clients is invisible.* True on every trace exactly when a bucket fills within five minutes or can never
  hold a whole token (`RateLimit.EvictionIsInvisibleIff`). The same condition decides whether a client's rate is bounded
  by burst + rps × elapsed through the whole limiter (`ClientRate.RateHoldsIff`).
- *A rank is the best of all the contestant's submissions.* The store files an unnamed submission under `default`; a rank can
  hide a submission's score exactly when the contestant uses both names (`Leaderboard.SubmissionsCoveredIff`), as after 900
  points unnamed and 100 under `default` (`Leaderboard.DefaultHidesUnnamed`).
- *One crash or timeout forfeits everything.* True of a scoring policy exactly when each penalty is worth full marks
  (`Points.FaultsForfeitIff`), which the default policy satisfies and one with a penalty of 10 per crash does not
  (`Points.SmallPenaltyIsNoForfeit`).
- *Polls concatenate to the whole build log.* Exactly when no more lines arrive between two polls than the ring holds
  (`BuildLog.NoGapsIff`); two lines between polls of a ring of one lose the first (`BuildLog.LatePollMissesALine`).

## Model

| member | source | states |
|---|---|---|
| Bags.MatchIffInPriority | samples/reference-orderbook/engine/orderbook.go:125-178 | taking the best opposite order step by step until done gives exactly the fills of the closed form: makers all different and in price-time order, each at the maker's price, nobody in scope skipped, only the last maker partly filled, total as below (both directions) |
| Bags.MatchTrades | samples/reference-orderbook/engine/orderbook.go:199-234 | however ties are broken, a match trades the smaller of the quantity asked and the opposite quantity its price can reach |
| Bags.GreedyDepth | samples/reference-orderbook/engine/orderbook.go:127-146 | a run of fills lowers the depth within every limit by the traded quantity, floored at zero, whichever tied orders were taken |
| Reference.FilledQuantity | samples/reference-orderbook/engine/orderbook.go:111-238 | any legal answer to any command fills the smaller of its quantity and the reachable opposite depth |
| Reference.NextSound | samples/reference-orderbook/engine/orderbook.go:111-260 | every legal step keeps quantities positive, ids filed under themselves and live, sides disjoint, and every bid below every ask |
| Reference.RunSound | samples/reference-orderbook/engine/orderbook.go:111-260 | the same in every reachable state of every run |
| Reference.Conservation | samples/reference-orderbook/engine/orderbook.go:111-260 | over any run, for each side and for each single order: open before plus submitted equals traded plus cancelled or discarded plus still open |
| Reference.BoughtEqualsSold | samples/reference-orderbook/engine/orderbook.go:139-142 | over any run the quantity bought equals the quantity sold |
| Priority.BestThenEarliestFirst | samples/reference-orderbook/engine/orderbook.go:46-178 | in any legal answer a buyer takes the cheapest asks first and among equal prices the earliest, a seller the dearest bids first and among equal prices the earliest: a fill comes only after every order that goes first was taken whole; each fill is at the resting price, and none is worse than the limit |
| Priority.StopsOnlyWhenDone | samples/reference-orderbook/engine/orderbook.go:127-146 | never more than asked is traded, and less only if every ask left is above a buyer's limit, every bid left below a seller's, or for a market order none is left |
| Priority.LeavesTheRest | samples/reference-orderbook/engine/orderbook.go:136-178 | every maker keeps price, time and what was not taken of it and is gone once that is nothing; the rest of a limit order rests at its own price and time, that of a market order nowhere |
| Priority.IdsInUse | samples/reference-orderbook/engine/orderbook.go:111-260 | which ids are in use after each command, and that exactly a used id is refused, exactly an unused one not found |
| BinaryHeap.RootIsBest | samples/reference-orderbook/engine/orderbook.go:48-53 | no slot of a heap-ordered array precedes its root in price-time order |
| BinaryHeap.UpStep | samples/reference-orderbook/engine/orderbook.go:46-54 | one swap of sift-up moves the only violation of heap order to the parent |
| BinaryHeap.DownStep | samples/reference-orderbook/engine/orderbook.go:46-55 | one swap of sift-down with the better child moves the only violation to that child |
| BinaryHeap.RemoveStart | samples/reference-orderbook/engine/orderbook.go:252-252 | putting the last slot in the place of any other disturbs heap order only around that place |
| BinaryHeap.PushOrdered | samples/reference-orderbook/engine/orderbook.go:149-149 | push keeps heap order |
| BinaryHeap.PopOrdered | samples/reference-orderbook/engine/orderbook.go:101-101 | pop keeps heap order |
| BinaryHeap.RemoveOrdered | samples/reference-orderbook/engine/orderbook.go:252-252 | removal at any position keeps heap order, whether the moved slot sinks or rises |
| BinaryHeap.RemoveKeeps | samples/reference-orderbook/engine/orderbook.go:252-252 | removal takes out exactly the slot at the position, as a multiset |
| BinaryHeap.PopKeeps | samples/reference-orderbook/engine/orderbook.go:101-101 | pop takes out exactly the root, as a multiset |
| ExactBook.SweepMatches | samples/reference-orderbook/engine/orderbook.go:127-146 | on a heap of what rests, the loop over roots makes a complete greedy best-first match and leaves a heap of what is left |
| ExactBook.DoRefines | samples/reference-orderbook/engine/orderbook.go:111-260 | every answer of the heap book is one the reference book may give, its next book is the reference's, and its arrays are again heaps of what rests, each order once |
| ExactBook.AnswersAreLegal | samples/reference-orderbook/engine/orderbook.go:111-260 | the heap book's answers to any command stream are a legal run of the reference book |
| HeapBook.HalfBook.Swap | samples/reference-orderbook/engine/orderbook.go:47-47 | exchanges two entries and keeps every entry's idx equal to its position |
| HeapBook.HalfBook.Up | samples/reference-orderbook/engine/orderbook.go:46-54 | sift-up in place moves the slots exactly as its function does, keeps the entries and rewrites every back-pointer |
| HeapBook.HalfBook.Down | samples/reference-orderbook/engine/orderbook.go:46-55 | sift-down in place moves the slots exactly as its function does, says whether it moved, and touches nothing past n |
| HeapBook.HalfBook.HeapPush | samples/reference-orderbook/engine/orderbook.go:149-149 | push in place is the array function, adds exactly the entry and keeps a heap a heap |
| HeapBook.HalfBook.HeapPop | samples/reference-orderbook/engine/orderbook.go:100-109 | pop in place is the array function, returns the root and keeps a heap a heap |
| HeapBook.HalfBook.HeapRemove | samples/reference-orderbook/engine/orderbook.go:251-258 | removal in place is the array function, returns exactly the entry at the position and keeps a heap a heap |
| HeapBook.HalfBook.PopBest | samples/reference-orderbook/engine/orderbook.go:96-109 | an exhausted top leaves heap and index together and everything else stays consistent |
| HeapBook.HalfBook.SkipExhausted | samples/reference-orderbook/engine/orderbook.go:128-131 | terminates with a live top, and never fires when no entry is exhausted |
| HeapBook.HalfBook.MatchLoop | samples/reference-orderbook/engine/orderbook.go:127-146 | terminates, stops only when done or out of price, the skip never fires, and array, bag, fills and remainder go exactly as the specified sweep |
| HeapBook.HalfBook.FoundAtIdx | samples/reference-orderbook/engine/orderbook.go:251-256 | the back-pointer of an indexed entry is where a search of the array finds its id |
| HeapBook.HalfBook.Withdraw | samples/reference-orderbook/engine/orderbook.go:248-258 | cancelling through the back-pointer removes exactly that order from array, index and bag and leaves its remaining at 0 |
| HeapBook.OrderBook.Place | samples/reference-orderbook/engine/orderbook.go:111-181 | for any order object: answer, book and both arrays are exactly the specified ones, the answer is legal and the book is the reference's next state; makers are taken best price first and earliest first, in literal terms; heaps, back-pointers, indexes and live orders stay consistent and no exhausted top is ever met |
| HeapBook.OrderBook.PlaceMarket | samples/reference-orderbook/engine/orderbook.go:186-238 | the same for an immediate-or-cancel order, whose remainder is discarded and whose id is freed |
| HeapBook.OrderBook.Cancel | samples/reference-orderbook/engine/orderbook.go:240-260 | a live id is removed from wherever it rests, also when it is already filled; an unknown id changes nothing |
| Snapshot.SortLevels | samples/reference-orderbook/engine/orderbook.go:301-311 | the in-place exchange sort orders the levels by price and permutes them |
| Snapshot.TakeSnapshot | samples/reference-orderbook/engine/orderbook.go:267-299 | one level per price with resting quantity, bids strictly down and asks strictly up, each showing exactly the quantity resting at that price |
| Slices.TakeSuffix | services/validator/internal/replay/book.go:126-161 | matching leaves a suffix of the side whose first order may be partly filled, and stops only when done or out of price |
| Slices.TakeDepth | services/validator/internal/replay/book.go:126-161 | on a sorted side matching trades the smaller of asked and in-price quantity and lowers every depth accordingly |
| Slices.InsertAt | services/validator/internal/replay/book.go:163-185 | the position a binary search finds is the one that keeps earlier ties ahead |
| Slices.InsertSorted | services/validator/internal/replay/book.go:163-185 | insertion keeps the side sorted by price, then time, which `Priority.SortedIsInTurn` spells out |
| Slices.StepSound | services/validator/internal/replay/book.go:38-108 | every operation keeps both sides sorted, quantities positive and the book uncrossed |
| ReplayBook.Sweep | services/validator/internal/replay/book.go:127-161 | the matching loop computes the front match: what is left of the side and what was filled |
| ReplayBook.InsertionPoint | services/validator/internal/replay/book.go:164-169 | on a sorted side the search predicate is monotone, and the binary search returns its boundary |
| ReplayBook.Locate | services/validator/internal/replay/book.go:95-106 | the scan finds the first order with the id, or the end |
| Priority.SortedIsInTurn | services/validator/internal/replay/book.go:27-32 | the two lists are sorted exactly when bids go down and asks go up in price, and at equal prices no later time stands before an earlier one |
| Priority.BidQueues | services/validator/internal/replay/book.go:163-173 | a bid is inserted behind exactly the bids that are dearer, or as dear and not later |
| Priority.AskQueues | services/validator/internal/replay/book.go:175-185 | an ask is inserted behind exactly the asks that are cheaper, or as cheap and not later |
| ReplayBook.Book.Place | services/validator/internal/replay/book.go:38-54 | new book and filled quantity are those of the specification; after it bids go down and asks go up in price, the earlier of equal prices first, and no bid crosses an ask |
| ReplayBook.Book.PlaceMarket | services/validator/internal/replay/book.go:60-90 | the same at any price, with nothing resting |
| ReplayBook.Book.Cancel | services/validator/internal/replay/book.go:94-108 | removes the first order with the id, bids before asks, and says whether there was one |
| ReplayBook.Book.InsertBid | services/validator/internal/replay/book.go:163-173 | the shift in place is the specified insertion, ties behind |
| ReplayBook.Book.InsertAsk | services/validator/internal/replay/book.go:175-185 | the same for asks |
| ReplayBook.Book.BestBid | services/validator/internal/replay/book.go:111-116 | the highest resting bid, if any |
| ReplayBook.Book.BestAsk | services/validator/internal/replay/book.go:119-124 | the lowest resting ask, if any |
| Agreement.SortsUnique | services/validator/internal/replay/book.go:27-32 | a bag without ties has exactly one price-time order, so "the heap's contents sorted" is well defined |
| Agreement.TakeSimulates | services/validator/internal/replay/book.go:126-161 | matching the front of the sorted list and any greedy match of the bag trade the same quantity and leave the same orders |
| Agreement.StepAgrees | services/validator/internal/replay/book.go:38-108 | one command: equal fill, and the slice book is again the sorted contents of the reference book |
| Runs.EnginesAgree | services/validator/internal/replay/book.go:38-185 | whole streams of limit, market and cancel commands: every fill agrees, and the slice book ends as the sorted heap contents, quantities included |
| Runs.DistinctStreamsAgree | services/validator/internal/replay/book.go:38-185 | from the empty book the hypotheses follow from the stream alone: fresh ids and distinct keys per side |
| Runs.TimesDoNotMatter | services/validator/internal/replay/book.go:60-90 | without cancels or refusals the engines fill alike under ties and even under unrelated clocks |
| Parting.TiesAreRotated | samples/reference-orderbook/engine/orderbook.go:48-55 | popping the root of a heap of ties brings the last slot to the root |
| Parting.HeapAnswers | samples/reference-orderbook/engine/orderbook.go:44-260 | the heap book's answers to the stream: it takes the first tied ask, then the last, so the second is cancelled and the last order finds nothing |
| Parting.TiesAndCancelsDisagree | samples/reference-orderbook/engine/orderbook.go:48-53 | those answers are legal and the slice book expects others |
| Parting.EnginesPart | services/validator/internal/replay/book.go:163-185 | both engines, run, give their answers to that stream, and to its last order these are nothing and 5 |
| Ties.AgreeFromHereIff | services/validator/internal/replay/book.go:163-185 | from a sound book shown by sorted lists, every continuation that adds no tie and reuses no id fills alike under every legal tie-break exactly when no two resting orders of one side tie |
| Ties.TiePartsThem | samples/reference-orderbook/engine/orderbook.go:48-53 | from any book with a tie some cancels and two market orders have legal answers that the slice book does not expect |
| Ties.PlacedTies | samples/reference-orderbook/engine/orderbook.go:125-178 | a limit order brings the first tie exactly when it asks for something and ties with an order of its side |
| HeapTies.HeapAgreesIff | samples/reference-orderbook/engine/orderbook.go:44-260 | from every sound state of the heap book shown by sorted lists, heap book and slice book fill alike on every continuation that adds no tie and reuses no id exactly when no two resting orders of one side tie |
| HeapTies.HeapPartsOverTie | samples/reference-orderbook/engine/orderbook.go:44-260 | wherever two orders tie, some commands make the heap book itself serve the later one first and answer other than the slice book |
| HeapTies.FirstTieParts | services/validator/internal/replay/book.go:38-54 | after distinct commands one more order fills alike, tie or not, and from then on heap book and slice book agree on every continuation that adds no tie and reuses no id exactly when the order asks for nothing or ties with nothing on its side |
| Retiming.LaterRun | samples/reference-orderbook/engine/orderbook.go:52-52 | a run stays legal, answer for answer, when all times are replaced order-isomorphically |
| Engine.Apply | samples/reference-orderbook/engine/orderbook.go:111-260 | one command through the heap book is one specified step and refines one reference step |
| Engine.RunBook | samples/reference-orderbook/engine/orderbook.go:85-260 | any command stream through an empty heap book gives exactly the specified answers, a legal reference run |
| Engine.RunReplay | services/validator/internal/replay/book.go:34-185 | any command stream through the slice book gives the specified fills |
| Engine.RunBoth | samples/reference-orderbook/engine/orderbook.go:111-260 | the two engines run on one stream return equal fills, command by command, when keys are distinct or every command is accepted |
| Scoring.NonInterference | services/validator/internal/replay/validator.go:50-117 | in any interleaving a run's book and counters are those of its own events alone |
| Scoring.CountersExact | services/validator/internal/replay/validator.go:83-116 | checks are the scored events and mismatches those of them that differ from a replay that never sees the reports |
| Scoring.RunCounters | services/validator/internal/replay/validator.go:61-117 | the same for every run of every interleaved stream |
| Scoring.ReplayIsBlind | services/validator/internal/replay/validator.go:90-103 | reported fills and results never influence later expected fills |
| Scoring.AlteredAreCaught | services/validator/internal/replay/validator.go:108-113 | of two interleaved streams whose events of one run differ only in reported fills, the first without mismatch: the validator's mismatch counter for the second is exactly the number of scored reports altered |
| Scoring.CorrectnessMeans | services/validator/internal/replay/validator.go:164-176 | correctness is a fraction, and 1 exactly when nothing was misreported |
| Scoring.CorrectnessIsShare | services/validator/internal/replay/validator.go:164-168 | correctness times the checks is the checks that were not wrong, and with no check it is 1 |
| Scoring.OneWrongInFour | services/validator/internal/replay/validator.go:164-168 | one wrong in four reads 0.75 |
| Scoring.CheckedMeans | services/validator/internal/replay/validator.go:83-113 | the checks are the limit and market orders whose result is anything but unspecified, and the mismatches those of them whose reported fill is not the replayed one |
| Scoring.RunTags | services/validator/internal/replay/validator.go:61-81 | a run carries the names of its first event and the newest time of any of its events |
| Scoring.UnknownSideIsBuy | services/validator/internal/replay/validator.go:61-90 | any side but sell is replayed as a buy, an unspecified type changes no book, and a nil event or one without contestant changes nothing |
| Telemetry.OnlyKeepsOwn | services/validator/internal/replay/validator.go:47-58 | an event belongs to the run of its submission, or of its contestant where it has none, is kept there in its place, and belongs to no other |
| Scoring.CorrectEngineEarnsFullMarks | services/validator/internal/replay/validator.go:61-117 | any legal engine run on distinct commands, its fills reported in execution order with order-isomorphic times, among any other runs, has no mismatch and correctness 1 |
| Scoring.CorrectEngineWithoutCancels | services/validator/internal/replay/validator.go:61-117 | the same with ties and unrelated clocks when every command was accepted and none cancels |
| Scoring.NothingFilledIsWrongIff | services/validator/internal/replay/validator.go:105-113 | a scored order reported with nothing filled is marked wrong exactly when it asks for something the replayed book can give |
| Refusals.FirstRefusal | services/validator/internal/replay/validator.go:83-113 | a run of distinct commands reported honestly up to and including its first refusal has no mismatch, or exactly one if the engine's own book could have filled some of the refused order |
| Refusals.ForgivenIff | services/validator/internal/replay/validator.go:83-113 | a refusal makes no difference to any fill, now or on any continuation that adds no tie, reuses no id and has no further refusal, exactly when the order asks for nothing or is a market order against an empty side |
| Refusals.HarmlessRefusalsEarnFullMarks | services/validator/internal/replay/validator.go:83-113 | a run with any number of such refusals, its accepted commands untied, reported honestly among any other runs, earns full marks |
| RefusalInputs.CrossingRefusalIsMarkedWrong | services/bot-worker/main.go:350-360 | a legal run with a duplicate id, reported honestly, and one mismatch |
| RefusalInputs.RestingRefusalSpoilsLaterFill | services/validator/internal/replay/book.go:38-54 | a refused order that finds nobody rests in the replay, and a later correct fill is the one marked wrong |
| Validator.Compare | services/validator/internal/replay/validator.go:79-116 | one event in place: book and counters become the specified ones |
| Validator.Validator.Process | services/validator/internal/replay/validator.go:61-117 | the table of runs becomes the specified one; nil events and events without contestant change nothing |
| Validator.Validator.LatestForContestant | services/validator/internal/replay/validator.go:139-150 | finds a run of the contestant whose newest event is not older than that of any other |
| Validator.Validator.GetReport | services/validator/internal/replay/validator.go:124-135 | the report of the run with that key, else of the contestant's most recently active run, else none; its correctness times its checks is the checks that were not wrong |
| Validator.Replay | services/validator/internal/replay/validator.go:40-117 | any stream through a fresh validator gives the specified table |
| Fairness.OwnAnswersEarnFullMarks | services/bot-worker/internal/client/rest.go:89-95 | events built from an engine's own answers by summing fills earn full marks |
| Fairness.ResultSaysHowMuch | services/bot-worker/main.go:326-338 | an accepted order that asks for something is reported filled, partial or acknowledged exactly when all, some or none of it could trade, with that quantity |
| Fairness.RunContest | samples/reference-orderbook/engine/orderbook.go:111-260 | end to end with the mutable parts: heap book run, events built, validator run, report has 0 mismatches and correctness 1 |
| Windows.NonInterference | services/aggregator/internal/windowing/aggregator.go:111-263 | a run's windows depend on its own events and the flush times alone, in any interleaving |
| Windows.CountedOnce | services/aggregator/internal/windowing/aggregator.go:165-263 | flushed windows plus open window equal the plain fold over the run's accepted events, which `Counts.PlainCounts` spells out |
| Counts.PlainCounts | services/aggregator/internal/windowing/aggregator.go:184-193 | that fold counts the run's records, those rejected, those timed out, and for each bucket those whose positive latency falls there |
| Counts.WindowsCountRecords | services/aggregator/internal/windowing/aggregator.go:165-263 | under any schedule the flushed windows and the open one hold together exactly those counts |
| Counts.OpensAtFirstEvent | services/aggregator/internal/windowing/aggregator.go:173-182 | a window starts at the clock of its first event and carries that event's names |
| Counts.FlushReports | services/aggregator/internal/windowing/aggregator.go:207-233 | a flushed window has the open window's own counts and histogram, lasts since it opened or the configured size, its rate times its seconds is its count, and its percentiles are the 500th, 900th, 990th and 999th thousandths |
| Counts.LoggedIsSum | services/aggregator/internal/windowing/aggregator.go:243-259 | counts, histogram and time of a log are the sums over its windows |
| Counts.MergesAre | services/aggregator/internal/windowing/aggregator.go:77-97 | the whole run merges every window, the recent view the last of them, at most 60, each with sums, rate and percentiles read as above |
| Windows.ScheduleDoesNotMatter | services/aggregator/internal/windowing/aggregator.go:199-263 | two flush schedules of the same events that both end flushed report the same totals and histogram, hence the same percentiles |
| Windows.RingAppend | services/aggregator/internal/windowing/aggregator.go:234-238 | appending and trimming keeps the ring the last min(60, n) windows |
| Windows.RingIsWholeRun | services/aggregator/internal/windowing/aggregator.go:300-368 | while nothing has been evicted, merging the ring gives the accumulator's counts, duration, rate and percentiles |
| Windows.TaggedAlikeIff | services/aggregator/internal/windowing/aggregator.go:351-354 | all windows of a run carry the same tags under every flush schedule exactly when all its events do |
| Windows.SharedSubmissionMixesTags | services/aggregator/internal/windowing/aggregator.go:111-118 | two contestants under one submission id share a run key and mix its tags |
| Aggregator.Track.Record | services/aggregator/internal/windowing/aggregator.go:173-194 | opens a window if needed and adds the event to it, as `Counts.OpensAtFirstEvent` and `Counts.PlainCounts` spell out |
| Aggregator.Track.Flush | services/aggregator/internal/windowing/aggregator.go:207-259 | the window becomes the log's newest entry, ring and accumulator follow, and no histogram already in the ring changes |
| Aggregator.Track.MergedRecent | services/aggregator/internal/windowing/aggregator.go:313-368 | the whole run for a count that is not positive, else the merge of the last retained windows |
| Aggregator.Track.RingIsAccumulator | services/aggregator/internal/windowing/aggregator.go:230-262 | while nothing has been evicted the ring's own entries and histograms sum to what the accumulator holds, bucket for bucket |
| Aggregator.MergeHistograms | services/aggregator/internal/windowing/merge.go:36-49 | a new histogram with the bucket-wise sum, nil entries skipped, inputs left alone; nil for no input |
| Aggregator.Aggregator.Record | services/aggregator/internal/windowing/aggregator.go:165-194 | the runs become the specified ones; nil events and events without contestant change nothing |
| Aggregator.Aggregator.Flush | services/aggregator/internal/windowing/aggregator.go:199-263 | every open window is rolled, in whatever order the map is ranged over, and exactly one snapshot per open window is returned |
| Aggregator.Aggregator.LatestRun | services/aggregator/internal/windowing/aggregator.go:269-284 | a run of the contestant whose newest window starts last |
| Aggregator.Aggregator.Latest | services/aggregator/internal/windowing/aggregator.go:400-410 | the newest window of the run the id resolves to, or none |
| Aggregator.Aggregator.MergedRecent | services/aggregator/internal/windowing/aggregator.go:300-368 | the merge for the run the id resolves to, or none |
| Aggregator.Aggregator.AllMerged | services/aggregator/internal/windowing/aggregator.go:377-393 | exactly one merge for each run that had flushed when the call began, each as of the moment it was made, with anything other callers do in between |
| Aggregator.RunSteps | services/aggregator/internal/windowing/aggregator.go:143-263 | any stream of records and flushes through a fresh aggregator gives the specified runs, and each run's windows hold its records, rejections, timeouts and samples, each once |
| Ingester.EveryStateKeepsOrder | services/telemetry-ingester/main.go:79-134 | in every interleaving of handlers, drain loop and shutdown: published, pending and queue together are the accepted events in order, batches are sized, no push meets a closed channel |
| Ingester.ExitedMeansPublished | services/telemetry-ingester/main.go:79-86 | at exit every accepted event was handed to Publish exactly once, in order |
| Ingester.FullBatchesOnReceipt | services/telemetry-ingester/main.go:113-131 | taking an event publishes exactly when it fills the batch, and the batch has then exactly the batch size |
| Ingester.SmallBatchesAreFlushes | services/telemetry-ingester/main.go:96-132 | a smaller batch is what was pending when the ticker fired or the loop returned, and each step publishes at most one |
| Ingester.ShutdownCanComplete | services/telemetry-ingester/main.go:79-86 | from every state that keeps the invariant some continuation exits: no interleaving gets stuck |
| Ingester.ShutdownCompletes | services/telemetry-ingester/main.go:79-86 | once the servers have stopped every continuation makes a bounded number of steps other than ticks, and another is possible exactly until it exits |
| Ingester.HastyShutdownPanics | services/telemetry-ingester/main.go:82-84 | the same system without the wait for handlers has a run that sends on the closed channel, next to EveryStateKeepsOrder, by which the system as it is has none |
| Ingester.DrainLoop | services/telemetry-ingester/main.go:92-134 | run on any schedule of the system, the loop leaves exactly what the system's steps leave, and has published every event it took, once and in order, in batches of 1 to batchSize |
| Ingester.EveryRunIsASchedule | services/telemetry-ingester/main.go:92-134 | the wake-ups of any run of the system, with the states they happen in, are such a schedule, and end with what the run ends with |
| Ingester.WokenIsNext | services/telemetry-ingester/main.go:109-132 | every wake-up of the loop is a step of the system |
| Ingester.OnlyTheLoop | services/telemetry-ingester/main.go:96-107 | and every step of the system that changes what the loop owns is a wake-up |
| Ingester.DrainRest | services/telemetry-ingester/main.go:115-123 | after cancellation everything left in the channel is published |
| Ingester.Buffer.Push | services/telemetry-ingester/internal/buffer/buffer.go:35-47 | accepts exactly when open and not full, puts what it accepts at the end, and counts what it drops when full |
| Ingester.PushIsTwoSteps | services/telemetry-ingester/internal/buffer/buffer.go:35-47 | such a push is the system's check of the flag and send of one handler |
| RateLimit.Budget | services/api-gateway/internal/ratelimit/bucket.go:23-37 | tokens stay between 0 and the burst, and tokens left plus requests allowed never exceed tokens held plus tokens that flowed in |
| RateLimit.RateBound | services/api-gateway/internal/ratelimit/bucket.go:23-37 | between the first and last of any requests in a row at most burst + rps × elapsed are allowed |
| Refill.LetThroughIff | services/api-gateway/internal/ratelimit/bucket.go:23-37 | a request is let through exactly when one more keeps every stretch ending with it within burst + inflow, and all of it within what the bucket held + inflow: no request is refused without need |
| Refill.RefilledIsRoom | services/api-gateway/internal/ratelimit/bucket.go:23-37 | the tokens in a bucket are the largest amount for which all these bounds leave room |
| Refill.ExactAccount | services/api-gateway/internal/ratelimit/bucket.go:23-37 | while the bucket would not run over, requests allowed plus tokens left are exactly tokens held plus tokens that flowed in |
| Refill.RefusalCostsNothing | services/api-gateway/internal/ratelimit/bucket.go:31-36 | a refused request changes no later answer |
| Refill.RetryIff | services/api-gateway/internal/ratelimit/bucket.go:31-36 | a request is refused with less than one token there, which stays, and the next is let through from the moment the missing part has flowed in, no sooner |
| Refill.BurstAtOnce | services/api-gateway/internal/ratelimit/bucket.go:19-37 | of requests made at once a new client gets as many as the burst has whole tokens |
| Refill.EarlyThenOnTime | services/api-gateway/internal/ratelimit/bucket.go:23-37 | with one token a second and a burst of one, requests at 0, 0.5 and 1 are let through, refused and let through |
| ClientRate.RateHoldsIff | services/api-gateway/internal/ratelimit/bucket.go:92-116 | the bound holds for every client on every stretch of every trace through the limiter, eviction included, exactly when burst < 1 or burst ≤ 300 × rps |
| RateLimit.EvictionIsInvisibleIff | services/api-gateway/internal/ratelimit/bucket.go:92-116 | eviction changes no answer on any ordered trace exactly when burst < 1 or burst ≤ 300 × rps |
| RateLimit.ShortIdleIsSeen | services/api-gateway/internal/ratelimit/bucket.go:97-101 | otherwise a trace that drains, waits and probes tells the two limiters apart |
| Limiter.TokenBucket.Allow | services/api-gateway/internal/ratelimit/bucket.go:23-37 | the bucket in place does what the specification says, which `Refill` spells out |
| Limiter.IPLimiter.Allow | services/api-gateway/internal/ratelimit/bucket.go:106-116 | with its up to three clock readings, a request is answered from its own client's bucket, a full one if it has none, the client is marked as seen, and no other client is touched |
| Limiter.IPLimiter.Evict | services/api-gateway/internal/ratelimit/bucket.go:97-101 | a client stays exactly if it was seen at most 300 seconds ago, and is left as it was |
| Limiter.RunTrace | services/api-gateway/internal/ratelimit/bucket.go:56-116 | the limiter over any trace gives the specified answers |
| Points.BetterScoresNoLower | services/leaderboard-svc/internal/score/score.go:73-90 | measurements that are nowhere worse never score lower |
| Points.ScoreInRange | services/leaderboard-svc/internal/score/score.go:73-101 | a score lies between 0 and full marks, and a flawless run earns them |
| Points.FaultsForfeitIff | services/leaderboard-svc/internal/score/score.go:78-81 | any crash or timeout makes every score 0 exactly when each penalty is at least full marks |
| Points.SmallPenaltyIsNoForfeit | services/leaderboard-svc/internal/score/score.go:78-81 | with a penalty of 10 a flawless run with one crash keeps 990 |
| Points.DefaultPolicy | services/leaderboard-svc/internal/score/score.go:29-40 | under the default policy scores lie in [0, 1000] and any crash or timeout makes 0 |
| Points.DefaultWorth | services/leaderboard-svc/internal/score/score.go:29-40 | under the default policy latency is worth 400 points less 4 per millisecond, the rate 3 per hundred orders a second up to 300, correctness 300; a crash costs 10000, a timeout 1000 |
| Points.OffScale | services/leaderboard-svc/internal/score/score.go:92-101 | a measurement off its scale counts as the nearest end of it |
| Points.AloneWorth | services/leaderboard-svc/internal/score/score.go:73-90 | alone, the best latency scores 400, the best rate 300, full correctness 300 |
| Points.RoundIsNearest | services/leaderboard-svc/internal/score/score.go:81-81 | rounding goes to the nearest integer and halves away from zero |
| Points.FaultsCost | services/leaderboard-svc/internal/score/score.go:78-81 | faults take exactly their penalties off the rounded base, down to zero |
| Leaderboard.WriteIsJustified | services/leaderboard-svc/internal/ingest/ingest.go:119-144 | a snapshot is scored exactly when some verdict with checks speaks for it, from the last such verdict and its own crashes |
| Leaderboard.PlanIsJustified | services/leaderboard-svc/internal/ingest/ingest.go:57-146 | every write of a tick is justified by its feed |
| Scored.PlanScoresEachJudged | services/leaderboard-svc/internal/ingest/ingest.go:57-146 | a tick that fetched has exactly one write for each snapshot that some verdict with checks names, in the snapshots' order, with that snapshot's names and its score from its last such verdict and its crashes; one that did not fetch has none |
| Scored.TickStores | services/leaderboard-svc/internal/ingest/ingest.go:117-146 | after a tick every such snapshot's name holds the score of the last such snapshot of that name, every other name what it held, and ranks are still the best of the names |
| Scored.JudgedAreRanked | services/leaderboard-svc/internal/ingest/ingest.go:117-146 | every such snapshot's contestant is ranked after the tick, no lower than any of its stored scores |
| Scored.TickReachesTheBoard | services/leaderboard-svc/internal/ingest/ingest.go:57-146 | from any reachable state an idle replica that begins a tick and sends its writes has stored all of that on the shared board |
| Scored.TotalIsSum | services/leaderboard-svc/internal/ingest/ingest.go:91-103 | crashes of a contestant add up over its rows |
| Leaderboard.BoardIsTheLog | services/leaderboard-svc/internal/store/redis.go:11-31 | however replicas interleave, miss ticks or have writes refused, the board is the atomic writes replayed in order |
| Leaderboard.RankingIsBestOfLatest | services/leaderboard-svc/internal/store/stub.go:30-50 | in every interleaving exactly the contestants with a write are ranked, each by the maximum of the latest stored score of each stored submission |
| Leaderboard.EveryWriteIsJustified | services/leaderboard-svc/internal/ingest/ingest.go:105-146 | every score ever stored came from one tick that had begun, with the last checked verdict and the crashes that the source's lookup charges to its snapshot |
| Leaderboard.NamedWritesAreStrict | services/leaderboard-svc/internal/ingest/ingest.go:122-128 | every score ever stored for a named submission used that submission's own verdict with TotalChecked > 0 and its own crash row |
| Leaderboard.UnnamedBorrows | services/leaderboard-svc/internal/ingest/ingest.go:128-134 | a snapshot without a submission is scored on a named sibling's verdict and crash |
| Leaderboard.RestsOnOwnRowsIff | services/leaderboard-svc/internal/ingest/ingest.go:76-134 | whatever the values, a snapshot is scored on its own rows alone exactly when it names a submission, or is not scored, or its contestant's last checked verdict and all its crash rows name none |
| Leaderboard.NoLowerRanksNoLower | services/leaderboard-svc/internal/store/stub.go:30-50 | writes that are nowhere lower leave nobody ranked lower |
| Leaderboard.BetterRunsRankNoLower | services/leaderboard-svc/internal/ingest/ingest.go:57-146 | whatever the interleaving, better measurements, verdicts and crash counts never lower anyone's rank |
| Leaderboard.SubmissionsCoveredIff | services/leaderboard-svc/internal/store/stub.go:31-33 | a rank covers every submission's latest score, whatever the scores, exactly when the contestant does not use both an empty name and `default` |
| Leaderboard.DefaultHidesUnnamed | services/leaderboard-svc/internal/store/stub.go:31-33 | 900 points unnamed, then 100 under `default`, rank 100 |
| Ranking.Stub.UpsertSubmission | services/leaderboard-svc/internal/store/stub.go:30-50 | the attempts and the best score, found by a loop, become the specified board |
| Ranking.Stub.Top | services/leaderboard-svc/internal/store/stub.go:52-64 | as many entries as asked for, each contestant once with its score, in descending order, and nobody left out who beats one kept |
| Ranking.ReadVerdicts | services/leaderboard-svc/internal/ingest/ingest.go:76-86 | the two maps answer for every snapshot as the last row that speaks for it does |
| Ranking.ReadCrashes | services/leaderboard-svc/internal/ingest/ingest.go:91-103 | the two maps give a submission's last crash row, or a contestant's sum |
| Ranking.Judge | services/leaderboard-svc/internal/ingest/ingest.go:117-140 | looked up through the maps, a snapshot's write is the one its last speaking verdict and its crashes give, and it has none without such a verdict |
| Ranking.Tick | services/leaderboard-svc/internal/ingest/ingest.go:57-150 | a tick that can fetch applies exactly the planned writes, after which every judged snapshot's name holds its last judged score and the rest is as before, and reads the head of the board; one that cannot fetch changes nothing |
| BuildLog.PollIsSuffix | services/submission-svc/internal/buildlog/buffer.go:61-72 | a poll returns the contiguous newest lines after the cursor that the ring still holds |
| BuildLog.NoDuplicates | services/submission-svc/internal/buildlog/buffer.go:44-72 | over every interleaving no line is received twice, out of order or altered |
| BuildLog.HistoryHoldsOffered | services/submission-svc/internal/buildlog/buffer.go:44-52 | the history of a submission holds every line with some text offered for it, in order and numbered from one, with its stream and time, and nothing else |
| BuildLog.PollGets | services/submission-svc/internal/buildlog/buffer.go:61-72 | a poll gets a line exactly if it is numbered above the cursor and among the newest that fit |
| BuildLog.NoGapsIff | services/submission-svc/internal/buildlog/buffer.go:44-72 | the polls concatenate to the whole log up to the last poll exactly when each poll came before more lines arrived than the ring holds |
| BuildLog.LatePollMissesALine | services/submission-svc/internal/buildlog/buffer.go:53-56 | two lines between polls of a ring of one: the client gets the second only |
| BuildLog.Buffer.Append | services/submission-svc/internal/buildlog/buffer.go:44-57 | the line goes with the next number to the end of its submission and only the newest lines stay; empty submission or text changes nothing |
| BuildLog.Buffer.Since | services/submission-svc/internal/buildlog/buffer.go:61-72 | the loop returns exactly the lines numbered above the cursor among the newest that fit, in order, and the last number given |
| BuildLog.Follow | services/submission-svc/internal/buildlog/buffer.go:32-72 | a client polling the buffer, with lines arriving for any submission, receives the specified lines |

## Modelling choices

- Prices, tokens, rates and scores are reals and times and quantities unbounded integers: no NaN, no rounding, no overflow.
- A mutex-protected method is one atomic step, and a clock reading is a parameter.
- The mirrored bid and ask code of the heap book is one class with a side; the matching loops, which the source writes out four
  times per engine, are one loop with the price condition as a parameter.
- The aggregator's four maps with the same keys are one map of per-run records; the histogram library is a set of parameters
  (what it can record, the bucket of a value, the quantile of the counts), and a histogram is the multiset of its buckets.
- A ranged-over map is visited in an arbitrary order.

## Left out

- RateLimit.EvictionIsInvisibleIff: on traces where the clock stands still during a request; between its readings within one request it may move in the source.
- Snapshot.TakeSnapshot: a sequential call only; the source reads entries after releasing the lock, so a concurrent match can show through.
- Ranking.Stub.Top: the order among equal scores is left open, as the source's sort is not stable; the Redis store's default of 100 entries and its tie order are not modelled.
- Points.FinalScore: requires a positive target rate and latency limit, which the default policy has; a target rate of zero would divide by zero.
- Fairness.RunContest: the reporting bot loses no event; the telemetry client may drop events under load, which the validator then cannot replay.
- Ingester.ShutdownCanComplete: the handlers themselves are not modelled, so a handler that never returns holds up the stop of the servers; a failed Publish counts as handed over, as the source only logs it.
- Direct Upsert calls to the leaderboard store, which bypass the per-submission scores.
- The listings All of the aggregator and the validator, and the HTTP handlers that resolve ids through the modelled calls.
- HTTP, gRPC, WebSocket, Kafka, Redis and Postgres plumbing, JSON and generated code: behaviour of unseen libraries.
- Order generation, clock-offset probing and the FIX and WebSocket clients: distributional or timing claims.
- Client-address parsing, tokens, the crash tracker, the submission store and the demo seeder: they would only add easy members.
