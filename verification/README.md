# A verified model of the market maker's core

This project models the parts of the market maker that keep state or do exact
integer arithmetic, and proves what they guarantee over whole runs. One module
corresponds to one component; machine integers wrap, truncate and saturate as in
the release build, where overflow checks are off.

- **Rate limiters.** `LeakyBucket` and `FixedWindow` hold the arithmetic and the
  limiters as one thread uses them; `LeakyBucketThreads` and `FixedWindowThreads`
  break every call into its atomic steps (clock read, load, compare-and-exchange,
  the later store or addition) and run any number of threads in any order.
  `LeakyBucketExact` compares the stored tokens with an exact rational bucket, and
  `MultiLimiter` composes limiters.
- **Order book.** `OrderBook` is the two-sided book, `OrderbookSync` the filter on
  update ids, and `Replica` the message loop against an exchange that is a numbered
  log of absolute level writes, summarised by linked events over a channel that may
  drop but not reorder.
- **Position, quoting, simulation.** `FixedPoint` and `Position` do the accounting,
  `Simulator` the matching, `InventoryManager`, `RiskManager` and `QuoteEngine` the
  quoting, and `ClosedLoop` the feedback in which sizes depend on the position and
  fills change it; `ClosedLoopExact` says for which settings it keeps the position limit.
- **Codecs.** `SymbolCodec` packs symbols into two words, `Checksum` is the
  table-driven checksum and how it differs from CRC-32C, `DecimalParser` reads prices, `BatchMessage` is the wire
  format. `Bits`, `Errors`, `Reals`, `RustInt` and `Wrappers` hold what
  several modules share.
- **Circuit breaker.** `CircuitBreaker` judges sequential calls by the history of
  events they produce.

Methods of classes and loops follow the source's control flow and are proved against
specification functions; the lemmas in the table are about those functions, for all
inputs or all runs. `dafny verify dfyconfig.toml` checks everything.

## What the proofs found

Several properties hold only under a condition. Where nothing else is said below, the lemmas
give the exact one.

- The leaky bucket's admission bound fails exactly when some weight whose thousandfold
  exceeds a u32 wraps to a requirement that a full bucket covers. The first such weight
  costs 0.704 tokens, so unless a full bucket holds less than that, every weight times 1000
  has to fit. Capacity times 1000 may itself wrap harmlessly. Capacities above 4294967 are
  covered for rates from one milli-token a second to four tokens a nanosecond.
- The stored tokens can exceed an exact bucket, by less than one milli-token: a refill
  that rounds to zero leaves `last_refill` alone even when the bucket is full, so a
  fraction that an exact bucket would have spilled is credited later.
- The fixed window's cumulative bound fails for limit u32::MAX alone. The limit of a single
  window is kept on every run by one thread only: each further thread can store its zero
  late, so n threads let at most n limits through in one window, and for every n some run
  reaches that.
- `MultiLimiter` is described as acquiring from all members atomically
  (mm_ratelimit/src/multi_limiter.rs:28), but a refusal leaves the earlier members charged:
  a call is all-or-nothing exactly when the first member refuses or all would grant, which
  a caller can read off the members' quotas.
- Snapshots are fetched 100 levels deep. A deeper book is therefore only partly known: the
  replica shows nothing false, and is exact at the prices a snapshot settles or an event has
  mentioned; with complete snapshots it is the exchange's book. Its best price is the
  exchange's as long as it is no worse than the worst price the last snapshot listed (a
  sufficient condition).
- The closed-loop position limit holds for base sizes up to 0.4 of the limit, and whatever the
  base when the order limit is below 35 per cent of it, as it is with the 10 and 1 of
  config/strategy.toml:17,20: the size check then refuses the quotes that would not fit. For
  limits that are multiples of five units of the last decimal the exact condition is given: a
  larger base overruns from four fifths of the limit if one and a half times the base passes
  the size check, or from 71 per cent of it, where the engine does not unwind aggressively
  yet, if four fifths of the base does (the whole base where the engine cannot accumulate).
- `asymmetric_sizes` is documented as reducing the ask when long
  (mm_strategy/src/inventory_manager.rs:131-132); the code reduces the bid, which is what the
  position limit needs. Urgency is documented as 0 to 1 but reaches 2 at the limit, and the
  emergency action, described as a breached limit, starts at 80 per cent of it.
- The order size check looks at magnitudes, so it accepts negative sizes.
- A simulated order that keeps crossing is certain to leave the active orders only if the
  fill factor is at least one half; one placed without a positive quantity never leaves.
- A quote ladder recedes level by level while offsets stay within 100 per cent, which is
  sufficient and not necessary; a spacing large enough to wrap can bring an accepted level
  inside the first.
- Symbols with F or lower-case hex digits, longer or A-terminated 6-bit symbols, and
  symbols with NUL do not come back from their packed form.
- Batches with more than 65535 levels a side are truncated in their counts. Parsing does
  not compare the length with the counts, so trailing bytes, and a last level that
  overlaps the checksum, are accepted.
- The software checksum shifts right with an unreversed polynomial
  (mm_binary/src/checksum.rs:4,62-68), so it is not the CRC-32C of section 12.1 of RFC 3720
  that the hardware path computes. The three top bits of its result are always set, and a
  batch sent by one path is accepted by the other only if the two happen to agree on it. That
  condition is necessary; when exactly two checksums agree has no shorter form.
- A decimal with 27 or more places divides by a power of ten that has wrapped, and with
  72 or more the wrapped divisor is zero and parsing panics; no such text of more than 2^44
  units is read correctly. Which of the smaller ones are is exact only while the digits fit
  an i64.

## Model

| member | source | states |
|---|---|---|
| LeakyBucketThreads.BoundHoldsExactly | mm_ratelimit/src/leaky_bucket.rs:68-138 | for any number of threads and any interleaving of their atomic steps and clock ticks, the weight granted stays within capacity plus rate times elapsed, if and only if no weight asked for has a wrapped cost that a full bucket covers; for every capacity up to 4294967, and for larger ones at rates above 0 and up to 4294967295000 milli-tokens per second |
| LeakyBucketThreads.FullCosts | mm_ratelimit/src/leaky_bucket.rs:122-137 | when a full bucket holds at least 0.704 tokens that condition is that every weight, times 1000, fits a u32 |
| LeakyBucketThreads.RoundsOverspend | mm_ratelimit/src/leaky_bucket.rs:68-138 | a wrapped weight asked for again and again, each time as soon as its small cost has been earned, breaks the bound of any capacity |
| LeakyBucketThreads.AdmissionBound | mm_ratelimit/src/leaky_bucket.rs:68-138 | tokens, plus 1000 per unit granted, plus credits claimed by moving `last_refill` but not yet added, never exceed the capacity plus what the rate has earned up to `last_refill`, which never passes the clock, unless a weight with a wrapped cost is asked for that a full bucket covers |
| LeakyBucketThreads.SegmentBound | mm_ratelimit/src/leaky_bucket.rs:68-138 | the same between any two points of a run, with `last_refill` and the clock never going back |
| LeakyBucketThreads.StepPaysForItself | mm_ratelimit/src/leaky_bucket.rs:68-138 | one atomic step of one thread, or a clock tick, adds to tokens + grants + pending credits no more than was earned by the move of `last_refill` |
| LeakyBucketThreads.StepKeepsInv | mm_ratelimit/src/leaky_bucket.rs:68-138 | every step keeps what threads have read and claimed consistent with the shared words, whether or not a weak exchange fails spuriously |
| LeakyBucketThreads.WrappedWeightOverspends | mm_ratelimit/src/leaky_bucket.rs:122-137 | a five-step run with one call whose weight times 1000 wraps to a small number breaks the bound, for every non-zero capacity whose thousandfold fits a u32 |
| LeakyBucketThreads.SoloCallIsSequential | mm_ratelimit/src/leaky_bucket.rs:114-138 | a call that runs without interference does to the shared words exactly what the sequential limiter does, and grants exactly when it does |
| LeakyBucketThreads.EveryCallIsSettled | mm_ratelimit/src/leaky_bucket.rs:114-138 | over any run, whenever a call for a weight ends it has been granted and paid for, or the tokens at that moment are fewer than its cost: a call that lost or spuriously failed an exchange is never refused for that |
| LeakyBucketThreads.StepOfCall | mm_ratelimit/src/leaky_bucket.rs:68-138 | one atomic step of a call either keeps the call going, with nothing granted, or settles it |
| LeakyBucketThreads.CreditArrives | mm_ratelimit/src/leaky_bucket.rs:97-108 | a claimed credit is carried through lost and spuriously failed exchanges until the tokens hold it, saturated and capped at capacity |
| LeakyBucketThreads.ClaimCarriesEarnings | mm_ratelimit/src/leaky_bucket.rs:73-95 | `last_refill` moves only by a winning exchange, to the clock reading of that thread, which then carries what was earned since the old value |
| LeakyBucket.CreditAtMostEarned | mm_ratelimit/src/leaky_bucket.rs:73-95 | the credit computed from the wrapping u64 product and truncating u32 cast is never more than elapsed time times rate |
| LeakyBucket.EarnedAccumulates | mm_ratelimit/src/leaky_bucket.rs:80 | credits earned over consecutive intervals, each rounded down, never add up to more than the whole interval earns |
| LeakyBucket.Limiter.constructor | mm_ratelimit/src/leaky_bucket.rs:42-55 | a new bucket is full, with `last_refill` at the time of creation |
| LeakyBucket.Limiter.Refill | mm_ratelimit/src/leaky_bucket.rs:68-109 | one thread: the new tokens and `last_refill`, including that a zero credit changes neither and that a credit is capped at capacity |
| LeakyBucket.Limiter.TryAcquire | mm_ratelimit/src/leaky_bucket.rs:114-138 | one thread: refill, then grant exactly when the tokens cover the requirement, which is then deducted; weight 0 always succeeds and touches nothing |
| LeakyBucket.Limiter.Available | mm_ratelimit/src/leaky_bucket.rs:158-161 | refills, then reports whole tokens |
| LeakyBucket.Limiter.Reset | mm_ratelimit/src/leaky_bucket.rs:167-171 | back to the state of a new bucket |
| LeakyBucketExact.StaysCloseToExact | mm_ratelimit/src/leaky_bucket.rs:68-109 | over any timely run with the same grants, the stored tokens exceed an exact rational bucket by less than one milli-token and lag it by less than one milli-token for each credited refill plus one |
| LeakyBucketExact.DecisionsTrackExact | mm_ratelimit/src/leaky_bucket.rs:114-138 | after any timely run a granted call is covered by the exact bucket but for less than one milli-token, and a call the exact bucket covers with the accumulated lag to spare is granted |
| LeakyBucketExact.NeverAboveExactCondition | mm_ratelimit/src/leaky_bucket.rs:73-95 | the stored tokens never exceed the exact bucket on any run if and only if the rate is zero or at least one milli-token per nanosecond |
| LeakyBucketExact.FractionKeptWhileFull | mm_ratelimit/src/leaky_bucket.rs:80-84 | for every slower rate, a run in which the fraction earned while the bucket was full is credited after it has been drained |
| LeakyBucketExact.RunKeepsInv | mm_ratelimit/src/leaky_bucket.rs:68-109 | the relation between stored and exact level that every refill and grant keeps, through clipping at capacity |
| FixedWindowThreads.BoundHoldsExactly | mm_ratelimit/src/fixed_window.rs:69-132 | under every interleaving, the total weight granted is at most limit times one plus the number of windows `window_start` has advanced, and grants since the last store of 0 are exactly `count`, if and only if the limit is below u32::MAX |
| FixedWindowThreads.RunKeepsInv | mm_ratelimit/src/fixed_window.rs:69-132 | `window_start` stays a whole number of windows from its origin and never passes the clock; `count` is at most the limit; resets claimed but not yet stored are accounted for |
| FixedWindowThreads.ClaimKeepsInv | mm_ratelimit/src/fixed_window.rs:83-92 | winning the exchange on `window_start` pays for one later store of 0, however late |
| FixedWindowThreads.StoreKeepsInv | mm_ratelimit/src/fixed_window.rs:89-92 | storing 0 forgets only grants that the advance of `window_start` has already paid for |
| FixedWindowThreads.SaturationDisarmsLargestLimit | mm_ratelimit/src/fixed_window.rs:113-131 | with limit u32::MAX and any number of threads two calls of full weight are both granted in one window, because the saturating addition never exceeds the limit |
| FixedWindowThreads.WindowRespectedExactly | mm_ratelimit/src/fixed_window.rs:69-132 | no single window ever lets more than the limit through, on any run, if and only if there is no thread, or one thread and a limit below u32::MAX |
| FixedWindowThreads.WindowBound | mm_ratelimit/src/fixed_window.rs:69-132 | under every interleaving of n threads a single window lets at most n limits through |
| FixedWindowThreads.StalledResetsMultiplyAWindow | mm_ratelimit/src/fixed_window.rs:86-92 | for every n a run of n threads in which all but one stall between the exchange and the store, and one window lets exactly n limits through |
| FixedWindowThreads.RunKeepsWindowInv | mm_ratelimit/src/fixed_window.rs:69-132 | grants of the window in progress are at most its count plus one limit for each thread that could still have stored a late zero |
| FixedWindowThreads.EveryCallIsSettled | mm_ratelimit/src/fixed_window.rs:104-132 | over any run, whenever a call for a weight ends it has been granted and counted, or the saturated sum at that moment exceeds the limit |
| FixedWindowThreads.StepOfCall | mm_ratelimit/src/fixed_window.rs:69-132 | one atomic step of a call either keeps the call going, with nothing granted, or settles it |
| FixedWindowThreads.LostExchangeStartsOver | mm_ratelimit/src/fixed_window.rs:110-131 | after a lost or spuriously failed exchange on the count the call is where a new call with the same weight would be |
| FixedWindowThreads.ClaimOwesZero | mm_ratelimit/src/fixed_window.rs:83-92 | `window_start` moves only by a winning exchange, after which that thread is about to store 0 |
| FixedWindowThreads.ClaimedZeroIsStored | mm_ratelimit/src/fixed_window.rs:89-92 | the 0 owed is stored, whatever has been counted meanwhile |
| FixedWindowThreads.SoloCallIsSequential | mm_ratelimit/src/fixed_window.rs:69-132 | a call that runs without interference does to the shared words what the sequential limiter does, and grants exactly when it does |
| FixedWindow.OneThreadRespectsEveryWindow | mm_ratelimit/src/fixed_window.rs:69-132 | with one thread no window ever grants more than the limit, and `count` is exactly the weight granted in it |
| FixedWindow.GrantedExactlyWhenRoom | mm_ratelimit/src/fixed_window.rs:69-132 | after any sequential calls on a clock that does not go back, a call is granted if and only if its weight fits what is left of the limit in the window its time falls into, windows being numbered from the creation of the limiter |
| FixedWindow.AlwaysInWindow | mm_ratelimit/src/fixed_window.rs:69-132 | at any time the count is what was granted in the stored window, and nothing has been granted in a later one |
| FixedWindow.SpentWindowServesAgain | mm_ratelimit/src/fixed_window.rs:76-92 | a window that has run out is replaced at the next call by one that contains it, and the call is granted |
| FixedWindow.NewStartOnGrid | mm_ratelimit/src/fixed_window.rs:81-84 | a reset moves `window_start` forward by a positive whole number of windows to the latest grid point not after the clock |
| FixedWindow.Limiter.constructor | mm_ratelimit/src/fixed_window.rs:37-45 | a new limiter starts its first window with nothing counted |
| FixedWindow.Limiter.CheckAndResetWindow | mm_ratelimit/src/fixed_window.rs:69-99 | one thread: the window rolls exactly when a full window has elapsed |
| FixedWindow.Limiter.TryAcquire | mm_ratelimit/src/fixed_window.rs:104-132 | one thread: roll, then grant exactly when the saturated sum is within the limit |
| FixedWindow.Limiter.Available | mm_ratelimit/src/fixed_window.rs:169-173 | rolls, then reports the limit less the count, not below zero |
| FixedWindow.Limiter.Reset | mm_ratelimit/src/fixed_window.rs:179-183 | starts a new window at the current time |
| MultiLimiter.Composite.TryAcquire | mm_ratelimit/src/multi_limiter.rs:29-40 | exactly the members up to and including the first refusal have been driven, those before it charged; the call succeeds exactly when none refused |
| MultiLimiter.PrefixChargedUnique | mm_ratelimit/src/multi_limiter.rs:29-40 | that description determines the outcome: members after the call and number charged |
| MultiLimiter.CompositeWithinEveryBound | mm_ratelimit/src/multi_limiter.rs:29-40 | over any run of sequential calls the weight the composite grants is at most what each member granted, and every member stays within its own bound |
| MultiLimiter.AllOrNothingExactly | mm_ratelimit/src/multi_limiter.rs:29-40 | a call charges all members or none if and only if the first one refuses or every one grants, each asked by itself |
| MultiLimiter.AllOrNothingByQuota | mm_ratelimit/src/multi_limiter.rs:29-65 | the same in terms of what `available` reports: weight 0, more than the first quota, or within every quota |
| MultiLimiter.GrantsUpToQuota | mm_ratelimit/src/multi_limiter.rs:29-65 | a member grants a positive weight exactly when it is within the quota the member reports after catching up with its clock |
| MultiLimiter.RefusalKeepsCharge | mm_ratelimit/src/multi_limiter.rs:28-37 | an input outside that condition: refused by the second member with the first left charged |
| MultiLimiter.Composite.Available | mm_ratelimit/src/multi_limiter.rs:59-65 | the least quota over the members, u32::MAX when there are none |
| OrderBook.Book.UpdateBid | mm_orderbook/src/orderbook.rs:31-37 | one bid level is set, or removed by quantity 0; nothing else changes |
| OrderBook.Book.UpdateAsk | mm_orderbook/src/orderbook.rs:39-45 | one ask level is set, or removed by quantity 0; nothing else changes |
| OrderBook.Book.ApplyBatch | mm_orderbook/src/orderbook.rs:50-68 | both sides after all levels with a positive price, in order, and the batch timestamp |
| OrderBook.Book.TrimBook | mm_orderbook/src/orderbook.rs:70-84 | terminates and leaves on each side exactly the best `max_levels` levels with their quantities |
| OrderBook.KeepsBestUnique | mm_orderbook/src/orderbook.rs:70-84 | keeping the best n levels determines the trimmed side |
| OrderBook.TrimmedKeepsBest | mm_orderbook/src/orderbook.rs:70-84 | removing the worst price until few enough remain keeps the best ones |
| OrderBook.TrimmingKeepsTop | mm_orderbook/src/orderbook.rs:70-115 | the top n levels are unchanged by a trim to at least n levels |
| OrderBook.TopIsSortedPrefix | mm_orderbook/src/orderbook.rs:108-115 | the top n levels are as many as exist up to n, best first, with their quantities, and every level left out is worse |
| OrderBook.TrimmedBookIsSubBook | mm_orderbook/src/orderbook.rs:31-84 | over any interleaving of updates and trims, the trimmed book is a part of the untrimmed one with equal quantities |
| OrderBook.Book.TopBids | mm_orderbook/src/orderbook.rs:108-110 | the n best bids |
| OrderBook.Book.TopAsks | mm_orderbook/src/orderbook.rs:113-115 | the n best asks |
| OrderBook.Book.BestBid | mm_orderbook/src/orderbook.rs:86-88 | the single best bid, if any |
| OrderBook.Book.BestAsk | mm_orderbook/src/orderbook.rs:90-92 | the single best ask, if any |
| OrderBook.BidsFromHighest | mm_orderbook/src/orderbook.rs:86-110 | bids are listed from the highest price down, and every bid left out is lower than those listed |
| OrderBook.AsksFromLowest | mm_orderbook/src/orderbook.rs:90-115 | asks are listed from the lowest price up, and every ask left out is higher than those listed |
| OrderBook.TrimDropsOutside | mm_orderbook/src/orderbook.rs:70-84 | a trim drops bids below and asks above those it keeps |
| OrderBook.LastEntryCounts | mm_orderbook/src/orderbook.rs:50-68 | at each positive price a batch lists, the last entry decides: removed by quantity 0, set otherwise |
| OrderBook.UnlistedStays | mm_orderbook/src/orderbook.rs:50-68 | a batch leaves every price it does not list, and every price that is not positive, as it was |
| OrderbookSync.SyncState.constructor | mm_app/src/orderbook_sync.rs:26-37 | a fresh filter waits for the event that straddles the snapshot id |
| OrderbookSync.SyncState.ShouldProcessUpdate | mm_app/src/orderbook_sync.rs:41-99 | the whole new filter state and the decision, through the old-event, straddling, waiting, gap and continuity branches |
| OrderbookSync.SyncState.ShouldResync | mm_app/src/orderbook_sync.rs:107-132 | resync exactly when unsynchronised, at least 20 updates skipped in a row and no attempt in the last 30 seconds; the attempt time is then recorded |
| OrderbookSync.AcceptsExactly | mm_app/src/orderbook_sync.rs:41-99 | a waiting filter accepts exactly the update whose range contains the snapshot id, a synchronised one exactly those that continue the last or name no predecessor; accepting resets the skip count |
| OrderbookSync.SkipsAreCounted | mm_app/src/orderbook_sync.rs:41-99 | after a stretch of updates none of which is accepted the skip count has grown by its length and the filter is unsynchronised |
| OrderbookSync.ResyncsExactly | mm_app/src/orderbook_sync.rs:107-132 | a resync is asked for if and only if the filter is unsynchronised, 20 updates or more have been skipped in a row and the last attempt is at least 30 seconds old |
| OrderbookSync.StretchAsksForSnapshot | mm_app/src/orderbook_sync.rs:41-132 | a stretch of skipped updates that reaches 20 makes the filter ask for a snapshot |
| Replica.Node.HandleBatch | mm_app/src/bin/mm_strategy.rs:178-213 | one message of the main loop: apply, skip, or rebuild book and filter from a fetched snapshot |
| Replica.ReplicaIsPartOfExchange | mm_app/src/bin/mm_strategy.rs:77-91 | with snapshots of any depth, any in-order delivery with drops and any re-fetches, the local book never shows a level or quantity the exchange does not have, and is equal to it at every price the last snapshot settled (listed, or better than one listed) or an event applied since has mentioned |
| Replica.SnapshotIsPart | mm_app/src/bin/mm_strategy.rs:184-197 | a snapshot of the best levels is right about every price it lists and every better one |
| Replica.SummaryExtendsPart | mm_orderbook/src/orderbook.rs:50-68 | an event takes any part of the book in its range to a part of the book at its end, keeps every settled price settled and settles those it mentions |
| Replica.BestIsBest | mm_orderbook/src/orderbook.rs:86-92 | while every price ahead of the replica best is settled, it leads the exchange book with the same quantity |
| Replica.BestIsBestOnRun | mm_app/src/bin/mm_strategy.rs:178-213 | over any run, while the best price of the replica is no worse than the worst price its last snapshot listed, or that snapshot held the whole side, it is the best of the exchange with the same quantity |
| Replica.SettledStays | mm_app/src/bin/mm_strategy.rs:178-213 | what the snapshot the replica was last built from settles stays settled until the next one |
| Replica.ReplicaAgreement | mm_app/src/bin/mm_strategy.rs:178-213 | the full-depth case: with complete snapshots the local book equals the exchange book at the snapshot id before synchronisation and at the last processed id ever after |
| Replica.SummaryCatchesUp | mm_orderbook/src/orderbook.rs:50-68 | applying an event that summarises a range of the log to a book from anywhere inside that range gives the book at its end: overlap is harmless |
| Replica.AcceptedEventStraddles | mm_app/src/orderbook_sync.rs:64-98 | every event the filter accepts starts no later than the version shown and ends where the filter then is |
| Replica.SynchronisesOnStraddlingEvent | mm_app/src/orderbook_sync.rs:64-79 | an unsynchronised filter accepts an event if and only if the snapshot id lies in its range |
| Replica.GapIsNoticed | mm_app/src/orderbook_sync.rs:88-98 | a synchronised filter stays synchronised if and only if the event continues exactly where the last one ended |
| Replica.NothingAppliesAfterGap | mm_app/src/orderbook_sync.rs:88-94 | after a gap nothing is applied and the last processed id does not move until a new snapshot arrives |
| Replica.RecoversAfterGap | mm_app/src/bin/mm_strategy.rs:178-205 | a synchronised replica that loses an event is rebuilt from the snapshot fetched at the 20th event after the gap, unless an attempt was made in the 30 seconds before |
| Replica.StretchRebuilds | mm_app/src/bin/mm_strategy.rs:178-205 | the same from any point after the gap, for the event that makes it 20 |
| Replica.RebuildsExactly | mm_app/src/bin/mm_strategy.rs:178-205 | a skipped message rebuilds book and filter if and only if it is the 20th or a later one in a row, no attempt was made in the last 30 seconds, and a snapshot could be fetched; a failed fetch counts as an attempt |
| Replica.SkippedStretch | mm_app/src/bin/mm_strategy.rs:178-205 | up to 19 skipped events after a gap are counted and change nothing else |
| Position.Account.ApplyFill | mm_types/src/lib.rs:193-229 | the whole new position through open, add, reduce, exact close and flip, with wrapping and truncating arithmetic |
| Position.RoundingBound | mm_types/src/lib.rs:193-229 | over any fills without overflow, 10^8 times realised profit less entry price times quantity differs from exact cash flow by at most the sum of per-fill rounding budgets |
| Position.FillError | mm_types/src/lib.rs:193-229 | one fill, of any of the four kinds, drifts from exact cash accounting by at most its rounding budget |
| Position.TotalPnlTracksEquity | mm_types/src/lib.rs:185-234 | reported total profit at any mark is within the accumulated budget plus one unit of exact mark-to-market equity |
| Position.QuantityExact | mm_types/src/lib.rs:193-203 | without overflow the quantity is exactly the signed sum of the fills |
| Position.QuantityIsSignedSum | mm_types/src/lib.rs:193-203 | with or without overflow the quantity is the signed sum of the fills modulo 2^64 |
| Position.NetIsBoughtLessSold | mm_types/src/lib.rs:193-229 | the signed sum is what bids bought less what asks sold |
| Position.EntryAndProfit | mm_types/src/lib.rs:193-229 | opening and flipping set the entry price to the fill price, reducing keeps it, and opening and adding realise nothing |
| FixedPoint.MulRemainder | mm_types/src/lib.rs:79-83 | a fixed-point product misses the exact one by less than one unit |
| FixedPoint.DivRemainder | mm_types/src/lib.rs:89-93 | a fixed-point quotient times its divisor misses the dividend by less than the divisor |
| FixedPoint.RoundsToNearest | mm_types/src/lib.rs:16-18 | conversion from floating point rounds to the nearest unit, halves away from zero |
| FixedPoint.CutsTowardZero | mm_types/src/lib.rs:38-57 | a cast to an integer cuts toward zero |
| Simulator.OrderBookSimulator.constructor | mm_sim_executor/src/lib.rs:71-73 | an empty, flat simulator whose books reconcile |
| Simulator.OrderBookSimulator.UpdateMarketData | mm_sim_executor/src/lib.rs:148-274 | which orders are left, with what remaining, and which fills are appended, for some enumeration of the active orders; conservation, fresh ids, activation times and position are kept |
| Simulator.OrderBookSimulator.MatchOrders | mm_sim_executor/src/lib.rs:178-266 | the matching loop visits every active order once, in any order, and executes exactly those active, crossing and with a positive fill |
| Simulator.OrderBookSimulator.TouchOrder | mm_sim_executor/src/lib.rs:180-266 | one order: executed or left alone, position and fill list updated with it, finished exactly when nothing remains |
| Simulator.OrderBookSimulator.Retire | mm_sim_executor/src/lib.rs:268-273 | finished orders leave the active map and nothing else does |
| Simulator.OrderBookSimulator.PlaceOrder | mm_sim_executor/src/lib.rs:105-126 | a fresh id never used before, and the order active only after the configured latency |
| Simulator.OrderBookSimulator.PlaceOrdersFromQuote | mm_sim_executor/src/lib.rs:86-102 | one order for each side with a positive size, with consecutive fresh ids |
| Simulator.OrderBookSimulator.CancelOrder | mm_sim_executor/src/lib.rs:129-135 | only that order leaves the active map; true exactly when it was there |
| Simulator.OrderBookSimulator.CancelAllOrders | mm_sim_executor/src/lib.rs:138-144 | no order stays active; every order ever placed is still accounted for |
| Simulator.OrderBookSimulator.DrainFills | mm_sim_executor/src/lib.rs:81-83 | hands over the pending fills; drained followed by pending fills stays the whole history |
| Simulator.ExecutionReconciles | mm_sim_executor/src/lib.rs:219-264 | a fill moves the same quantity from remaining to the history and the position, so original = remaining + fills for every order ever placed |
| Simulator.IterationOrderDoesNotMatter | mm_sim_executor/src/lib.rs:178-266 | any two enumerations of the active orders change the net quantity equally |
| Simulator.OrderBookSimulator.PositionIsNet | mm_sim_executor/src/lib.rs:224-237 | in every valid state the position quantity is the signed sum of all fills, drained or pending, modulo 2^64 |
| Simulator.PositionIsNetOfHistory | mm_sim_executor/src/lib.rs:224-237 | the same of any history of i64 fills |
| Simulator.FillQuantityRange | mm_sim_executor/src/lib.rs:278-283 | a fill never exceeds what remains, for factors in [0, 1] |
| Simulator.ExecutedAtReachedPrice | mm_sim_executor/src/lib.rs:148-275 | every execution of a market update is at a price the market reached: the last trade, or without one the best opposite price, is not above the price of a bid nor below that of an ask |
| Simulator.ReachedOrderExecutes | mm_sim_executor/src/lib.rs:148-284 | every active order whose price the market reached, with half a unit or more due, is executed for the nearest whole number of units to the fraction due |
| Simulator.UnreachedOrderStays | mm_sim_executor/src/lib.rs:176-217 | an order that is not active yet, or whose price the market has not reached, is left as it is |
| Simulator.ActiveAfterLatency | mm_sim_executor/src/lib.rs:105-126 | an order becomes active 1000 nanoseconds for each microsecond of latency after it was placed |
| Simulator.QuoteBecomesOrders | mm_sim_executor/src/lib.rs:86-103 | a quote becomes a bid at its bid price and size and an ask at its ask price and size, each only with a positive size |
| Simulator.CrossingOrderLeaves | mm_sim_executor/src/lib.rs:178-273 | with a factor of at least one half an order of fewer than 2^n units is out of the active orders after n updates that cross it, and stays out |
| Simulator.RemainingOfTouched | mm_sim_executor/src/lib.rs:219-264 | an order through a sequence of crossing updates is left with what repeated fills of the fraction leave |
| Simulator.CompletesInLogarithmicallyManyUpdates | mm_sim_executor/src/lib.rs:278-283 | with a factor of at least one half those fills leave nothing of a quantity below 2^n after n steps |
| Simulator.LastUnitStuck | mm_sim_executor/src/lib.rs:219-283 | with a smaller factor an order of one unit never leaves the active orders |
| Simulator.EmptyOrderStays | mm_sim_executor/src/lib.rs:105-126 | an order placed without a positive quantity is never removed by market data |
| Simulator.CompletionCondition | mm_sim_executor/src/lib.rs:178-283 | every order with something left that keeps crossing leaves the active orders after finitely many updates if and only if the factor is at least one half |
| InventoryManager.UtilizationUnits | mm_strategy/src/inventory_manager.rs:101-131 | utilisation is the position over the limit, and the position is within the limit exactly when it is at most one |
| InventoryManager.SizeFactorRange | mm_strategy/src/inventory_manager.rs:118-128 | within the limit the size factor lies in [0, 1] |
| InventoryManager.RampsFollowPosition | mm_strategy/src/inventory_manager.rs:101-128 | a position further from flat is at least as urgent and has at most the size factor |
| InventoryManager.RampEnds | mm_strategy/src/inventory_manager.rs:101-128 | urgency is zero exactly up to half the limit, at most one exactly up to 80 per cent and two at the limit; full size exactly up to half the limit, none at it, a non-negative factor exactly within it |
| InventoryManager.EmergencyExactly | mm_strategy/src/inventory_manager.rs:177-200 | whatever the drift, the emergency action is taken exactly above 80 per cent of the limit |
| InventoryManager.ActionRegions | mm_strategy/src/inventory_manager.rs:178-252 | each of the five actions is taken in exactly one region of utilisation, distance from target and drift, with the limits 0.59, 0.71 and 0.8 that urgencies of 0.3, 0.7 and 1 come to |
| ClosedLoop.PositionStaysWithinLimit | mm_strategy/src/quote_engine.rs:181-209 | quotes sized from the current position, each accepted one replacing the last, and any partial or full fills between them keep the position within the limit, when the base size is at most 0.4 of it |
| ClosedLoop.QuoteIsSafe | mm_strategy/src/inventory_manager.rs:118-162 | either side of a quote can be filled whole without leaving the limit, through the size ramps and the urgency multipliers |
| ClosedLoop.StepKeepsSafe | mm_app/src/bin/mm_simulator.rs:130-136 | a replacing quote or a fill no larger than the open order keeps every open order affordable |
| ClosedLoop.OrdersRestUntilReplaced | mm_app/src/bin/mm_simulator.rs:115-136 | until a published quote replaces them, what leaves the resting orders has been filled and nothing else changes |
| ClosedLoop.QuoteCanBePublished | mm_strategy/src/quote_engine.rs:123-249 | if both sizes pass the order size check then, whatever the inventory skew up to 300 basis points, there is a market in which a quote with these sizes passes every risk check |
| ClosedLoop.RunsSafeExactlyWhenQuotesAre | mm_strategy/src/quote_engine.rs:181-249 | for every limit, base and order limit, no run from any position within the limit leaves it if and only if no quote reaches the confidence threshold or every quote whose sizes pass the check can be filled whole on either side |
| ClosedLoopExact.LimitHeldExactly | mm_strategy/src/inventory_manager.rs:118-252 | for a limit of 5k units of the last decimal, k at least 2, no run leaves it if and only if no confidence suffices, or neither overrun is possible: from four fifths with a base of 2k + 2 or more and one and a half times the base within the order limit, or from 71 per cent with the shrunk base beyond the room left and the smallest unwinding order within the order limit |
| ClosedLoopExact.SmallOrdersHoldLimit | mm_strategy/src/risk_manager.rs:77-98 | with an order limit below 35 per cent of the position limit no run leaves the position limit, whatever the base |
| ClosedLoopExact.AggressiveOverrunHappens | mm_strategy/src/inventory_manager.rs:118-189 | at four fifths of the limit the quote passes the size check and cannot be afforded |
| ClosedLoopExact.QuietOverrunHappens | mm_strategy/src/inventory_manager.rs:118-252 | at 71 per cent of the limit, long or short, some drift gives a quote that passes the size check and cannot be afforded |
| ClosedLoopExact.QuietIsSmallest | mm_strategy/src/quote_engine.rs:181-209 | no position and no drift give an unwinding order smaller than the one at 71 per cent of the limit |
| ClosedLoopExact.TwoFifthsIsTight | mm_strategy/src/inventory_manager.rs:118-162 | for every limit of at least 15 units a base of 0.4 of it is safe, and one three units larger is not if one and a half times it passes the size check |
| RiskManager.Manager.constructor | mm_strategy/src/risk_manager.rs:22-30 | the default daily loss limit, nothing lost, not killed |
| RiskManager.Manager.CheckQuote | mm_strategy/src/risk_manager.rs:131-220 | accepts exactly the quotes that pass the kill switch, daily loss, position, crossing, distance and size checks |
| RiskManager.Manager.CheckOrderSize | mm_strategy/src/risk_manager.rs:77-95 | accepts exactly non-zero sizes whose magnitude is within the order limit |
| RiskManager.Manager.Kill | mm_strategy/src/risk_manager.rs:223-230 | no quote is accepted once killed |
| RiskManager.Manager.Resume | mm_strategy/src/risk_manager.rs:233-237 | only the kill switch is cleared |
| RiskManager.Manager.UpdateDailyPnl | mm_strategy/src/risk_manager.rs:38-45 | the daily result accumulates with wrapping addition |
| RiskManager.AcceptedPrices | mm_strategy/src/risk_manager.rs:169-204 | an accepted quote is uncrossed, positive and both prices are within ten per cent of the mark |
| RiskManager.NearMark | mm_strategy/src/risk_manager.rs:181-204 | the distance check is exactly nine tenths to eleven tenths of the mark, in integers |
| RiskManager.AcceptsExactly | mm_strategy/src/risk_manager.rs:131-220 | at a positive mark a quote is accepted if and only if quoting is not killed, the day has not lost more than allowed, and position, sizes, prices and confidence meet their limits in integer units |
| RiskManager.LossStopsQuoting | mm_strategy/src/risk_manager.rs:60-118 | with the default limit no quote is accepted once the day has lost more than 1000, and before that the loss limit refuses none |
| RiskManager.MarkNotPositive | mm_strategy/src/risk_manager.rs:183-210 | a negative mark passes every price and a zero mark only the price zero |
| RiskManager.SizeCheckIgnoresSign | mm_strategy/src/risk_manager.rs:77-95 | the size check does not see the sign: a negative size passes exactly when its magnitude does |
| QuoteEngine.Engine.GenerateQuotes | mm_strategy/src/quote_engine.rs:95-256 | the quote computed from position, action and signals, or none when the risk check refuses it |
| QuoteEngine.Engine.GenerateLadderQuotes | mm_strategy/src/quote_engine.rs:259-322 | at most max(1, levels) quotes, each accepted by the risk check, level i the documented offset of the first, stopping at the first refused level |
| QuoteEngine.SizesLeanAgainstPosition | mm_strategy/src/quote_engine.rs:181-209 | unless accumulating, the side that unwinds the position is quoted at least as large as the side that adds to it; a flat book is quoted evenly |
| QuoteEngine.QuoteEnclosesFairValue | mm_strategy/src/quote_engine.rs:153-170 | bid at or below, ask at or above fair value whenever the skew is no wider than the spread |
| QuoteEngine.SkewMovesBothPrices | mm_strategy/src/quote_engine.rs:153-170 | raising the skew never lowers either price |
| QuoteEngine.LadderIsSane | mm_strategy/src/quote_engine.rs:259-322 | every ladder quote is uncrossed, within ten per cent of the mid price, and has positive sizes within the order limit |
| QuoteEngine.ModestLadderRecedes | mm_strategy/src/quote_engine.rs:268-318 | by level bids do not rise, asks do not fall and sizes do not grow, for mid prices up to 4 * 10^18 units and a whole ladder within 10000 basis points |
| QuoteEngine.LadderRecedes | mm_strategy/src/quote_engine.rs:268-318 | the same wherever the offset prices of the levels compared stay within an i64 |
| QuoteEngine.WrappedLadderClosesIn | mm_types/src/lib.rs:38-50 | an accepted two-level ladder whose offsets wrap, so that the second level has a higher bid and a lower ask |
| QuoteEngine.ModestQuoteFits | mm_strategy/src/quote_engine.rs:163-170 | a positive fair value up to 4 * 10^18 units and spreads within 10000 basis points keep the quote prices within an i64 |
| QuoteEngine.SpreadsAroundFairValue | mm_strategy/src/quote_engine.rs:123-170 | fair value is the mid price moved by the drift, the two spreads differ by the skew and together are the base spread for the action |
| QuoteEngine.HalfSpreadShare | mm_strategy/src/quote_engine.rs:138-170 | the half spread is 0.25, 0.35, 0.5, 0.5 or 0.6 of the base spread by action |
| QuoteEngine.AdjustmentIsShare | mm_types/src/lib.rs:38-52 | a change by basis points is the exact share of the price cut toward zero, the basis points themselves cut to four decimals |
| QuoteEngine.LevelIsShare | mm_strategy/src/quote_engine.rs:270-322 | level n of a ladder has the (n + 1)-th part of the base sizes and confidence and lies n spacings outside the base prices |
| QuoteEngine.LevelsRecede | mm_types/src/lib.rs:38-57 | monotonicity of the truncating basis-point and scalar arithmetic the ladder rests on |
| SymbolCodec.RoundTripsExactly | mm_binary/src/compressed_string.rs:25-360 | for every scheme and accepted string: decoding gives the string back if and only if it has no lower-case or F hex digit, no 6-bit length over 19, run of three As or final A, and no NUL, respectively |
| SymbolCodec.PlainReads | mm_binary/src/compressed_string.rs:209-360 | the 4-, 5- and 7-bit decoders return exactly the characters before the first F or NUL, hex letters upper-cased, including the character that spans both words |
| SymbolCodec.AlphaNumericReads | mm_binary/src/compressed_string.rs:284-330 | the 6-bit fields read are the symbol followed by an A for every empty field |
| SymbolCodec.CutKeepsWhole | mm_binary/src/compressed_string.rs:310-326 | cutting at the first three As restores the symbol if and only if there are at least three padding fields, no run inside it and no A at its end |
| SymbolCodec.FieldHolds | mm_binary/src/compressed_string.rs:59-88 | field j of the packed words is the j-th character, whatever is packed after it |
| SymbolCodec.FieldOverflows | mm_binary/src/compressed_string.rs:64-86 | F packs to 16, so its field reads as zero |
| SymbolCodec.LettersRoundTrip | mm_binary/src/compressed_string.rs:34-36 | an upper-case symbol of at most 25 letters with one beyond F takes the 5-bit branch and always comes back |
| SymbolCodec.StoredFormsDiffer | mm_binary/src/compressed_string.rs:25-360 | two different symbols that come back unchanged never share a stored form |
| SymbolCodec.Encode | mm_binary/src/compressed_string.rs:49-198 | which strings each encoder accepts, which error and position it reports, and the words it packs |
| SymbolCodec.Pack | mm_binary/src/compressed_string.rs:69-90 | the packing loop with its low-word, high-word and spanning cases |
| SymbolCodec.FromStr | mm_binary/src/compressed_string.rs:25-47 | the first of the four schemes that accepts the string, the empty string as hex, or the length error |
| SymbolCodec.ChosenExactly | mm_binary/src/compressed_string.rs:25-47 | which of the four schemes an ASCII symbol is stored under, by its characters and length |
| SymbolCodec.CodeByAscii | mm_binary/src/compressed_string.rs:59-190 | the number packed for every character of the four alphabets |
| SymbolCodec.Decode | mm_binary/src/compressed_string.rs:200-207 | the decoder of the scheme |
| SymbolCodec.DecodePlain | mm_binary/src/compressed_string.rs:209-360 | the loop of the 4-, 5- and 7-bit decoders, stopping at the first field with no symbol |
| SymbolCodec.DecodeAlphaNumeric | mm_binary/src/compressed_string.rs:284-330 | the 6-bit loop, dropping the first three As in a row and all that follows |
| SymbolCodec.ReadNibble | mm_binary/src/compressed_string.rs:214-229 | four bits at any position of the 128-bit number |
| SymbolCodec.ReadField | mm_binary/src/compressed_string.rs:254-267 | the field at any position, also where it lies in both words |
| Checksum.SoftwareCrc32c | mm_binary/src/checksum.rs:45-55 | for every byte string the table-driven checksum is the bit-serial one |
| Checksum.SoftwareIsNotCrc32c | mm_binary/src/checksum.rs:4-55 | the software checksum is not the CRC-32C that the hardware path computes: on every non-empty string its three top bits are set, so the two can only agree where those of the CRC-32C are, and on the byte 0x7F they differ |
| Checksum.ChecksumsOf7F | mm_binary/src/checksum.rs:45-73 | the software and the CRC-32C checksum of the byte 0x7F |
| Checksum.PolynomialsAreReversed | mm_binary/src/checksum.rs:4 | the polynomial is used unreversed in a register that shifts right; the CRC-32C needs its bits reversed |
| Checksum.SerialContinues | mm_binary/src/checksum.rs:45-55 | bytes are processed first to last: the checksum of a concatenation continues that of its first part |
| Checksum.GenerateTable | mm_binary/src/checksum.rs:57-73 | entry i is i put through eight bit steps |
| Checksum.TableEntry | mm_binary/src/checksum.rs:60-70 | the inner loop of the table |
| Checksum.TableIdentity | mm_binary/src/checksum.rs:49-52 | eight bit steps are a shift by a byte and one look-up, for words of any size |
| Checksum.BitStepsLinear | mm_binary/src/checksum.rs:62-68 | any number of bit steps distributes over exclusive or |
| Checksum.SerialFits | mm_binary/src/checksum.rs:45-55 | the running checksum never leaves 32 bits |
| DecimalParser.ParsesExactly | mm_binary/src/fixed_point.rs:19-72 | with at most 26 decimals the result is the sign times 10^8 times the decimal value, cut toward zero, if and only if the scaled value (up to 8 decimals) or the digits as one number (more) fit an i64 |
| DecimalParser.LongTextExactly | mm_binary/src/fixed_point.rs:61-64 | with more decimals the true result is 0, and it is returned if and only if the digits are below the wrapped power of ten |
| DecimalParser.PanicsExactly | mm_binary/src/fixed_point.rs:61-64 | the divisor wraps to zero, and parsing panics, if and only if there are at least 72 decimals |
| DecimalParser.LongTextLosesLargeValues | mm_binary/src/fixed_point.rs:61-64 | with more than 26 decimals, whatever the digits, no result exceeds 2^44 units, so no text of a larger value is read correctly |
| DecimalParser.UnitsAreMeaning | mm_binary/src/fixed_point.rs:52-64 | padding and truncating the digits is multiplying the real value by 10^8 and rounding down |
| DecimalParser.Parse | mm_binary/src/fixed_point.rs:19-72 | which byte strings are accepted, which error and byte are reported otherwise, and the outcome for accepted ones |
| DecimalParser.AcceptedExactly | mm_binary/src/fixed_point.rs:19-50 | accepted text is an optional minus followed by digits with at most one point, and nothing else is needed |
| DecimalParser.MinusNegates | mm_binary/src/fixed_point.rs:26-70 | a minus in front negates the value |
| DecimalParser.PlaceValues | mm_binary/src/fixed_point.rs:35-50 | a digit follows ten times the number before it, and a tenth of what follows the point |
| DecimalParser.Scan | mm_binary/src/fixed_point.rs:35-50 | the scanning loop: digits accumulated with wrapping, position of the point, first offending byte |
| DecimalParser.Rescale | mm_binary/src/fixed_point.rs:55-70 | pad, exact and truncate cases, then the sign |
| BatchMessage.RoundTripsExactly | mm_binary/src/orderbook_message.rs:153-244 | a message comes back with the same header fields and the same levels in order if and only if neither side has more than 65535 levels |
| BatchMessage.ReencodesExactly | mm_binary/src/orderbook_message.rs:153-244 | bytes that were accepted serialise back to themselves if and only if their length is the size of their content |
| BatchMessage.TrailingBytesAccepted | mm_binary/src/orderbook_message.rs:194-244 | any bytes between the levels and a matching checksum are accepted and ignored, and re-encoding differs exactly when there are any |
| BatchMessage.LevelOverlapsChecksum | mm_binary/src/orderbook_message.rs:225-241 | a message whose last ask ends in the checksum itself is accepted, four bytes short of its size, and does not re-encode to itself |
| BatchMessage.MixedChecksums | mm_binary/src/orderbook_message.rs:187-206 | when the two ends compute different checksum functions a message is accepted if and only if they agree on it |
| BatchMessage.AcceptedBytes | mm_binary/src/orderbook_message.rs:194-244 | what is accepted is at least 60 bytes of type 3 ending in the checksum of the rest, with as many levels as its counts say |
| BatchMessage.RefusedBytes | mm_binary/src/orderbook_message.rs:194-244 | what is refused and why, in the order length, checksum, type, missing levels |
| BatchMessage.HeaderOnTheWire | mm_binary/src/orderbook_message.rs:153-176 | every header field is at its offset, little-endian, with the counts cut to 16 bits |
| BatchMessage.BidsOnTheWire | mm_binary/src/orderbook_message.rs:58-64 | bid i is at byte 56 + 16 i, price first |
| BatchMessage.AsksOnTheWire | mm_binary/src/orderbook_message.rs:153-185 | asks follow the bids, price first |
| BatchMessage.ChecksumOnTheWire | mm_binary/src/orderbook_message.rs:187-191 | the last four bytes are the checksum of all before them |
| BatchMessage.OrderBookBatchMessage.ToBytes | mm_binary/src/orderbook_message.rs:153-191 | the header with counts cut to 16 bits, the levels, the checksum of all that; as many bytes as `size()` says |
| BatchMessage.OrderBookBatchMessage.FromBytes | mm_binary/src/orderbook_message.rs:194-244 | on any byte string, without an index out of range: too short, wrong checksum, wrong type, levels running out, or the parsed message |
| BatchMessage.ParseLevels | mm_binary/src/orderbook_message.rs:225-241 | a level loop: all levels from the offset, or the bytes left over when they run out |
| BatchMessage.LevelFromBytes | mm_binary/src/orderbook_message.rs:66-72 | the first 16 bytes as two signed words, or too short |
| BatchMessage.LevelReadsBack | mm_binary/src/orderbook_message.rs:58-72 | every level is read back from its bytes |
| BatchMessage.LevelWritesBack | mm_binary/src/orderbook_message.rs:58-72 | every 16 bytes are written back from the level they parse to |
| BatchMessage.HeaderReadsBack | mm_binary/src/orderbook_message.rs:162-224 | every header field is read back at its offset, whatever follows |
| BatchMessage.OrderBookBatchMessage.NewWithIds | mm_binary/src/orderbook_message.rs:93-119 | message type 3, counts 0, no levels |
| BatchMessage.OrderBookBatchMessage.AddBids | mm_binary/src/orderbook_message.rs:134-138 | the levels appended in order |
| BatchMessage.OrderBookBatchMessage.AddAsks | mm_binary/src/orderbook_message.rs:141-145 | the levels appended in order |
| CircuitBreaker.NoRunWhileOpen | mm_http/src/circuit_breaker.rs:126-201 | over any sequential calls on a monotone clock, no wrapped function starts between an opening and the end of the open timeout |
| CircuitBreaker.TripsExactly | mm_http/src/circuit_breaker.rs:219-243 | the circuit opens directly after a run that failed while probing, or failed while closed with enough requests and a high enough failure share in the window, and at no other time |
| CircuitBreaker.RecoversExactly | mm_http/src/circuit_breaker.rs:204-216 | the circuit closes directly after max(1, success_threshold) successes in a row since probing began, and at no other time |
| CircuitBreaker.ResetsExactly | mm_http/src/circuit_breaker.rs:169-309 | over any sequential calls, a call starts a new window if and only if the old one has run out when it enters, before anything else, so no call is counted in a window that had run out |
| CircuitBreaker.RunsExactly | mm_http/src/circuit_breaker.rs:126-201 | the wrapped function runs if and only if the circuit is not open or the check finds the open timeout over |
| CircuitBreaker.TooManyExactly | mm_http/src/circuit_breaker.rs:219-243 | the trip condition is a share of failures of at least the threshold among enough admitted calls |
| CircuitBreaker.CountsByPosition | mm_http/src/circuit_breaker.rs:169-309 | admissions and failures are the numbers of those events since the last start of a window, which is when it started |
| CircuitBreaker.PhaseByPosition | mm_http/src/circuit_breaker.rs:146-243 | the circuit is open since the last trip, half open since probing began, and closed otherwise |
| CircuitBreaker.ClosedCountsAreExact | mm_http/src/circuit_breaker.rs:169-243 | while closed the failure counter is the number of failed runs since the last window reset or close, and never exceeds the calls admitted |
| CircuitBreaker.HistoryIsLegal | mm_http/src/circuit_breaker.rs:126-309 | every run of calls produces only events the rules allow after what came before |
| CircuitBreaker.CallIsLegal | mm_http/src/circuit_breaker.rs:126-144 | one call keeps the rules and leaves nothing pending |
| CircuitBreaker.CircuitBreaker.constructor | mm_http/src/circuit_breaker.rs:111-123 | closed, with empty counters and a window that starts now |
| CircuitBreaker.CircuitBreaker.ResetWindowIfNeeded | mm_http/src/circuit_breaker.rs:297-309 | counters cleared and the window restarted exactly when it has run out |
| CircuitBreaker.CircuitBreaker.CheckAllow | mm_http/src/circuit_breaker.rs:169-201 | admitted, refused or probing, with the fields agreeing with the history |
| CircuitBreaker.CircuitBreaker.RecordSuccess | mm_http/src/circuit_breaker.rs:204-216 | the history after a success, and the fields agreeing with it |
| CircuitBreaker.CircuitBreaker.RecordFailure | mm_http/src/circuit_breaker.rs:219-243 | the history after a failure, and the fields agreeing with it |
| CircuitBreaker.CircuitBreaker.Run | mm_http/src/circuit_breaker.rs:126-144 | one whole call: the wrapped function runs only if admitted, and the history grows by exactly the events of that call |

## Left out

- Memory ordering: the atomic operations are modelled as sequentially consistent.
- Rate limiter `reset` in concurrent runs: it stores its words unconditionally and may move them back; it is modelled for one thread.
- The `acquire` futures and their back-off, and nested `MultiLimiter` members.
- The nanosecond clock's u64 wrap-around after 584 years.
- Floating-point rounding, and the saturation of float-to-integer casts: configuration factors, rates in basis points, failure rates and sizes given as f64 are reals.
- Drift, confidence, volatility, base spread and inventory skew: they are arbitrary inputs of quoting, with confidence between 0.1 and 1 in the closed loop.
- Division by zero in `FixedPoint::div`: it panics in the source and is reachable from `apply_fill` only with a quantity of i64::MIN; the model returns 0.
- The simulator's u64 order ids wrapping, and its logging.
- Events that are duplicated, reordered or carry a previous id of 0, and snapshots that are not the best levels of the book at their id.
- Simultaneous callers of the circuit breaker, its asynchronous call and its usize counters wrapping.
- Record methods of the circuit breaker called outside `call`.
- The hardware checksum instruction: it is taken to compute CRC-32C bit by bit. Batches take the checksum function as a parameter, the same at both ends except in MixedChecksums.
- Checksum.SoftwareIsNotCrc32c: gives a necessary condition for the two checksums to agree on a non-empty string, not a sufficient one.
- LeakyBucketExact.DecisionsTrackExact: between the two margins a decision may go either way.
- The fixed-layout message structs, JSON, networking, files, configuration, messaging and logging.
- The plain getters of all components, mid price, spread, daily-loss and heartbeat bookkeeping beyond what quoting consults.
- The four symbol encoders are one method with the scheme as a parameter, and the 4-, 5- and 7-bit decoders another: their loops differ only in width, alphabet and bit reader.
- The decimal parser's scanning loop and final scaling are separate methods.
- QuoteEngine.QuoteEnclosesFairValue: stated for a positive fair value and prices that stay within an i64, which ModestQuoteFits gives from what a caller can check.
- QuoteEngine.SkewMovesBothPrices: stated for a positive fair value and prices that stay within an i64.
- QuoteEngine.LevelsRecede: stated for levels whose offset prices stay within an i64.
- QuoteEngine.LadderRecedes: stated for levels whose offset prices stay within an i64, because a wrapped offset can close the ladder in.
- DecimalParser.LongTextExactly: stated for texts whose digits fit an i64 as one number; with more digits both the number and the divisor have wrapped, and only LongTextLosesLargeValues speaks.
- LeakyBucketThreads.BoundHoldsExactly: capacities above 4294967 with a rate of 0 or above 4294967295000 milli-tokens per second are left out of the failing half; AdmissionBound covers them.
- ClosedLoopExact.LimitHeldExactly: stated for limits that are multiples of five units of the last decimal, from ten units up; other limits have the margins of TwoFifthsIsTight and SmallOrdersHoldLimit.
- ClosedLoopExact.TwoFifthsIsTight: bases between two fifths and three units more are decided by LimitHeldExactly only.
- QuoteEngine.ModestLadderRecedes: stated for offsets up to 10000 basis points and mid prices up to 4 * 10^18 units.
- Position.RoundingBound: stated for fills whose intermediate results fit an i64.
