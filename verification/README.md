# Verified model of the order pipeline

This project models the trading pipeline's stateful core in Dafny and proves what it promises over
every input, every run and every interleaving. Check it with `dafny verify dfyconfig.toml`.

The parts build on each other:

- **Books.** `PriceTime` matches on a flat, sorted list of orders, generic in what is recorded with an
  order. `LevelBook` does the same on price levels with their capacities and is proved equal to it.
  `BookRuns`, `OrderOrigins` and `Reports` state what holds over whole runs of submissions: refinement of the
  vector book, price-time priority by order of submission, conservation, never crossed, exactly which
  residuals are dropped, which reports are written. `PriceLevel`, `BookSide` and `ZeroAllocBook` are the
  heap structures (32-slot rings, 64-level pools with free lists, sorted pointer arrays, nested loops),
  each method proved to compute the value-level operation, so every run theorem holds of the heap book.
  `MatchingEngine` is the vector book and its multi-symbol engine.
- **Queue.** `SpscProtocol` is the two-thread ring at the grain of single loads, slot copies and stores,
  with unbounded ghost counters behind the masked indices; `SpscQueue` is the ring class with its
  batch operations; `Shutdown` puts producer, launcher and worker on top of the protocol.
- **Sequence machines.** `ReorderBuffer`, `GapDetector`, `FeedArbitrator`, and `FlatBook` with `Recovery`:
  bounded rings, windows and sorted arrays against unbounded maps, sets and ranges.
- **Decoders and gate.** `Decimal`, `PriceText`, `FixParser` and `ProtocolParser` (tag=value text as in
  "FIX Message Format and Delivery" of FIX 4.2, and the two 46-byte layouts), and `RiskGate`.
- **Pipeline.** `GatedBook` carries the gate's bounds into the book and the top-of-book snapshot;
  `OrderBookEngine` composes arbitration, gap detection, gate and book over whole streams;
  `EngineSession` puts decoder and engine behind the queue protocol, from the loaded file to the book.

Modelling choices that hold throughout:

- Bids and asks, which the source writes out twice, are one class `BookSide` with a direction.
- Prices, 64-bit counters and sequence numbers are unbounded integers. The int-to-uint32 cast of
  quantities, the 32-bit cached level quantity and the gate's 64-bit products do wrap.
- Fixed character buffers hold the NUL-terminated string a reader would see; identifiers keep 31
  characters and symbols 15. A trade buffer is the list of reports written, a null buffer one of size 0.
- Library calls (`upper_bound`, `from_chars`, `to_chars`) are modelled by what they are specified to do.
- Clock readings are parameters.
- The threads' steps are sequentially consistent: a released index publishes the slots before it.
  A single push or pop is a batch of one (`PushTest`), and `empty` loads the read index first.

Where code and documentation differ, the model follows the code:

- The SBE structure's comment says 44 bytes; its fields take 46.
- The zero-allocation book draws a trade identifier only for a trade it reports, the vector book for
  every trade (`CountersInStep` says when they agree).
- A residual is dropped at 64 levels even when its own price level exists (`DroppedExactlyWhen`).
- The arbitrator misses a repeat whose slot was taken over (`WrongExactlyWhen`, `RepeatCanSlipThrough`).
- An empty payload arriving in order advances the reorder buffer and emits nothing (`EmitsOnePerNumber`).
- A snapshot older than the first buffered update loses what the updates between changed, unless it is
  written again later (`OldSnapshotExactlyWhen`, `OlderSnapshotLoses`); updates a newer snapshot already
  covers are applied again, without effect.

## Model

| member | source | states |
|---|---|---|
| PriceTime.MatchInPriority | include/hft/matching/ZeroAllocHftOrderBook.hpp:228-261 | matching consumes a prefix of the side: every fill but the last exhausts its order, none breaches the incoming limit, the rest of the side is untouched, and matching stops only when the incoming quantity is used up or no acceptable price is left |
| PriceTime.PriorityDetermines | include/hft/matching/ZeroAllocHftOrderBook.hpp:228-273 | price-time priority and quantity balance admit one outcome only: any result that satisfies both is the one the loops compute |
| PriceTime.MatchConserves | include/hft/matching/ZeroAllocHftOrderBook.hpp:251-255 | the traded volume is exactly what leaves the incoming order and exactly what leaves the resting side |
| PriceTime.BehindUpperBound | include/hft/matching/MatchingEngine.hpp:114-118 | on a sorted side the insertion point is behind every order of a better or equal price and ahead of every worse one |
| PriceTime.InsertSorted | include/hft/matching/MatchingEngine.hpp:114-118 | inserting at that point keeps the side sorted |
| PriceTime.InsertConserves | include/hft/matching/MatchingEngine.hpp:114-118 | inserting adds exactly the residual quantity and keeps every quantity positive |
| LevelBook.SweepFlat | include/hft/matching/ZeroAllocHftOrderBook.hpp:228-273 | the nested level-and-order loops give the same remaining side, the same residual and the same fills as matching the flat list of orders |
| LevelBook.SweepWf | include/hft/matching/ZeroAllocHftOrderBook.hpp:228-273 | the sweep keeps prices strictly sorted, levels non-empty and within capacity, quantities positive |
| LevelBook.AddFlat | include/hft/matching/ZeroAllocHftOrderBook.hpp:409-455 | adding by level equals insertion after the last order of a better or equal price in the flat list, or leaves the side as it was when capacity refuses it |
| LevelBook.AddWf | include/hft/matching/ZeroAllocHftOrderBook.hpp:409-455 | adding a positive residual keeps the side well formed, accepted or refused |
| LevelBook.FlatIsSide | include/hft/matching/ZeroAllocHftOrderBook.hpp:149-160 | flattening a well-formed side gives a sorted list of positive orders with the best level first |
| LevelBook.FlatInjective | include/hft/matching/ZeroAllocHftOrderBook.hpp:149-160 | a well-formed side is determined by its flat list, so equality of flat lists loses nothing |
| BookRuns.ReachableBook | include/hft/matching/ZeroAllocHftOrderBook.hpp:219-339 | after every sequence of submissions both sides are well formed (strictly sorted, no empty level, at most 64 levels of 32 orders, positive quantities) and the book is neither crossed nor locked, dropped residuals included |
| BookRuns.RunConserves | include/hft/matching/ZeroAllocHftOrderBook.hpp:219-339 | over every run: submitted quantity (side 1 or 2, as 32 bits) = resting quantity + 2 × traded volume + dropped residuals, and total trades = the number of executions |
| BookRuns.SubmitConserves | include/hft/matching/ZeroAllocHftOrderBook.hpp:219-339 | one submission: what comes in is traded or residual, totals move by the executions, and resting quantity changes by exactly what trades, rests or is dropped |
| BookRuns.DroppedExactlyWhen | include/hft/matching/ZeroAllocHftOrderBook.hpp:275-279 | a residual is dropped exactly when its side has 64 levels or its price level holds 32 orders; otherwise it rests whole at its priority position |
| BookRuns.OtherSidesIgnored | include/hft/matching/ZeroAllocHftOrderBook.hpp:225-338 | an order whose side is neither 1 nor 2 changes nothing in either book |
| BookRuns.PlainReachable | include/hft/matching/MatchingEngine.hpp:66-172 | after every run, drops of the other book or not, the vector book is sorted, positive and neither crossed nor locked |
| BookRuns.PlainConserves | include/hft/matching/MatchingEngine.hpp:66-172 | the vector book drops nothing: submitted quantity = resting quantity + 2 × traded volume |
| OrderOrigins.PriorityOverRuns | include/hft/matching/ZeroAllocHftOrderBook.hpp:228-261 | in every run, whatever the clock says: when a resting order trades, every better-priced order on its side and every earlier submission at its price is filled in full; match prices move away from the best and stay within the limit |
| OrderOrigins.PlainPriorityOverRuns | include/hft/matching/MatchingEngine.hpp:72-106 | the same priority law for every run of the vector book |
| OrderOrigins.RestingWasSubmitted | include/hft/matching/ZeroAllocHftOrderBook.hpp:409-455 | every resting order of every reachable book is what is left of its own submission on that side (price, sequence number, cut ClOrdID, time, no more than the submitted quantity), no submission rests twice, and within a price orders queue by submission |
| OrderOrigins.PlainRestingWasSubmitted | include/hft/matching/MatchingEngine.hpp:108-119 | the same for the vector book, with identifiers in full |
| BookRuns.SubmitRefines | include/hft/matching/ZeroAllocHftOrderBook.hpp:219-339 | one submission to a level book and to the vector book in the same state produces the same fills, and the same state unless the residual is dropped |
| BookRuns.RunRefines | include/hft/matching/MatchingEngine.hpp:66-172 | over every run that drops nothing, flattening the level book gives the vector book (price, quantity, sequence number, cut ClOrdID) with equal trade and volume totals |
| BookRuns.RunFillsRefine | include/hft/matching/MatchingEngine.hpp:66-172 | in such a run every single submission produces the same fills in both books |
| Reports.RecordsFirst | include/hft/matching/ZeroAllocHftOrderBook.hpp:239-249 | the reports of a call are those of its first max_trades fills, numbered consecutively from the counter |
| Reports.ReportsRefine | include/hft/matching/ZeroAllocHftOrderBook.hpp:239-249 | in a run that drops nothing, whatever the buffer of each call: its reports are the first max_trades reports of the vector book, texts cut to their buffers, identifiers behind by the trades earlier calls left unreported |
| Reports.CounterLags | include/hft/matching/ZeroAllocHftOrderBook.hpp:239-252 | over every run the trade counter handed from call to call lags total trades by exactly the trades that found no room in their buffer |
| Reports.CountersInStep | include/hft/matching/MatchingEngine.hpp:86 | up to any call the trade counters of the two books agree exactly when no earlier call produced more fills than its own buffer holds |
| Reports.ReportsNameBuyerAndSeller | include/hft/matching/ZeroAllocHftOrderBook.hpp:241-248 | every report names as buyer and seller the incoming order and an earlier submission from the other side, each by the first 31 characters of its own identifier, with the first 15 of the symbol, the time of the call and the earlier order’s price |
| Reports.PlainReportsNameBuyerAndSeller | include/hft/matching/MatchingEngine.hpp:85-92 | the vector book’s reports do so with all texts in full |
| Orders.Copy | include/hft/matching/ZeroAllocHftOrderBook.hpp:56-68 | a bounded copy holds its source up to the first NUL, or its first n characters if that is less |
| Orders.ShortenedText | include/hft/matching/ZeroAllocHftOrderBook.hpp:56-68 | text without a NUL is kept whole if it fits and is otherwise its first n characters |
| Orders.CopyTwice | include/hft/matching/ZeroAllocHftOrderBook.hpp:56-68 | a bounded copy of a bounded copy is that copy, so a report carries the stored identifier |
| PriceLevels.PriceLevel.constructor | include/hft/matching/ZeroAllocHftOrderBook.hpp:85-91 | a new level is an empty ring |
| PriceLevels.PriceLevel.Reset | include/hft/matching/ZeroAllocHftOrderBook.hpp:98-104 | the queue becomes empty and the level valid whatever quantity it had cached |
| PriceLevels.PriceLevel.FrontOrder | include/hft/matching/ZeroAllocHftOrderBook.hpp:106-114 | the slot at the head index is the oldest order |
| PriceLevels.PriceLevel.PopFrontOrder | include/hft/matching/ZeroAllocHftOrderBook.hpp:116-127 | the oldest order leaves the queue; an empty queue stays empty |
| PriceLevels.PriceLevel.PushBackOrder | include/hft/matching/ZeroAllocHftOrderBook.hpp:129-146 | the order joins the end of the queue, around the wrap, unless 32 are already there; the cached quantity stays the 32-bit sum |
| PriceLevels.PriceLevel.ExecuteFront | include/hft/matching/ZeroAllocHftOrderBook.hpp:236-260 | the front order loses the matched quantity and leaves when exhausted; ring and cached sum stay in step |
| BookSides.PartitionCovers | include/hft/matching/ZeroAllocHftOrderBook.hpp:149-160 | the live levels and the free list never share a level and together are the whole pool |
| BookSides.BookSide.constructor | include/hft/matching/ZeroAllocHftOrderBook.hpp:200-208 | all 64 levels start on the free list and the side is empty |
| BookSides.BookSide.ReleaseLevel | include/hft/matching/ZeroAllocHftOrderBook.hpp:174-180 | the level goes on top of the free list, null and a full list being ignored |
| BookSides.BookSide.AcquireLevel | include/hft/matching/ZeroAllocHftOrderBook.hpp:165-172 | null exactly when the free list is empty, otherwise its top level, emptied, and no other level is touched |
| BookSides.BookSide.RemoveBest | include/hft/matching/ZeroAllocHftOrderBook.hpp:263-272 | the best level moves to the free list and the rest shift up, keeping the pool partitioned |
| BookSides.BookSide.SettleBest | include/hft/matching/ZeroAllocHftOrderBook.hpp:263-272 | after a level was executed the side is valid again, without that level exactly when it ran empty |
| BookSides.BookSide.FindSlot | include/hft/matching/ZeroAllocHftOrderBook.hpp:412-434 | the binary search finds the level of the price, or the position that keeps the side sorted |
| BookSides.BookSide.ShiftDown | include/hft/matching/ZeroAllocHftOrderBook.hpp:444-448 | pointers from the insertion point on move one place, those before it stay |
| BookSides.BookSide.PlacePointer | include/hft/matching/ZeroAllocHftOrderBook.hpp:444-450 | the pointer array becomes the live levels with the new one at the insertion point |
| BookSides.BookSide.LinkLevel | include/hft/matching/ZeroAllocHftOrderBook.hpp:436-453 | a level is always available below 64 levels: it comes from the free list, was not live, and stands at the insertion point |
| BookSides.BookSide.InsertLevel | include/hft/matching/ZeroAllocHftOrderBook.hpp:436-454 | the side gains one level holding the one order and stays valid |
| BookSides.BookSide.AppendAt | include/hft/matching/ZeroAllocHftOrderBook.hpp:418-423 | the order joins the end of the existing level, or nothing changes when it is full |
| BookSides.BookSide.AddToBook | include/hft/matching/ZeroAllocHftOrderBook.hpp:409-455 | the heap operation computes the level-list insertion and keeps pool, pointers, rings and order |
| ZeroAllocBook.ZeroAllocHftOrderBook.constructor | include/hft/matching/ZeroAllocHftOrderBook.hpp:200-208 | the book starts empty with two disjoint sides |
| ZeroAllocBook.ZeroAllocHftOrderBook.ExecuteTurn | include/hft/matching/ZeroAllocHftOrderBook.hpp:236-260 | one execution: quantity, totals, report and queue all move by the same matched quantity |
| ZeroAllocBook.ZeroAllocHftOrderBook.ExecuteLevel | include/hft/matching/ZeroAllocHftOrderBook.hpp:234-261 | the inner loop terminates and matches the level in time order until it or the incoming quantity is exhausted |
| ZeroAllocBook.ZeroAllocHftOrderBook.ExecuteBest | include/hft/matching/ZeroAllocHftOrderBook.hpp:230-261 | the inner loop at the best level touches that level only and leaves the side whole but for it |
| ZeroAllocBook.ZeroAllocHftOrderBook.SweepTurn | include/hft/matching/ZeroAllocHftOrderBook.hpp:230-272 | one round of the outer loop matches the best level and removes it when it ran empty |
| ZeroAllocBook.ZeroAllocHftOrderBook.SweepSide | include/hft/matching/ZeroAllocHftOrderBook.hpp:228-273 | the outer loop terminates and computes the sweep, reports and totals included |
| ZeroAllocBook.ZeroAllocHftOrderBook.RestResidual | include/hft/matching/ZeroAllocHftOrderBook.hpp:275-279 | a positive residual rests under the 64-level test, anything else changes nothing |
| ZeroAllocBook.ZeroAllocHftOrderBook.SubmitTo | include/hft/matching/ZeroAllocHftOrderBook.hpp:225-280 | one side branch: sweep the opposite side, then rest the residual on the own side |
| ZeroAllocBook.ZeroAllocHftOrderBook.SubmitOrder | include/hft/matching/ZeroAllocHftOrderBook.hpp:219-339 | the whole heap operation computes the modelled submission: book, totals and reports, for every order and every buffer size |
| MatchingEngines.MatchingBook.constructor | include/hft/matching/MatchingEngine.hpp:54-56 | the vector book starts empty |
| MatchingEngines.MatchingBook.MatchAgainst | include/hft/matching/MatchingEngine.hpp:72-106 | the erase-from-the-front loop computes the flat matching, with one numbered report per fill and totals moved by them |
| MatchingEngines.MatchingBook.SubmitOrder | include/hft/matching/MatchingEngine.hpp:66-172 | computes the flat submission: state, reports, counter and the matched flag |
| MatchingEngines.BooksAreIndependent | include/hft/matching/MatchingEngine.hpp:215-230 | after any run of the multi-symbol engine, the book of a symbol is that of the orders with that symbol alone, orders without one counting for PETR4 |
| MatchingEngines.RouteChangesOneBook | include/hft/matching/MatchingEngine.hpp:215-230 | an order changes the book of its own symbol, or of PETR4 if it has none, into its submission, and no other book |
| MatchingEngines.TradesOfSplit | include/hft/matching/MatchingEngine.hpp:232-240 | the total over the books is the same whichever book is counted first |
| MatchingEngines.MatchingEngine.constructor | include/hft/matching/MatchingEngine.hpp:206 | no books, no trades |
| MatchingEngines.MatchingEngine.Ensure | include/hft/matching/MatchingEngine.hpp:222-227 | the symbol gets an empty book if it has none, and no other book changes |
| MatchingEngines.MatchingEngine.Deliver | include/hft/matching/MatchingEngine.hpp:229 | only the named book changes and the global counter numbers its fills |
| MatchingEngines.MatchingEngine.ProcessOrder | include/hft/matching/MatchingEngine.hpp:215-230 | routes to the symbol’s book (empty symbol: PETR4), keeping the global counter equal to the trades of all books |
| MatchingEngines.MatchingEngine.TotalTrades | include/hft/matching/MatchingEngine.hpp:232-240 | the sum over the books equals the number of trade identifiers ever drawn |
| Modular.CapacityTest | include/hft/common/SPSCQueue.hpp:36-37 | n & (n − 1) is zero exactly for the powers of two |
| Modular.MaskIsMod | include/hft/common/SPSCQueue.hpp:56 | for a power of two, masking with n − 1 is the remainder by n |
| SpscProtocol.Safety | include/hft/common/SPSCQueue.hpp:53-123 | in every interleaving: cachedRead ≤ read ≤ cachedWrite ≤ write ≤ cachedRead + Capacity − 1 behind the masked indices, the unread slots hold the pushed items, and both threads’ partial copies are what they should be |
| SpscProtocol.PushedIsPoppedThenQueued | include/hft/common/SPSCQueue.hpp:53-123 | in every interleaving the items pushed are the items popped followed by the ring contents between the indices |
| SpscProtocol.NoOverwrite | include/hft/common/SPSCQueue.hpp:53-123 | the slot the producer is about to write is never an unread one nor the one being read |
| SpscProtocol.CanPushIsStable | include/hft/common/SPSCQueue.hpp:239-244 | a true can_push stays true through any steps of the consumer |
| SpscProtocol.CanPushThenPushSucceeds | include/hft/common/SPSCQueue.hpp:239-244 | after a true can_push the next push gets its slot, directly or after reloading the read index, whatever the consumer does meanwhile |
| SpscProtocol.SizeExactlyWhen | include/hft/common/SPSCQueue.hpp:250-259 | size, called by any thread while the others run, is always within capacity, and counts the items published at its first load and still queued at its second exactly when the consumer has not passed the first load |
| SpscProtocol.EmptyIsExact | include/hft/common/SPSCQueue.hpp:230-233 | empty, called by the consumer, is exact at its second load whatever the producer does between the two |
| SpscProtocol.FreeIsDifference | include/hft/common/SPSCQueue.hpp:196-205 | the free-slot formula on masked indices equals the counter difference, wrap included |
| SpscProtocol.AvailableIsDifference | include/hft/common/SPSCQueue.hpp:157-158 | the available formula equals the counter difference, and equal indices mean empty |
| SpscProtocol.PushTest | include/hft/common/SPSCQueue.hpp:56-66 | the single push’s full test is the batch test for one item |
| SpscProtocol.CanPushMeans | include/hft/common/SPSCQueue.hpp:239-244 | can_push is true exactly when fewer than Capacity − 1 items are in the queue |
| SpscQueues.PushBatchIsPushes | include/hft/common/SPSCQueue.hpp:191-224 | push_batch takes the smaller of the item count and the free room, and leaves the contents and write index of that many successive pushes |
| SpscQueues.PopBatchIsPops | include/hft/common/SPSCQueue.hpp:142-177 | pop_batch takes the smaller of the limit and the items it knows of after at most one reload, with the outputs and read index of that many successive pops |
| SpscQueues.PushOneExactlyWhen | include/hft/common/SPSCQueue.hpp:53-71 | push answers true exactly when there is room and is then the batch push of one; a refused push changes nothing but the stale read index, which is reloaded only when needed |
| SpscQueues.PopOneExactlyWhen | include/hft/common/SPSCQueue.hpp:105-123 | pop returns the oldest item exactly when there is one and is then the batch pop of one; an empty pop only reloads the stale write index |
| SpscQueues.PushAlone | include/hft/common/SPSCQueue.hpp:191-224 | the protocol’s steps of a push without interference end in the batch push: same memory, same count, exactly those items published |
| SpscQueues.PopAlone | include/hft/common/SPSCQueue.hpp:142-177 | the protocol’s steps of a pop without interference end in the batch pop: same memory, same items |
| SpscQueues.SPSCQueue.constructor | include/hft/common/SPSCQueue.hpp:43-45 | an empty ring with all indices at zero |
| SpscQueues.SPSCQueue.Push | include/hft/common/SPSCQueue.hpp:53-71 | true exactly when there is room after at most one reload of the read index; then the item is in the ring and published |
| SpscQueues.SPSCQueue.Pop | include/hft/common/SPSCQueue.hpp:105-123 | the oldest item, or none when the reloaded write index says empty |
| SpscQueues.SPSCQueue.CopyIn | include/hft/common/SPSCQueue.hpp:209-217 | the two-segment copy writes the items consecutively around the wrap and nothing else |
| SpscQueues.SPSCQueue.PushBatch | include/hft/common/SPSCQueue.hpp:191-224 | writes and publishes as many items as fit after at most one reload |
| SpscQueues.SPSCQueue.CopyOut | include/hft/common/SPSCQueue.hpp:162-170 | the two-segment copy reads consecutive items around the wrap |
| SpscQueues.SPSCQueue.PopBatch | include/hft/common/SPSCQueue.hpp:142-177 | reads at most max items in order across the wrap and releases them at once |
| SpscQueues.SPSCQueue.Observe | include/hft/common/SPSCQueue.hpp:230-259 | size, empty and can_push are exact statements about the counters |
| Shutdown.RunKeeps | include/hft/common/EngineLauncher.hpp:293-304 | in every interleaving of producer, launcher and worker the messages pushed are a prefix of the file, and the flags are raised only after the last push |
| Shutdown.ExitsOnlyWhenDrained | src/order_book_engine/HftOrderBookEngine.cpp:109-123 | in every interleaving, once the worker has left its loop it has popped exactly the loaded messages, once each, in file order |
| Shutdown.TakesInOrder | src/networking/FixProducer.cpp:103-130 | at every moment the messages popped are a prefix of the file |
| Shutdown.Progress | src/order_book_engine/HftOrderBookEngine.cpp:109-123 | every event lowers a measure of what is left to do, or leaves the run waiting for the same helpful event, which lowers it |
| Shutdown.EveryFairRunFinishes | include/hft/common/EngineLauncher.hpp:293-304 | from every reachable state every fair schedule brings the worker to its exit with exactly the loaded messages popped, in file order |
| Shutdown.TurnsAreFair | include/hft/common/EngineLauncher.hpp:293-304 | letting producer, launcher and worker take turns is such a schedule |
| ReorderBuffers.OutputInOrder | include/hft/protocol/SequenceReorderBuffer.hpp:60-108 | after any arrivals the output is exactly the payloads of initial .. expected − 1, once each, in order, and every pending number is strictly inside (expected, expected + Capacity) |
| ReorderBuffers.AnyOrderComesOutSorted | include/hft/protocol/SequenceReorderBuffer.hpp:60-108 | any arrival order of up to Capacity consecutive numbers, repeats allowed, comes out completely sorted with nothing left pending |
| ReorderBuffers.EmitsOnePerNumber | include/hft/protocol/SequenceReorderBuffer.hpp:60-108 | each call delivers one payload per number it passes, except exactly for an empty payload that arrives in order |
| ReorderBuffers.KnownExactlyWhen | include/hft/protocol/SequenceReorderBuffer.hpp:60-108 | in every state a push makes exactly its own number delivered or waiting, and only inside the window; delivery never stops short of a waiting number |
| ReorderBuffers.DrainKeys | include/hft/protocol/SequenceReorderBuffer.hpp:130-151 | draining removes exactly the run of consecutive pending numbers from expected on |
| ReorderBuffers.SequenceReorderBuffer.constructor | include/hft/protocol/SequenceReorderBuffer.hpp:42-50 | an empty ring at the initial number |
| ReorderBuffers.SequenceReorderBuffer.StoreSlot | include/hft/protocol/SequenceReorderBuffer.hpp:80-94 | within the window the masked slot stores the payload without displacing another pending number |
| ReorderBuffers.SequenceReorderBuffer.TakeExpected | include/hft/protocol/SequenceReorderBuffer.hpp:135-145 | the slot of the expected number is taken exactly when that number is pending |
| ReorderBuffers.SequenceReorderBuffer.DrainBuffered | include/hft/protocol/SequenceReorderBuffer.hpp:130-151 | the loop terminates and computes the drain of the unbounded map |
| ReorderBuffers.SequenceReorderBuffer.Push | include/hft/protocol/SequenceReorderBuffer.hpp:60-108 | the ring computes the unbounded map’s step, and exactly one counter moves for a late, buffered or overflowing arrival |
| GapDetectors.GapsPartition | include/hft/protocol/SequenceGapDetector.hpp:70-116 | over every run accepted numbers and reported gaps are pairwise disjoint, ascending and together exactly [initial, expected); packets_lost is the total size of the gaps |
| GapDetectors.ExpectedIsPastLargest | include/hft/protocol/SequenceGapDetector.hpp:70-116 | expected is the larger of the initial number and the largest incoming number plus one |
| GapDetectors.DuplicateExactlyWhen | include/hft/protocol/SequenceGapDetector.hpp:70-116 | after any run a number is called duplicate exactly when it lies before the initial number, was accepted or was reported missing; a gap is reported exactly when unaccounted numbers lie before it, and consists of exactly those |
| GapDetectors.AllCounted | include/hft/protocol/SequenceGapDetector.hpp:70-116 | every incoming number is accepted or counted as a duplicate |
| GapDetectors.SequenceGapDetector.constructor | include/hft/protocol/SequenceGapDetector.hpp:62-63 | no losses recorded at the initial number |
| GapDetectors.SequenceGapDetector.ProcessSequence | include/hft/protocol/SequenceGapDetector.hpp:70-116 | computes the modelled step: status, gap range and all counters |
| FeedArbitrators.FlaggedExactlyWhen | include/hft/networking/FeedArbitrator.hpp:60-96 | on every stream a packet is flagged exactly when the last arrival in its masked slot carried its number |
| FeedArbitrators.FlaggedIffArrived | include/hft/networking/FeedArbitrator.hpp:60-96 | on a stream within the window a packet is flagged exactly when its number arrived before |
| FeedArbitrators.WrongExactlyWhen | include/hft/networking/FeedArbitrator.hpp:60-96 | on every stream with a positive number the flag is wrong exactly when the number did arrive and a later number took its slot; it never flags a new number |
| FeedArbitrators.RepeatCanSlipThrough | include/hft/networking/FeedArbitrator.hpp:60-96 | for every window size a repeat is not flagged once the number one window further on has arrived |
| FeedArbitrators.WindowedRun | include/hft/networking/FeedArbitrator.hpp:60-96 | within the window, unique count = number of distinct numbers = A wins + B wins, duplicates are the rest, and each slot remembers the first-arrival line |
| FeedArbitrators.CountsAddUp | include/hft/networking/FeedArbitrator.hpp:60-96 | on every stream each packet is counted once, and each unique one as a win of a line that delivered it |
| FeedArbitrators.WinnerIsFirstLine | include/hft/networking/FeedArbitrator.hpp:60-96 | within the window the reported winner is the line on which the number first arrived |
| FeedArbitrators.FeedArbitrator.constructor | include/hft/networking/FeedArbitrator.hpp:49-52 | nothing seen |
| FeedArbitrators.FeedArbitrator.ProcessPacket | include/hft/networking/FeedArbitrator.hpp:60-96 | the array operations compute the modelled step: verdict, slot, winner and counters |
| FlatBooks.PutRepresents | include/hft/protocol/OrderBookRecoveryManager.hpp:87-118 | insert-or-update on the sorted list is the map update, whenever the price exists or there is room |
| FlatBooks.PutRefused | include/hft/protocol/OrderBookRecoveryManager.hpp:98-118 | a full book takes no new price and stays as it is |
| FlatBooks.EraseRepresents | include/hft/protocol/OrderBookRecoveryManager.hpp:124-138 | erase on the sorted list is removal from the map, present or not |
| FlatBooks.RepresentationUnique | include/hft/protocol/OrderBookRecoveryManager.hpp:144-145 | a price map has one sorted list, so equal maps mean identical books |
| FlatBooks.FlatOrderBook.constructor | include/hft/protocol/OrderBookRecoveryManager.hpp:74 | empty |
| FlatBooks.FlatOrderBook.Clear | include/hft/protocol/OrderBookRecoveryManager.hpp:77 | empty again |
| FlatBooks.FlatOrderBook.ShiftDown | include/hft/protocol/OrderBookRecoveryManager.hpp:100-108 | levels from the position on move one place, those before it stay |
| FlatBooks.FlatOrderBook.InsertAt | include/hft/protocol/OrderBookRecoveryManager.hpp:100-108 | the book gains one level at the position and keeps all others in order |
| FlatBooks.FlatOrderBook.InsertOrUpdate | include/hft/protocol/OrderBookRecoveryManager.hpp:87-118 | search and shift compute insert-or-update, a full book refusing a new price |
| FlatBooks.FlatOrderBook.RemoveAt | include/hft/protocol/OrderBookRecoveryManager.hpp:130-134 | the shift loop closes one place |
| FlatBooks.FlatOrderBook.EraseLevel | include/hft/protocol/OrderBookRecoveryManager.hpp:124-138 | search and shift compute removal, an absent price changing nothing |
| Recovery.RecoveryIsCutIndependent | include/hft/protocol/OrderBookRecoveryManager.hpp:183-226 | a faithful bid snapshot at any number not before the first buffered update, replay, then live updates give the bid book of applying every update directly, with the last update’s number and exact replay counts; asks stay the snapshot’s (at most 1024 distinct prices) |
| Recovery.CutPointOnMaps | include/hft/protocol/OrderBookRecoveryManager.hpp:198-218 | on price maps the same holds for every cut, also a snapshot newer than the whole buffer, whose updates the live stream repeats without effect |
| Recovery.ReplayIsIdempotent | include/hft/protocol/OrderBookRecoveryManager.hpp:245-255 | applying a list of updates twice is applying it once |
| Recovery.LastWriterWins | include/hft/protocol/OrderBookRecoveryManager.hpp:245-255 | after any updates a price shows what the last update that wrote it says, and what it showed before if none did |
| Recovery.SnapshotShows | include/hft/protocol/OrderBookRecoveryManager.hpp:188-195 | a snapshot list shows exactly its prices, each with the quantity of its last entry |
| Recovery.UncoveredSplits | include/hft/protocol/OrderBookRecoveryManager.hpp:204-211 | whether a buffered update is replayed depends on its own number only, whatever order the buffer is in |
| Recovery.RecoveryAfterTrigger | include/hft/protocol/OrderBookRecoveryManager.hpp:229-233 | recovery triggered in any state ends in the same book, and the old book stays untouched while updates are buffered |
| Recovery.UncoveredIsSuffix | include/hft/protocol/OrderBookRecoveryManager.hpp:204-211 | the replayed updates are exactly the buffered ones after the snapshot’s number |
| Recovery.SkippedExactlyWhen | include/hft/protocol/OrderBookRecoveryManager.hpp:204-218 | on price maps: skipping updates loses nothing exactly when every price they changed is written again later |
| Recovery.OldSnapshotExactlyWhen | include/hft/protocol/OrderBookRecoveryManager.hpp:183-226 | a snapshot older than the first buffered update still recovers the direct bid book exactly when every price changed in between is written again by a buffered or live update |
| Recovery.OlderSnapshotLoses | include/hft/protocol/OrderBookRecoveryManager.hpp:204-218 | for every such older snapshot and every non-empty buffer there are updates of two prices on which the recovered bid book differs |
| Recovery.OrderBookRecoveryManager.constructor | include/hft/protocol/OrderBookRecoveryManager.hpp:155-156 | starts in recovery with empty books |
| Recovery.OrderBookRecoveryManager.ApplyIncremental | include/hft/protocol/OrderBookRecoveryManager.hpp:245-255 | changes the bid side only: add and modify put, delete erases, any other action does nothing |
| Recovery.OrderBookRecoveryManager.ProcessIncremental | include/hft/protocol/OrderBookRecoveryManager.hpp:163-176 | buffers while recovering, applies otherwise, and says which |
| Recovery.OrderBookRecoveryManager.LoadSide | include/hft/protocol/OrderBookRecoveryManager.hpp:188-195 | the side becomes the snapshot’s levels put one after another into an empty book |
| Recovery.OrderBookRecoveryManager.Replay | include/hft/protocol/OrderBookRecoveryManager.hpp:200-218 | the loop applies exactly the updates the snapshot does not cover and counts them and the others |
| Recovery.OrderBookRecoveryManager.ApplySnapshot | include/hft/protocol/OrderBookRecoveryManager.hpp:183-226 | computes the modelled transition: both sides, replay, counters, mode and emptied buffer |
| Recovery.OrderBookRecoveryManager.TriggerRecovery | include/hft/protocol/OrderBookRecoveryManager.hpp:229-233 | recovering again with an empty buffer, the books untouched |
| RiskGate.DefaultGate | include/hft/protocol/PreTradeRiskManager.hpp:69-131 | with default limits and the $35 reference, 64-bit wrapped arithmetic approves exactly 0 ≤ quantity ≤ 50,000 and 30,000,000 ≤ price ≤ 40,000,000, for every 32-bit quantity and every price |
| RiskGate.ApprovedExactlyWhen | include/hft/protocol/PreTradeRiskManager.hpp:69-131 | for any limits, where the notional fits 64 bits, approval is the conjunction of the four limits over the integers |
| RiskGate.RejectedExactlyWhen | include/hft/protocol/PreTradeRiskManager.hpp:69-131 | for any limits, where the notional fits 64 bits, each rejection is returned exactly when its limit is the first one broken |
| RiskGate.DefaultRejections | include/hft/protocol/PreTradeRiskManager.hpp:69-131 | with default limits and the $35 reference: over 50,000 is a quantity rejection, else a price outside $30–$40 a collar rejection, else a negative quantity a notional rejection |
| RiskGate.NotionalWraps | include/hft/protocol/PreTradeRiskManager.hpp:115 | in all cases the notional is the true product modulo 2^64, in whole dollars |
| RiskGate.NotionalExact | include/hft/protocol/PreTradeRiskManager.hpp:115 | the notional is exact while the product fits 64 bits |
| RiskGate.NotionalOfNegative | include/hft/protocol/PreTradeRiskManager.hpp:115 | a negative quantity wraps to a notional over the default cap, so it is rejected there |
| RiskGate.PreTradeRiskManager.constructor | include/hft/protocol/PreTradeRiskManager.hpp:60-61 | counters at zero |
| RiskGate.PreTradeRiskManager.EvaluateOrder | include/hft/protocol/PreTradeRiskManager.hpp:69-131 | the branch order computes the modelled decision and exactly one counter moves |
| Decimal.ParseInteger | include/hft/protocol/FixParser.hpp:44-49 | the loop stops after the longest run of digits and holds its value |
| Decimal.ParseFraction | include/hft/protocol/FixParser.hpp:52-67 | the loop adds digits with falling weights and ends after six or at a non-digit |
| Decimal.ParseFixedPointPrice | include/hft/protocol/FixParser.hpp:33-69 | sign, integer and fraction combine to the price of the text |
| Decimal.ShowParses | include/hft/protocol/FixParser.hpp:127-138 | parsing the decimal text of an in-range number returns it |
| Decimal.ReadsNumber | include/hft/protocol/FixParser.hpp:127-138 | a number at the start of a value is read up to the first other character if it fits its type, and otherwise leaves the old value |
| Decimal.ReadsNothing | include/hft/protocol/FixParser.hpp:127-138 | a value without a number at its start leaves the old value, and the sequence number takes no sign |
| PriceText.PriceIsTruncatedValue | include/hft/protocol/FixParser.hpp:33-69 | every text, with or without a point and whatever follows the number, parses to the value of its digits times 10^6, truncated toward zero |
| PriceText.EveryTextIsDecimal | include/hft/protocol/FixParser.hpp:33-69 | no text is outside that law |
| PriceText.ExtraDigitsIgnored | include/hft/protocol/FixParser.hpp:56-66 | digits past the sixth have no effect |
| PriceText.RenderParses | include/hft/protocol/FixParser.hpp:33-69 | parsing the six-decimal rendering of any integer, negative ones included, returns it |
| FixParser.SkipTag | include/hft/protocol/FixParser.hpp:92-98 | stops at the first = or at the end, inside the buffer |
| FixParser.SkipValue | include/hft/protocol/FixParser.hpp:104-109 | stops at the first delimiter or at the end, inside the buffer |
| FixParser.AssignAllIsLookups | include/hft/protocol/FixParser.hpp:112-141 | assigning fields in which no mapped tag occurs twice sets each member from its own tag, wherever it stands, and an unmapped tag sets nothing |
| FixParser.ScanFits | include/hft/protocol/FixParser.hpp:127-134 | whatever the text, the parsed quantity is a 32-bit integer |
| FixParser.ParseInPlace | include/hft/protocol/FixParser.hpp:79-150 | the pointer scan terminates inside the buffer on every input and computes the recursive scan |
| FixParser.ScanEncode | include/hft/protocol/FixParser.hpp:79-150 | scanning an encoded message assigns its fields one after another, the last one terminated or not, then continues with what follows |
| FixParser.ParsesToFields | include/hft/protocol/FixParser.hpp:79-150 | a well-formed message, SOH and | mixed or not, parses to a record in which each member depends on its own tag only, missing ones staying empty, zero or ? |
| FixParser.FieldOrderDoesNotMatter | include/hft/protocol/FixParser.hpp:79-150 | messages with the same mapped fields parse alike: any order, any extra unmapped fields, tags written with leading zeros or not, either delimiter after each field, the last field terminated or not |
| FixParser.PermutedFieldsParseAlike | include/hft/protocol/FixParser.hpp:79-150 | permuting the fields of a well-formed message leaves the parsed order unchanged |
| ProtocolParser.Trim | include/hft/protocol/ProtocolParser.hpp:138-146 | the loop removes exactly the trailing spaces and NULs |
| ProtocolParser.TrimPadded | include/hft/protocol/ProtocolParser.hpp:138-146 | trimming undoes any padding by spaces and NULs |
| ProtocolParser.OuchLayout | include/hft/protocol/ProtocolParser.hpp:171-194 | for every packet of 46 bytes or more, which bytes each member comes from, two’s complement and trimming included |
| ProtocolParser.SbeLayout | include/hft/protocol/ProtocolParser.hpp:196-227 | the same for the SBE layout, the ClOrdID being the decimal text of its number |
| ProtocolParser.ShortPackets | include/hft/protocol/ProtocolParser.hpp:162-234 | a packet shorter than 46 bytes, and an empty payload, decode to the empty order |
| ProtocolParser.OuchReads | include/hft/protocol/ProtocolParser.hpp:171-194 | decoding the 46-byte OUCH layout of an order returns its fields |
| ProtocolParser.SbeReads | include/hft/protocol/ProtocolParser.hpp:196-227 | decoding the 46-byte SBE layout of an order returns its fields |
| ProtocolParser.FixReads | src/protocol_arena_main.cpp:145-153 | decoding the FIX text of an order returns its fields |
| ProtocolParser.ProtocolsAgree | include/hft/protocol/ProtocolParser.hpp:162-234 | for every order of the common domain all three encodings decode to the same type, sequence number, symbol, side, quantity and price |
| ProtocolParser.ParsedQuantityFits | include/hft/protocol/ProtocolParser.hpp:162-234 | whatever the bytes, in every protocol the decoded quantity is a 32-bit integer |
| ProtocolParser.IdentifiersDecode | include/hft/protocol/ProtocolParser.hpp:186-219 | the OUCH token and the SBE number come back as ClOrdID |
| GatedBook.RunBounded | src/order_book_engine/HftOrderBookEngine.cpp:193-213 | in a book fed only with approved orders every resting order stays within the gate’s price and quantity bounds |
| GatedBook.CachedIsExact | include/hft/matching/ZeroAllocHftOrderBook.hpp:91-146 | in such a book the 32-bit cached quantity of every level is the true sum, positive and at most 1,600,000 |
| GatedBook.ShownIsBest | include/hft/matching/ZeroAllocHftOrderBook.hpp:341-357 | the shown price is that of a resting order, none is better, the shown quantity is all that rests there (as 32 bits), and an empty side shows zeros |
| GatedBook.TopOfBookIsOrdered | src/order_book_engine/HftOrderBookEngine.cpp:269-300 | after any run, gated or not: each side shows its best price and what rests there, first in its deck; both decks are the best five levels in strict price order; and the spread is positive and unclamped between positive best prices, zero otherwise |
| GatedBook.TopOfBookIsSound | src/order_book_engine/HftOrderBookEngine.cpp:269-300 | after any run of gated orders the decks also show exact quantities, and with both sides present the spread is the positive difference |
| OrderBookEngine.EngineFeedsGatedBook | src/order_book_engine/HftOrderBookEngine.cpp:125-265 | over every stream of decoded packets the engine’s book is the run of exactly the non-duplicate, approved New Order messages |
| OrderBookEngine.EngineBookIsSound | src/order_book_engine/HftOrderBookEngine.cpp:269-300 | hence after every stream the engine’s book is well formed, uncrossed and its snapshot sound |
| OrderBookEngine.EngineMeans | src/order_book_engine/HftOrderBookEngine.cpp:125-265 | after every stream each component has been given exactly its share: the arbiter all positive numbers, the gap detector those not flagged, the book the approved New Orders in order, the trade counter up to 16 reports a call; every order is counted once |
| OrderBookEngine.EngineGapsPartition | src/order_book_engine/HftOrderBookEngine.cpp:174-191 | so the engine’s gap accounting partitions the numbers from 1 on into fresh numbers and reported gaps |
| OrderBookEngine.FreshAreFirstArrivals | src/order_book_engine/HftOrderBookEngine.cpp:149-172 | within the window the numbers given to the gap detector are the distinct ones in order of first arrival |
| OrderBookEngine.ReportedIsCounter | src/order_book_engine/HftOrderBookEngine.cpp:210-213 | the engine’s trade counter is that of a book run with a buffer of 16 |
| OrderBookEngine.NoNumberTwice | src/order_book_engine/HftOrderBookEngine.cpp:149-172 | on a stream within the window no sequence number passes arbitration twice |
| OrderBookEngine.RunIsHandleAll | src/order_book_engine/HftOrderBookEngine.cpp:109-265 | the runs the theorems speak of are what the engine computes from its initial state, packet by packet |
| OrderBookEngine.BatchesJoin | src/order_book_engine/HftOrderBookEngine.cpp:109-265 | cutting the stream into batches anywhere makes no difference to the engine’s state |
| OrderBookEngine.HftOrderBookEngine.constructor | src/order_book_engine/HftOrderBookEngine.cpp:100-101 | empty book, fresh arbitrator, detector and gate |
| OrderBookEngine.HftOrderBookEngine.Screen | src/order_book_engine/HftOrderBookEngine.cpp:149-191 | a numbered packet is arbitrated, and only a non-duplicate reaches the gap detector; an unnumbered one skips both |
| OrderBookEngine.HftOrderBookEngine.HandleOrder | src/order_book_engine/HftOrderBookEngine.cpp:149-247 | one packet through arbitration, gap detection, risk gate and book computes the modelled pipeline step |
| OrderBookEngine.HftOrderBookEngine.GateOrder | src/order_book_engine/HftOrderBookEngine.cpp:193-213 | gate and book together: rejected, passed without a book entry, or submitted |
| OrderBookEngine.HftOrderBookEngine.Submit | src/order_book_engine/HftOrderBookEngine.cpp:210-213 | the book and the trade counter move by the submission, everything else stays |
| OrderBookEngine.HftOrderBookEngine.HandleBatch | src/order_book_engine/HftOrderBookEngine.cpp:125-265 | a batch is its packets one after another |
| OrderBookEngine.HftOrderBookEngine.Rows | src/order_book_engine/HftOrderBookEngine.cpp:284-297 | at most five rows with the price, cached quantity and order count of the best levels |
| OrderBookEngine.HftOrderBookEngine.Best | include/hft/matching/ZeroAllocHftOrderBook.hpp:341-357 | price and cached quantity of the best level, zero for an empty side |
| OrderBookEngine.HftOrderBookEngine.GetTopOfBookSnapshot | src/order_book_engine/HftOrderBookEngine.cpp:269-300 | the snapshot is a function of the book’s state alone |
| EngineSessions.EngineFollowsQueue | src/order_book_engine/HftOrderBookEngine.cpp:109-265 | at every moment of every interleaving the engine has handled exactly the packets popped so far, decoded, one after another |
| EngineSessions.BookIsAlwaysSound | src/order_book_engine/HftOrderBookEngine.cpp:125-300 | from any bytes, in any protocol and interleaving, the book is well formed, uncrossed and its snapshot sound |
| EngineSessions.ExitsWithFileHandled | src/order_book_engine/HftOrderBookEngine.cpp:109-123 | in every interleaving, once the worker has exited its engine has handled the whole file, in order and once |
| EngineSessions.FairSessionsAgree | include/hft/common/EngineLauncher.hpp:293-304 | every fair run gets there, so the final engine state depends on the file and the clock readings only, not on the interleaving |

## Left out

- ReorderBuffers.SequenceReorderBuffer.Push: payloads of 512 bytes and more are excluded when they are to be stored, because the source then writes its terminator past the slot.
- RiskGate.PreTradeRiskManager.EvaluateOrder: where the collar is reached, prices whose distance from the reference exceeds 64 bits are excluded, because the source's subtraction is then undefined.
- OrderBookEngine.HftOrderBookEngine.HandleOrder: inherits that bound on the price distance from the gate, and so do `GateOrder` and `HandleBatch`.
- SpscQueues.SPSCQueue.Observe: reads both indices of a quiescent queue; the interleaved readings are `SizeExactlyWhen`, `EmptyIsExact` and `CanPushIsStable`.
- BookSides.BookSide.AddToBook: a residual of zero is excluded, because its only caller tests that first.
- Weak memory beyond release/acquire publication of the two queue indices; wrap-around of 64-bit counters; signed overflow of out-of-range prices.
- The shutdown model covers direct-queue mode with the run flag up; the receiver thread pushes nothing and raises the consumer-done flag only after the producer-done flag.
- The `active` mark of a book order (never read), latency fields and the symbol of recovery updates: no decision depends on them.
- `reset` operations, plain counters' getters and limit setters (the kill switch's is modelled without a row of its own): easy members.
- `MpscQueue`: a mutex around a library queue.
- AF_XDP, PACKET_MMAP and UDP receivers, sockets, thread pinning, clocks, cycle counters and latency statistics: kernel and hardware interfaces.
- Loggers, telemetry, monitoring, plotting and generator scripts: output only.
- Command line, dataset loading, protocol-name detection: convenience code around the core.
- Rejection texts, ResendRequest text, FIX BodyLength and CheckSum: constants or messages for people.
