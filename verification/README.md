# Scrimmage exchange: models and proofs

Dafny models of the state-keeping parts of the Scrimmage matching engine, and proofs of what they promise over
whole runs. `dafny verify dfyconfig.toml` checks everything.

| files | what they model |
|---|---|
| `RingProtocol.dfy`, `RingRuns.dfy`, `RingCalls.dfy`, `RingBuffer.dfy` | the lock-free ring: every atomic access of producer and consumer loop is one action, any interleaving is a run, and a load of the other side's index may be stale; whole calls as runs; then the ring as an object used by one thread at a time |
| `Matching.dfy`, `MatchingRuns.dfy`, `EngineRuns.dfy`, `MatchingEngine.dfy` | the matching rule of one book, runs of one book, runs of 1024 books over one pool, and the engine that works in place on slots and erases while it walks |
| `OrderPool.dfy`, `LevelLists.dfy`, `PriceLevels.dfy`, `OrderBook.dfy` | the slot pool with its free chain, the FIFO price levels threaded through it, and the two sides that share it |
| `LevelGrid.dfy`, `OrderMap.dfy`, `Words.dfy` | price-to-level arithmetic with 32-bit wrap-around, the direct-mapped order table, masks and remainders |
| `Framing.dfy` | the length-prefix encoder and the incremental framer |
| `FeedBooks.dfy`, `FeedRuns.dfy`, `OrderBookFeed.dfy` | the sorted, truncated market-data book: one upsert or removal, runs of both, and the object |

A method that changes state is proved against a function or relation on values, and the results about runs are
lemmas about those. Where an object has a history (`MatchingEngine.history`, `TcpFramer.ops`, `OrderBookFeed.bidPast`),
its `Valid()` says that its state is the one the run on values reaches, so every lemma about runs speaks of the object.

How the model reads the code where the code leaves a question:

- The headers disagree on names. `PriceLevels.h` works on `OrderPool<PoolSize>` entries with `_levelIndex`,
  `_nextIndex` and `_quantity`; `OrderPool.h` defines `OrderBookPool`, whose entries hold an order and a free link;
  `MatchingEngine.h` calls `acquire` and `release` of an `OrderPool<Order>` that no file defines. The model has one
  pool class, generic in what a slot holds, with the allocation of `OrderPool.h`; slots hold a level node for the
  price levels and an order for the engine. An order pointer is a slot number.
- `OrderBookPool::free` stores the link and then calls `reset`, which overwrites it with 0
  (`libs/match/OrderPool.h:34-36`, `libs/match/OrderBookEntry.h:24`). `FreeAsWritten` is that code, with the exact
  condition under which it is right (slot 0 heads the chain) and the failure when it is not. `Free` clears the slot
  before linking it, and that is what everything else here uses.
- The framer compares the whole buffer with `_maxFrameSize`, although the name speaks of one frame
  (`libs/networking/tcp/TcpFramer.h:29`). The model follows the code, and `RoomBoundIsExact` says what room is needed.
- The feed is described as a full-depth book (`libs/market-data/OrderBookFeed.h:4`) but cuts each side to
  `_maxLevels` and forgets the rest. `UpsertKeepsBestIff` and `RemovalKeepsBestIff` say exactly when that is harmless
  for one event, `RunShowsBestIff` for a whole run of upserts and removals; `WorseningWitness` and `RemovalWitness`
  are the two failures.
- `OrderMap::insert` and `erase` cut the slot number to 16 bits and `find` does not
  (`libs/match/OrderMap.h:26`, `40`). Both are modelled; `SlotsAgree` says for which sizes they agree.
- Books keep arrival order, not price order (`libs/match/MatchingEngine.h:95-103`), so "the book is never crossed" is
  false. `CrossedBookWitness` shows it, `CrossedAfterIff` says exactly when a submission crosses the book.
- A zero-quantity order that meets no crossing head is neither rested nor released
  (`libs/match/MatchingEngine.h:101`). The model keeps this, and `SlotsInStepIff` and `SlotsAreAccountedFor` account for it.

## Model

| member | source | states |
|---|---|---|
| `RingProtocol.FullTest` | libs/common/SpScRingBuffer/SpScRingBuffer.h:41-43 | the next index meets the seen tail exactly when capacity - 1 items are seen queued |
| `RingProtocol.UsedIsDistance` | libs/common/SpScRingBuffer/SpScRingBuffer.h:119 | the remainder formula of the high-water mark is the number of queued items |
| `RingProtocol.ProducerStepInv` | libs/common/SpScRingBuffer/SpScRingBuffer.h:39-81 | every atomic step of tryPush and push, with stale loads and spurious swap failures, keeps the ring invariant |
| `RingProtocol.ConsumerStepInv` | libs/common/SpScRingBuffer/SpScRingBuffer.h:87-96 | every atomic step of tryPop and the consumer loop keeps the ring invariant |
| `RingRuns.StepRefines` | libs/common/SpScRingBuffer/SpScRingBuffer.h:39-53 | each atomic step is a step of a FIFO queue of capacity - 1 items: push at the head store, pop at the tail store, refusals at the load that caused them, which are just the loads that do not lead on to the write or the read |
| `RingRuns.LoadTailDecides` | libs/common/SpScRingBuffer/SpScRingBuffer.h:43-46 | for both kinds of push, from any reachable state: the look at the tail leads to the write iff fewer than capacity - 1 items are queued as far as it sees, else a tryPush goes to its drop and a push waits |
| `RingRuns.LoadHeadDecides` | libs/common/SpScRingBuffer/SpScRingBuffer.h:88-91 | the look at the head leads to the read iff it shows an item not yet taken, else back to the loop's test |
| `RingRuns.LoadUsedDecides` | libs/common/SpScRingBuffer/SpScRingBuffer.h:117-119 | the occupancy computed is that of the queue as far as the producer sees, so never less than its length |
| `RingRuns.RaiseDecides` | libs/common/SpScRingBuffer/SpScRingBuffer.h:117-123 | the swap loop is left only with the mark at the larger of the old mark and the occupancy; it stays, changing nothing, iff a swap that was needed failed |
| `RingRuns.FreshRefusalIff` | libs/common/SpScRingBuffer/SpScRingBuffer.h:43-46 | with current values the producer goes to write iff the queue has room and to its drop or wait iff it is full; the consumer goes to read iff there is an item |
| `RingRuns.NeverStuck` | libs/common/SpScRingBuffer/SpScRingBuffer.h:39-96 | in every reachable state a push in progress and a loop not yet left can take a step of their own |
| `RingRuns.ExactQueueServes` | libs/common/SpScRingBuffer/SpScRingBuffer.h:39-53 | what the refinement's exact queue means: it refuses a push just when no item fits and a pop just when none is there, and serves in order |
| `RingRuns.RunRefinesQueue` | libs/common/SpScRingBuffer/SpScRingBuffer.h:39-96 | every interleaving refines the bounded queue, exactly if all its loads are fresh |
| `RingRuns.RingIsBoundedFifo` | libs/common/SpScRingBuffer/SpScRingBuffer.h:26-31 | the same from the initial state, starting with the empty queue |
| `RingRuns.RunsLoseNothing` | libs/common/SpScRingBuffer/SpScRingBuffer.h:39-96 | however stale the loads: popped and delivered items are exact prefixes of the accepted, pushes answer true for exactly those, drops count the failed tries, the mark stays below the capacity |
| `RingRuns.SlotsAreExclusive` | libs/common/SpScRingBuffer/SpScRingBuffer.h:48-49 | the producer never writes a slot that is unread or being read, and the consumer reads only published items |
| `RingRuns.HighWaterIsMonotone` | libs/common/SpScRingBuffer/SpScRingBuffer.h:117-123 | the high-water mark never falls in any run |
| `RingRuns.StopsWithinOneCallback` | libs/common/SpScRingBuffer/SpScRingBufferConsumer.h:52-63 | once the stop is requested, any continuation makes at most one more callback, none if the loop stands at its test, plus at most one for each later test whose relaxed load misses the flag (libs/concurrency/PinnedThread.h:41-45) |
| `RingRuns.StopEndsLoop` | libs/common/SpScRingBuffer/SpScRingBufferConsumer.h:55 | a test that sees the stop ends the loop: in any run around it nothing is taken or delivered afterwards, and no step of the loop is possible |
| `RingRuns.StoppedIffSeen` | libs/common/SpScRingBuffer/SpScRingBufferConsumer.h:55 | the loop is left iff some test of the run has seen the stop |
| `RingRuns.StopIsUpIff` | libs/common/SpScRingBuffer/SpScRingBufferConsumer.h:40-44 | the flag is up iff it was at the start or the run has requested the stop |
| `RingCalls.TryPushIsARun` | libs/common/SpScRingBuffer/SpScRingBuffer.h:39-53 | wherever any run from the start leaves the producer idle, an uninterrupted tryPush is a fresh run: with room the item joins the queue, the answer is true and the mark covers the length; else one drop is counted |
| `RingCalls.BlockingPushIsARun` | libs/common/SpScRingBuffer/SpScRingBuffer.h:56-81 | the same for push: with room it publishes and returns true, else it waits and nothing has changed |
| `RingCalls.WaitingPushIsARun` | libs/common/SpScRingBuffer/SpScRingBuffer.h:61-79 | a waiting push that looks again publishes its item iff there is room by then |
| `RingCalls.GiveUp` | libs/common/SpScRingBuffer/SpScRingBuffer.h:73-76 | a waiting push that times out returns false, with nothing published, counted or changed |
| `RingCalls.PushSucceedsAfterPop` | libs/common/SpScRingBuffer/SpScRingBuffer.h:56-81 | a push that finds the ring full succeeds once the consumer has taken an item, and nothing is dropped |
| `RingCalls.TryPopIsARun` | libs/common/SpScRingBuffer/SpScRingBufferConsumer.h:55-58 | wherever any run from the start leaves the loop at its test, one uninterrupted pass that sees no stop is a fresh run that takes and delivers the oldest item, if any |
| `RingCalls.StaleRefusalWitness` | libs/common/SpScRingBuffer/SpScRingBuffer.h:43-46 | with an old tail value a tryPush may be refused by an empty ring, so exactness does need current loads |
| `RingCalls.StaleEmptyWitness` | libs/common/SpScRingBuffer/SpScRingBuffer.h:88-91 | with an old head value the consumer may find a ring empty that holds an item |
| `RingBuffers.SpScRingBuffer.constructor` | libs/common/SpScRingBuffer/SpScRingBuffer.h:26-31 | the ring starts empty with zero counters |
| `RingBuffers.SpScRingBuffer.TryPush` | libs/common/SpScRingBuffer/SpScRingBuffer.h:39-53 | refused and counted exactly when capacity - 1 items are queued; otherwise the item joins the back and the mark becomes the largest occupancy so far |
| `RingBuffers.SpScRingBuffer.Push` | libs/common/SpScRingBuffer/SpScRingBuffer.h:56-81 | the spinning push succeeds exactly when there is room and counts no drop |
| `RingBuffers.SpScRingBuffer.TryPop` | libs/common/SpScRingBuffer/SpScRingBuffer.h:87-96 | takes the oldest item exactly when there is one, else leaves the output alone |
| `RingBuffers.SpScRingBuffer.UpdateHighWaterMark` | libs/common/SpScRingBuffer/SpScRingBuffer.h:117-123 | the swap loop ends, however often the weak swap fails, with the larger of the old mark and the occupancy |
| `OrderPools.FreeChainIsDetermined` | libs/match/OrderPool.h:23-31 | the links and the head determine the free chain, so the chain is not a choice of the model |
| `OrderPools.FreeClearedFirstKeepsChain` | libs/match/OrderPool.h:33-37 | freeing with the clearing first puts exactly that slot at the front of the chain |
| `OrderPools.FreeAsWrittenKeepsChainIff` | libs/match/OrderPool.h:33-37 | freeing as written does so exactly when slot 0 heads the chain at the call |
| `OrderPools.FreeAsWrittenHandsOutTwice` | libs/match/OrderPool.h:23-37 | allocate slot 0 and free it as written: no chain is left, and every later allocation returns slot 0 |
| `OrderPools.AllocationsFollowChain` | libs/match/OrderPool.h:23-31 | n allocations in a row hand out the chain in order, then NO_FREE_INDEX for good |
| `OrderPools.OrderBookPool.constructor` | libs/match/OrderPool.h:12-18 | the construction loop chains all slots in index order |
| `OrderPools.OrderBookPool.Allocate` | libs/match/OrderPool.h:23-31 | hands out the head and follows its link whatever the links are; with a chain, its front, or NO_FREE_INDEX exactly when it is empty |
| `OrderPools.OrderBookPool.FreeAsWritten` | libs/match/OrderPool.h:33-37 | the code as it stands, sound iff slot 0 heads the chain |
| `OrderPools.OrderBookPool.Free` | libs/match/OrderBookEntry.h:22-25 | the intended free: the slot is blank and heads the chain, all others untouched |
| `LevelLists.ListIsDetermined` | libs/match/PriceLevels.h:17-21 | the links of a level denote at most one list |
| `LevelLists.ListsAreDisjoint` | libs/match/PriceLevels.h:51-61 | no slot is on the lists of two levels of a side |
| `LevelLists.AppendKeepsAllLinked` | libs/match/PriceLevels.h:51-61 | after the append's writes the links thread the old list plus the slot, with the right total, and all other levels stay as they were |
| `LevelLists.WithoutIsExact` | libs/match/PriceLevels.h:67-78 | removal takes out that slot alone and keeps the others and their order |
| `LevelLists.UnlinkKeepsAllLinked` | libs/match/PriceLevels.h:68-74 | after the unlink's writes head, tail, links and total are those of the list without the slot |
| `LevelLists.ReduceKeepsLinkedIff` | libs/match/PriceLevels.h:82-86 | a cut keeps the level consistent iff the slot is on its list or nothing is cut, wrap-around included |
| `LevelLists.ActiveCountUpdate` | libs/match/PriceLevels.h:88-92 | the count of active levels moves only with the level that changed |
| `PriceLevelSides.PriceLevels.HasOrders` | libs/match/PriceLevels.h:46-49 | true iff some level has orders iff the active count is positive |
| `PriceLevelSides.PriceLevels.ActiveLevelCount` | libs/match/PriceLevels.h:88-92 | the loop counts the levels with orders |
| `PriceLevelSides.PriceLevels.AppendToLevel` | libs/match/PriceLevels.h:51-61 | the slot joins the back of that level alone; the active count rises exactly if the level was empty |
| `PriceLevelSides.PriceLevels.UnlinkFromLevel` | libs/match/PriceLevels.h:63-80 | the search ends; a queued slot leaves, true iff the level emptied; any other slot changes nothing |
| `PriceLevelSides.PriceLevels.ReduceQuantity` | libs/match/PriceLevels.h:82-86 | slot and level total are cut together; the side stays valid iff the slot is queued there or nothing is cut |
| `OrderBooks.OrderBook.constructor` | libs/match/OrderBook.h:66-69 | all slots start free and all levels empty |
| `OrderBooks.OrderBook.Take` | libs/match/OrderPool.h:23-31 | a free slot becomes held, refused iff none is free; every slot stays in exactly one place |
| `OrderBooks.OrderBook.Append` | libs/match/PriceLevels.h:51-61 | a held slot becomes queued on one level of one side; the other side and the free chain are untouched |
| `OrderBooks.OrderBook.Unlink` | libs/match/PriceLevels.h:63-80 | a slot queued on that side becomes held again; any other slot stays where it is |
| `OrderBooks.OrderBook.Reduce` | libs/match/PriceLevels.h:82-86 | places and lists are kept, only that slot's quantity changes |
| `OrderBooks.OrderBook.Release` | libs/match/OrderPool.h:33-37 | a held slot becomes free; every slot stays in exactly one place |
| `LevelGrid.LevelRoundTrip` | libs/match/PriceLevels.h:35-41 | a level comes back from its price iff its offset fits in 32 bits and the mask keeps it, even if the price wraps |
| `LevelGrid.AllLevelsRoundTrip` | libs/match/PriceLevels.h:15-41 | all levels come back iff their number is a power of two and the highest offset fits in 32 bits |
| `LevelGrid.PriceBetweenTicks` | libs/match/PriceLevels.h:35-37 | a price between two ticks has the level of the tick below it |
| `LevelGrid.AlignedPricesShareLevel` | libs/match/PriceLevels.h:35-37 | with a power of two as depth, aligned prices at or above the reference share a level iff their tick distance is a multiple of the depth |
| `LevelGrid.AlignedSharingIff` | libs/match/PriceLevels.h:35-37 | for any depth: aligned prices at or above the reference share levels by the depth alone iff the mask keeps every level whose offset fits in 32 bits; if all offsets fit, iff the depth is a power of two |
| `LevelGrid.WindowLevelIsLevel` | libs/match/PriceLevels.h:35-37 | the level of every tick around the reference in closed form, counting down from floor(2^32 / tick) below it |
| `LevelGrid.StraddlingWindow` | libs/match/PriceLevels.h:35-37 | a window of that depth straddling the reference maps one-to-one iff the depth divides floor(2^32 / tick) |
| `OrderMaps.SlotsAgree` | libs/match/OrderMap.h:25-41 | insert and find use the same slot for every id iff the table has at most 65536 slots |
| `OrderMaps.InsertRepresents` | libs/match/OrderMap.h:28-30 | writing a slot that shows NONE adds exactly that id to the finite map |
| `OrderMaps.EraseIsRemoval` | libs/match/OrderMap.h:33-37 | clearing an id's slot leaves a table for the map without that id iff no other live id uses the slot; for a live id that always holds |
| `OrderMaps.FindIsLookup` | libs/match/OrderMap.h:39-41 | the slot read answers as the map does iff the id is live or no live id has its remainder |
| `OrderMaps.LiveIdsAreSpread` | libs/match/OrderMap.h:27 | live ids have distinct remainders |
| `OrderMaps.OrderMap.constructor` | libs/match/OrderMap.h:45 | the table starts as the empty map |
| `OrderMaps.OrderMap.Reset` | libs/match/OrderMap.h:21-23 | back to the empty map |
| `OrderMaps.OrderMap.Insert` | libs/match/OrderMap.h:25-31 | fails exactly when a live id uses the slot, otherwise adds the entry to the map, except that index 65535 leaves no trace |
| `OrderMaps.OrderMap.Erase` | libs/match/OrderMap.h:33-37 | whichever live id uses the slot leaves the map; a live id leaves alone |
| `OrderMaps.OrderMap.Find` | libs/match/OrderMap.h:39-41 | a live id gets its own entry, an id that collides with none gets NONE |
| `Matching.MatchClosedForm` | libs/match/MatchingEngine.h:69-98 | the loop trades the smaller of what the order wants and what the crossing front offers, taken from the front |
| `Matching.ReportsInClosedForm` | libs/match/MatchingEngine.h:80-82 | the k-th three callbacks, field by field: execution report of the order as the k-th fill leaves it, execution report of the k-th resting order, match report with the order as the incoming one |
| `Matching.ReportCount` | libs/match/MatchingEngine.h:70-94 | there is a k-th three iff the first k + 1 resting orders cross and the first k leave the order wanting more; callbacks come in threes |
| `Matching.MatchTakesFront` | libs/match/MatchingEngine.h:84-89 | orders leave from the front only, and only the first survivor may have lost quantity |
| `Matching.UnfilledMeetsNoCrossingHead` | libs/match/MatchingEngine.h:91-98 | an order the loop does not exhaust meets no crossing head at the end |
| `Matching.SlotsInStepIff` | libs/match/MatchingEngine.h:84-104 | a submission keeps slots and resting orders in step iff its quantity is positive or it meets a crossing head |
| `Matching.MatchConserves` | libs/match/MatchingEngine.h:76-82 | for any choice of orders the loop moves their quantity into execution reports and nowhere else |
| `Matching.MatchReportsBalance` | libs/match/MatchingEngine.h:80-82 | each side's execution reports of one submission total its match reports |
| `MatchingRuns.SideIsSuffixOfRested` | libs/match/MatchingEngine.h:66-105 | after any run a side is a suffix of all that ever rested there, in arrival order, all but the first with full quantity, all positive |
| `MatchingRuns.QuantityIsConserved` | libs/match/MatchingEngine.h:76-104 | over any run, for any choice of orders: submitted = resting + executed |
| `MatchingRuns.ExecutionsAreTwiceTrades` | libs/match/MatchingEngine.h:80-82 | over any run execution reports total twice the match reports |
| `MatchingRuns.SideExecutionsAreTrades` | libs/match/MatchingEngine.h:80-82 | over any run each side's execution reports total the match reports |
| `MatchingRuns.SidesAreConserved` | libs/match/MatchingEngine.h:76-104 | submitted buys = resting buys + matched, and likewise for sells |
| `MatchingRuns.OrderIsAccountedFor` | libs/match/MatchingEngine.h:76-104 | an order with its own id: original quantity = remainder + sum of its execution reports |
| `MatchingRuns.ReportsAreTrue` | libs/match/MatchingEngine.h:73-104 | every report of every run tells of submitted orders, for no more than their quantity, and every match report is between a buy and a sell whose prices cross |
| `MatchingRuns.RemainderRestsIff` | libs/match/MatchingEngine.h:101-104 | a remainder rests iff the order wants more than its crossing front offers, and then exactly that front is gone |
| `MatchingRuns.CrossedAfterIff` | libs/match/MatchingEngine.h:95-104 | from an uncrossed book, the next book is crossed iff the order outruns its crossing front and crosses an order behind the one that stopped it |
| `MatchingRuns.SortedSideStaysSorted` | libs/match/MatchingEngine.h:73-104 | a side sorted best first stays sorted, and nothing left on it crosses a rested remainder |
| `MatchingRuns.NonImprovingRunsStayUncrossed` | libs/match/MatchingEngine.h:95-104 | if rested orders arrive at non-improving prices on each side, no book of the run is crossed |
| `MatchingRuns.CrossedBookWitness` | libs/match/MatchingEngine.h:95-104 | sell at 10, sell at 5, buy at 7 ends in a crossed book |
| `EngineRuns.BucketBySymbol` | libs/match/MatchingEngine.h:56 | the symbol alone chooses the book: two orders share one iff their symbols' hashes are congruent modulo 1024 |
| `EngineRuns.OrdersRestInTheirBook` | libs/match/MatchingEngine.h:51-58 | after any run every resting order was submitted and rests in the book of its symbol's hash, on its own side |
| `EngineRuns.TradesAreTrue` | libs/match/MatchingEngine.h:51-82 | after any run every match report is between a submitted buy and sell whose prices cross and whose symbols' hashes agree modulo 1024 |
| `EngineRuns.SameSymbolTrades` | libs/match/MatchingEngine.h:51-82 | an accepted order that crosses the front order of its symbol, wherever that rests, trades with it first: the next three callbacks field by field |
| `EngineRuns.BooksAreIndependent` | libs/match/MatchingEngine.h:51-58 | a bucket's book and reports are those of its own accepted orders run alone |
| `EngineRuns.AllAcceptedIff` | libs/match/MatchingEngine.h:52-53 | all orders are accepted iff no submission finds the pool empty |
| `EngineRuns.IndependentWithoutDrops` | libs/match/MatchingEngine.h:51-58 | without drops each bucket ends as if its own subsequence had run alone |
| `EngineRuns.SlotsAreAccountedFor` | libs/match/MatchingEngine.h:52-104 | free slots + resting orders + slots lost to zero-quantity orders = pool size; none is lost with positive quantities |
| `EngineRuns.DroppedIffFull` | libs/match/MatchingEngine.h:52-53 | with positive quantities a submission is dropped iff as many orders rest as the pool has slots |
| `EngineRuns.BucketIsConserved` | libs/match/MatchingEngine.h:76-104 | per bucket and side: accepted quantity = resting + matched |
| `EngineRuns.BucketOrderIsAccountedFor` | libs/match/MatchingEngine.h:76-104 | per bucket: an accepted order with its own id is what rests in the bucket's book under that id plus its executions in the bucket's reports |
| `EngineRuns.BucketIsFifo` | libs/match/MatchingEngine.h:66-105 | per bucket and side: the book is a suffix of what ever rested, in arrival order |
| `MatchingEngines.MatchTurns` | libs/match/MatchingEngine.h:76-94 | one turn of the loop is one turn of the rule, carried along with the reports and releases so far |
| `MatchingEngines.MatchingEngine.constructor` | libs/match/MatchingEngine.h:38-43 | an engine starts as the empty run |
| `MatchingEngines.MatchingEngine.SubmitOrder` | libs/match/MatchingEngine.h:51-58 | the engine after a submission is the run on values with that order appended, drops included; only the book of the symbol's hash modulo 1024 changes |
| `MatchingEngines.MatchingEngine.CrossingTurn` | libs/match/MatchingEngine.h:76-94 | the loop body in place: cuts, the three callbacks field by field, releases and erasure, with every slot still in one place |
| `MatchingEngines.MatchingEngine.MatchLoop` | libs/match/MatchingEngine.h:69-98 | the erase-while-iterating loop refines the functional rule, its index being 0 at every test |
| `MatchingEngines.MatchingEngine.MatchOrder` | libs/match/MatchingEngine.h:66-105 | the whole call refines the submission on values: that book, the free slots and the callbacks, all other books untouched |
| `Framing.FrameIsEncoded` | libs/networking/tcp/TcpFramer.h:41-46 | what leaves the buffer is the encoding of the frame handed out |
| `Framing.SessionsAreFaithful` | libs/networking/tcp/TcpFramer.h:28-48 | any bytes, any interleaving of push and nextFrame: re-encoded frames plus the buffer are the accepted bytes |
| `Framing.FramesArePrefix` | libs/networking/tcp/TcpEncoder.h:25-30 | bytes that start an encoded message list can only yield a prefix of that list |
| `Framing.MessagesComeBack` | libs/networking/tcp/TcpFramer.h:40-48 | messages under 65536 bytes, cut into any chunks, come back unchanged and in order |
| `Framing.DrainedHoldsLittle` | libs/networking/tcp/TcpFramer.h:41-44 | a drained framer fed payloads of at most L bytes holds at most L + 1 bytes |
| `Framing.EnoughRoomNeverOverflows` | libs/networking/tcp/TcpFramer.h:29-31 | with room for L + 1 + c bytes and a drain after each chunk of at most c, no push overflows |
| `Framing.RoomBoundIsExact` | libs/networking/tcp/TcpFramer.h:29-31 | that room is exactly what is needed: with less, some such stream overflows |
| `Framing.ServedMessagesComeBack` | libs/networking/tcp/TcpFramer.h:28-48 | such a feed delivers exactly the messages and leaves an empty buffer |
| `Framing.LengthCastIsHarmlessIff` | libs/networking/tcp/TcpEncoder.h:26 | a single message survives encoding and framing iff it is shorter than 65536 bytes |
| `Framing.TcpEncoder.EncodeTo` | libs/networking/tcp/TcpEncoder.h:25-30 | resizing and copying to the end appends the 16-bit length, low byte first, and the payload |
| `Framing.TcpFramer.constructor` | libs/networking/tcp/TcpFramer.h:21 | a framer starts as the empty session |
| `Framing.TcpFramer.Push` | libs/networking/tcp/TcpFramer.h:28-33 | overflows exactly when the buffer would exceed the limit, and then changes nothing |
| `Framing.TcpFramer.NextFrame` | libs/networking/tcp/TcpFramer.h:40-48 | hands out a frame exactly when a whole one is there; header and payload leave the buffer |
| `FeedBooks.UpsertKeepsBestIff` | libs/market-data/OrderBookFeed.h:56-80 | one upsert keeps the book the best of the live orders iff a shown order does not fall behind a forgotten one |
| `FeedBooks.RemovalKeepsBestIff` | libs/market-data/OrderBookFeed.h:90-99 | one removal keeps it the best iff it takes nothing shown or nothing is forgotten |
| `FeedBooks.UpsertCutsWorst` | libs/market-data/OrderBookFeed.h:73-80 | an upsert cuts only from a full side, and cuts nothing higher (bids) or lower (asks) than what it leaves |
| `FeedBooks.BestIsFrontOfLadder` | libs/market-data/OrderBookFeed.h:73-80 | a book that shows the best has exactly the front of the full price ladder |
| `FeedRuns.LiveIsLastVersions` | libs/market-data/OrderBookFeed.h:60-99 | the reference holds exactly the orders whose id was last named by their own upsert, ids unique |
| `FeedRuns.ReachableBooksAreTidy` | libs/market-data/OrderBookFeed.h:73-99 | every book that upserts and removals reach is sorted, has unique ids and respects the depth |
| `FeedRuns.EventKeepsBestIff` | libs/market-data/OrderBookFeed.h:56-99 | both conditions in one, on what is shown and what is live before the event |
| `FeedRuns.RunShowsBestIff` | libs/market-data/OrderBookFeed.h:56-99 | every book of a run shows the best of the orders then live iff every event is harmless where it happens |
| `FeedRuns.GentleRunShowsBest` | libs/market-data/OrderBookFeed.h:56-99 | a condition on the events alone: while no more orders are live than fit, or the event worsens and removes no live order, every book shows the best |
| `FeedRuns.FeedShowsBestPrices` | libs/market-data/OrderBookFeed.h:56-99 | after harmless events the shown prices are the maxLevels best prices of the live orders |
| `FeedRuns.FeedLeavesOutWorst` | libs/market-data/OrderBookFeed.h:56-99 | after harmless events the side starts with the highest live bid or the lowest live ask, and a live order is left out only when the side is full of orders at least as high (bids) or as low (asks) |
| `FeedRuns.WorseningWitness` | libs/market-data/OrderBookFeed.h:63-80 | a worsened order stays shown although a better one was forgotten |
| `FeedRuns.RemovalWitness` | libs/market-data/OrderBookFeed.h:90-99 | removing the shown order leaves an empty book although a forgotten order is live |
| `OrderBookFeeds.OrderBookFeed.constructor` | libs/market-data/OrderBookFeed.h:37-42 | both sides start empty |
| `OrderBookFeeds.OrderBookFeed.Upsert` | libs/market-data/OrderBookFeed.h:56-83 | the named side becomes a cut of the updated list sorted by price, bids falling and asks rising, nothing cut being better than what is left; its run grows by it; the other side is untouched |
| `OrderBookFeeds.OrderBookFeed.Remove` | libs/market-data/OrderBookFeed.h:90-101 | exactly the order with that id leaves and the others keep their order; the side's run grows by the removal |
| `OrderBookFeeds.OrderBookFeed.Snapshot` | libs/market-data/OrderBookFeed.h:106-109 | both copies are tidy, bids falling and asks rising, and if the events of a side were harmless it shows the best of its live orders, starting with the highest bid or the lowest ask |

## Left out

- `OrderBook::addOrder`, `cancelOrder`, `modifyOrder`, `tryMatch`, `scanForNewBest`: declared without bodies, so there is nothing to model; the structural steps they would use are in `OrderBook.dfy`.
- Time in force, `AddResult`, `MatchResult`, `ExecutionReport`: constants and records that no code acts on.
- `MatchingEnginePartition`: its matching is a stub that fills everything; its queues are the ring.
- Sockets, TCP and UDP clients and servers, pipelines, heartbeats, connection management, the market-data pipeline and the synthetic injector: I/O, timing and randomness.
- Clocks: the timeout of the spinning push is a choice of the run (`TimeOut`) or a number of spins; CPU pauses and pinning have no effect here.
- Data races as such: buffer slots are read and written atomically in the step system; that no slot is ever accessed by both sides at once is proved, so the simplification hides nothing.
- The symbol hash: an arbitrary function followed by the remainder by 1024, so two symbols may share a book and no separation of symbols is claimed.
- Callbacks: their calls are logged in order; re-entrant callbacks, the feed's mutex and its update callback are not modelled.
- Multi-threaded use of the pool: `allocate` and `free` are plain loads and stores for one owner.
- Floating-point prices of the feed are real numbers; rounding plays no part, NaN is excluded. The order among equal prices after `std::sort` is left open.
- `setBestLevel`, `bestLevel`, `setReferencePrice`, `setTickSize`, `reset` of the price levels: plain assignments.
- Overflow of `size_t` sums in the framer and the ring: sizes are far below 2^64.
- `LevelGrid.AlignedPricesShareLevel`: needs a power of two as depth; `AlignedSharingIff` says exactly which other depths do as well.
- `LevelGrid.WindowLevelIsLevel`: needs a power of two as depth and a whole turn of offsets within 32 bits, like `StraddlingWindow`; no closed form for other masks.
- The load of the stop flag may miss a request any number of times; that it sees one in the end is not claimed.
