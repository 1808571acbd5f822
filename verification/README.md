# A verified model of an exchange and market-data stack

This project models the trading core of the repository in Dafny and proves what it promises: price-time
priority matching over an array order book, the lock-free ring buffer and the pipeline that drains it,
the OUCH-style wire protocol with the exchange's session layer, position keeping, and pre-trade risk.

How the parts relate:

- `BookSpec` is the order book as a reader thinks of it: one queue per side in priority order, with the
  match loop and a loop-free definition of price-time priority that has exactly one outcome.
- `Levels`, `Bits` and `Bitmap` are the values behind the program's fast structures: arrays of FIFO levels
  and 64-bit bitmap words. Reading the levels from best to worst price gives the priority queue; scanning
  words gives what the linear scan gives.
- `PriceLevel`, `BookSide`, `FixedHashMap`, `OrderPool`, `ArrayOrderBook`, `MatchingEngine` and
  `BookConsumer` are classes with the program's own fields and pointer writes. Each method is proved
  against the functions above; `Valid()` is the representation invariant that every method keeps.
- `EngineSpec`, `EngineRuns` and `EngineLedger` state what holds after every sequence of submissions;
  `FeedSpec` does so for every sequence of market-data events; `Positions` for the trades of a run.
- `SpscRing` and `Pipeline` are state machines over the atomic steps of two threads. A load of the other
  thread's index may return any value stored since the one last seen, which is what acquire and release
  leave open; a run is any sequence of steps.
- `Wire` and `Ouch` are the codecs; `ExchangeSpec` and `Exchange` connect messages, orders, trades and
  reports; `Framing` and `ClientSession` cut the byte stream into frames and write responses through a
  transport that may take or deliver any number of bytes, block, be interrupted or fail at every call.
- `Risk` holds the limits, the gateway and the runs of both.

Where the code does not do what one would expect, the model follows the code and the exact condition is
proved: a resting order of quantity 0 stops the match loop early (`AlwaysUncrossedIff`), a partial
reduction leaves the level's total behind (`LevelTotal`), an answer is dropped when an earlier one still
waits (`HandleFrame`), every side byte but B reads as a sell (`EnterOrderReencode`), and the 64-bit order
value can wrap around (`ValueLimitIff`).

Sizes are symbolic: the number of price levels, the pool and index capacities, the ring capacity and the
hash function are arbitrary. Prices, quantities and ids are unbounded naturals except where the width
matters: level totals, positions, wire fields, sequence numbers, metrics, and the order value.

## Model

| member | source | states |
|---|---|---|
| `BookSpec.MatchIsPriceTimePriority` | orderbook/software/matching_engine.cpp:74-150 | on positive quantities the match loop's fills, remainder and remaining queue are the price-time-priority outcome: a prefix of the queue in priority order, each fill the smaller of the two quantities, only the last touched order partly filled |
| `BookSpec.PriceTimePriorityIsUnique` | orderbook/software/matching_engine.cpp:74-150 | price-time priority, stated without the loop, admits one outcome only |
| `BookSpec.MatchIsLoopOutcome` | orderbook/software/matching_engine.cpp:74-150 | for every queue, zero quantities included, the loop's outcome meets a loop-free description: fills in priority order that end with the order, with the crossing prices, or right after the first order of quantity 0 |
| `BookSpec.LoopOutcomeIsUnique` | orderbook/software/matching_engine.cpp:74-150 | that description admits one outcome only |
| `BookSpec.PriceTimePriorityIff` | orderbook/software/matching_engine.cpp:74-150 | on every sorted queue the loop's outcome is the price-time-priority one if and only if it does not stall |
| `BookSpec.MatchConserves` | orderbook/software/matching_engine.cpp:114-131 | for every queue, what trades leaves both the incoming order and the queue, and nothing else does |
| `BookSpec.FillsCross` | orderbook/software/matching_engine.cpp:188-192 | every fill is with the next order of the queue, at its price, which crosses the incoming limit, and never for more than it holds |
| `BookSpec.RestIsSuffix` | orderbook/software/matching_engine.cpp:139-147 | what remains is a suffix of the queue, only its head reduced; every fill but at most one removes an order |
| `BookSpec.CrossingRemainder` | orderbook/software/matching_engine.cpp:77-95 | the unfilled remainder still crosses the remaining book if and only if the loop stopped at a resting order of quantity 0 with a crossing order behind it |
| `BookSpec.InsertPosition` | orderbook/software/array_order_book.cpp:29-79 | arrival puts an order behind every equal or better price and ahead of every worse one, and keeps the priority order |
| `Bits.SetBit` | orderbook/software/array_order_book.cpp:446-447 | the or-mask sets one bit and keeps the others |
| `Bits.ClearBit` | orderbook/software/array_order_book.cpp:468-469 | the and-not-mask clears one bit and keeps the others |
| `Bits.MaskBit` | orderbook/software/array_order_book.cpp:9-24 | the lower-bits mask has exactly the bits below its argument, 0 and 64 included |
| `Bits.HighestSetBit` | orderbook/software/array_order_book.cpp:355-361 | 63 minus the leading zeros of a non-zero word is its highest set bit |
| `Bits.LowestSetBit` | orderbook/software/array_order_book.cpp:415-419 | the trailing zeros of a non-zero word are its lowest set bit |
| `Bitmap.SetLevelActive` | orderbook/software/array_order_book.cpp:429-448 | marks one price active and no other |
| `Bitmap.ClearLevelActive` | orderbook/software/array_order_book.cpp:451-470 | marks one price inactive and no other |
| `Bitmap.LinearDownMeans` | docs/performance/P09_Bitmap_OrderBook_Optimization.md:47-61 | the one-level-at-a-time scan finds the highest active price at or below its start, or 0 |
| `Bitmap.LinearUpMeans` | docs/performance/P09_Bitmap_OrderBook_Optimization.md:47-63 | the upward scan finds the lowest active price at or above its start, or 0 |
| `Bitmap.NextBelow` | orderbook/software/array_order_book.cpp:319-367 | the word scan returns what the linear scan from the next lower price returns, across word boundaries and for an empty side |
| `Bitmap.NextAbove` | orderbook/software/array_order_book.cpp:378-425 | the word scan returns what the linear scan from the next higher price returns, bit 63 and the last word included |
| `Levels.FlattenSorted` | orderbook/software/array_order_book.cpp:264-285 | an array of levels read from best to worst price is in priority order |
| `Levels.FlattenInsert` | orderbook/software/array_order_book.cpp:29-55 | appending to the level of its price is inserting into the priority queue |
| `Levels.FlattenRemove` | orderbook/software/array_order_book.cpp:96-99 | taking an order out of its level removes it from the priority queue and changes nothing else |
| `Levels.FlattenSetQuantity` | orderbook/software/array_order_book.cpp:176-177 | changing a quantity in a level changes it in the priority queue, in place |
| `Levels.LevelIsAtPrice` | orderbook/software/array_order_book.cpp:264-285 | a level is exactly the part of the priority queue at its price, in order |
| `PriceLevels.PriceLevel.PushBack` | orderbook/software/price_level.hpp:32-45 | the next/prev chain becomes the old FIFO sequence with the order last, and the 32-bit total grows by its quantity |
| `PriceLevels.PriceLevel.LinkLast` | orderbook/software/price_level.hpp:34-43 | the pointer writes keep one acyclic chain with head and tail at its ends |
| `PriceLevels.PriceLevel.Remove` | orderbook/software/price_level.hpp:58-78 | the chain loses exactly that order, the total its quantity, and the order's links are cleared |
| `PriceLevels.PriceLevel.Unlink` | orderbook/software/price_level.hpp:63-77 | unlinking at the head, the tail or in between keeps one acyclic chain |
| `PriceLevels.PriceLevel.Reduce` | orderbook/software/array_order_book.cpp:176-177 | a partial cancellation changes the order only; the level's total stays, so total = resting + reductions modulo 2^32 still holds |
| `PriceLevels.PriceLevel.Fill` | orderbook/software/matching_engine.cpp:130-137 | a fill takes the same amount off the order and off the level's 32-bit total |
| `BookSides.BookSide.constructor` | orderbook/software/array_order_book.cpp:272-309 | an empty side: no level in use, no bit set, no best price |
| `BookSides.BookSide.Add` | orderbook/software/array_order_book.cpp:29-74 | chains, bitmap and cached best agree again and the side's priority queue is the old one with the order inserted |
| `BookSides.BookSide.Remove` | orderbook/software/array_order_book.cpp:96-127 | the same after taking an order out, with the best price found again when its level emptied |
| `BookSides.BookSide.Reduce` | orderbook/software/array_order_book.cpp:176-177 | the order keeps its place with less quantity; its level records the reduction |
| `BookSides.BookSide.Fill` | orderbook/software/matching_engine.cpp:130-137 | the order keeps its place with less quantity and the level's total follows |
| `BookSides.BookSide.RefreshBest` | orderbook/software/array_order_book.cpp:312-426 | after the best level emptied the cached best is the true best of what is left, or 0 |
| `BookSides.BookSide.BestIsHead` | orderbook/software/array_order_book.cpp:288-309 | the front order of the cached best level is the head of the priority queue; no best means an empty side |
| `BookSides.BookSide.LevelTotal` | orderbook/software/price_level.hpp:44-73 | a level's total is the quantity resting at its price plus all partial reductions there, modulo 2^32 |
| `Hashing.FixedHashMap.constructor` | common/fixed_hash_map.hpp:186-187 | an empty map for every capacity and every hash function |
| `Hashing.FixedHashMap.Find` | common/fixed_hash_map.hpp:65-86 | linear probing with tombstones answers as a finite map does, for every hash function |
| `Hashing.FixedHashMap.Contains` | common/fixed_hash_map.hpp:140-143 | membership in the finite map |
| `Hashing.FixedHashMap.Insert` | common/fixed_hash_map.hpp:13-64 | the map gains or overwrites the key; refused if and only if the key is absent and every slot is occupied |
| `Hashing.FixedHashMap.Place` | common/fixed_hash_map.hpp:37-47 | reusing the first tombstone or the empty slot of a probe path keeps every other key reachable, and no key is stored twice |
| `Hashing.FixedHashMap.Erase` | common/fixed_hash_map.hpp:111-137 | the map loses exactly that key; true if and only if it was there; the size follows |
| `Hashing.FixedHashMap.MissedKey` | common/fixed_hash_map.hpp:69-83 | a key not met before an empty slot, or on a whole turn, is not stored |
| `Hashing.FixedHashMap.FullTable` | common/fixed_hash_map.hpp:18-63 | the number of keys is the capacity if and only if every slot is occupied |
| `Hashing.FixedHashMap.Erased` | common/fixed_hash_map.hpp:124-130 | a tombstone keeps every other key's probe path free of empty slots |
| `OrderBooks.ArrayOrderBook.constructor` | orderbook/software/array_order_book.hpp:25-58 | an empty book whose index, levels and bitmaps agree |
| `OrderBooks.ArrayOrderBook.AddOrder` | orderbook/software/array_order_book.cpp:29-79 | the whole representation invariant is kept and the book is the old one with the order inserted on its side |
| `OrderBooks.ArrayOrderBook.CancelOrder` | orderbook/software/array_order_book.cpp:82-132 | null if and only if the id does not rest; otherwise the book without that order, returned unlinked |
| `OrderBooks.ArrayOrderBook.ReduceOrder` | orderbook/software/array_order_book.cpp:135-182 | refused exactly for an unknown id, 0, or more than rests; a part keeps the place, is recorded at the level and changes no level's total; all of it removes the order |
| `OrderBooks.ArrayOrderBook.ExecuteOrder` | orderbook/software/array_order_book.cpp:185-192 | the same as a reduction, totals included |
| `OrderBooks.ArrayOrderBook.ReplaceOrder` | orderbook/software/array_order_book.cpp:195-261 | refused in exactly the five cases of the code; otherwise the order moves to the back of its new price with its side and account |
| `OrderBooks.ArrayOrderBook.FillInPlace` | orderbook/software/matching_engine.cpp:130-137 | a fill changes one order's quantity and its level's total; index, bitmap, bests and places stay |
| `OrderBooks.ArrayOrderBook.Best` | orderbook/software/array_order_book.cpp:288-309 | the front of the best level is the order with priority on its side |
| `OrderBooks.ArrayOrderBook.Lookup` | orderbook/software/array_order_book.cpp:85-94 | the id index holds exactly the linked orders, each under its own id and linked on its own side |
| `OrderBooks.ArrayOrderBook.IdsAreUnique` | orderbook/software/array_order_book.cpp:76-78 | no id rests twice in a valid book |
| `OrderBooks.ArrayOrderBook.LevelTotal` | orderbook/software/price_level.hpp:44-73 | in every valid book each level's total is what rests at its price plus the reductions applied there, modulo 2^32 |
| `OrderPools.OrderPool.constructor` | orderbook/software/order_pool.cpp:3-13 | all orders free, none in use |
| `OrderPools.OrderPool.Acquire` | orderbook/software/order_pool.cpp:15-31 | hands out an order that was not in use; null if and only if all are |
| `OrderPools.OrderPool.Release` | orderbook/software/order_pool.cpp:33-50 | the order is not in use afterwards; a second release, a foreign order or null changes nothing |
| `OrderPools.OrderPool.Partition` | orderbook/software/order_pool.cpp:15-50 | used and free orders always make up the storage |
| `Sequencers.Sequencer.Next` | sequencer/sequencer.cpp:3-6 | the next 64-bit number, larger than all before until wrap-around |
| `Matching.MatchingEngine.constructor` | orderbook/software/matching_engine.cpp:3-9 | an engine with an empty book, a full pool and sequence 1000 |
| `Matching.MatchingEngine.PrepareOrder` | orderbook/software/matching_engine.cpp:210-244 | null if and only if the pool is used up; otherwise a numbered order outside the book, and the book unchanged |
| `Matching.MatchingEngine.CanCrossMeans` | orderbook/software/matching_engine.cpp:55-72 | the cached best price answers whether the head of the opposite queue crosses |
| `Matching.MatchingEngine.CreateTrade` | orderbook/software/matching_engine.cpp:152-198 | buyer and seller by side, the resting price, and the next sequence number |
| `Matching.MatchingEngine.MatchOne` | orderbook/software/matching_engine.cpp:97-150 | one iteration of the specified loop: the trade is published, a used-up resting order out of the book and back in the pool, false when nothing traded |
| `Matching.MatchingEngine.MatchLoop` | orderbook/software/matching_engine.cpp:77-85 | terminates, and publishes exactly the fills of the specified match, in order |
| `Matching.MatchingEngine.ExecuteTrade` | orderbook/software/matching_engine.cpp:74-95 | then rests the remainder or returns the order to the pool: the specified outcome |
| `Matching.MatchingEngine.Rest` | orderbook/software/matching_engine.cpp:89-89 | resting never fails: the pool leaves room in the index, and the id is fresh |
| `Matching.MatchingEngine.Retire` | orderbook/software/matching_engine.cpp:93-93 | a fully traded order is in use no longer, and the book is as it was |
| `Matching.MatchingEngine.Process` | orderbook/software/matching_engine.cpp:37-53 | book, sequence and published trades become those of the specification; null is ignored |
| `Matching.MatchingEngine.SubmitOrder` | orderbook/software/matching_engine.cpp:11-35 | id, trades and book of the specification; 0 and no change if and only if the pool is used up; afterwards the orders in use are exactly the resting ones |
| `Matching.MatchingEngine.RoomInIndex` | orderbook/software/array_order_book.cpp:76-78 | with a prepared order at hand the index has a free slot, so the insert whose result is ignored succeeds |
| `Matching.MatchingEngine.TotalsAreExact` | orderbook/software/price_level.hpp:44-73 | on every engine run each level's total is what rests at its price, modulo 2^32, with no reduction term |
| `EngineSpec.FewFills` | orderbook/software/matching_engine.cpp:77-85 | an order trades at most once with each resting order |
| `EngineRuns.RunStructure` | orderbook/software/matching_engine.cpp:11-53 | after every run of submissions both sides are in priority order, ids are unique, at most `capacity` orders rest, and n accepted orders draw at most 2n numbers |
| `EngineRuns.ProcessMeans` | orderbook/software/matching_engine.cpp:37-150 | after any order on any well-formed book: the opposite queue is exactly what the fills leave of it, each fill is reported in turn with its parties, price and number, and the remainder stands behind every equal or better price of its own side, which is otherwise as it was |
| `EngineRuns.AcceptedIffRoom` | orderbook/software/matching_engine.cpp:11-35 | a run takes a submission if and only if fewer than `capacity` orders rest, under the next number; otherwise the answer is 0 and nothing changes |
| `EngineRuns.RunTimeOrdered` | orderbook/software/matching_engine.cpp:74-150 | in every run orders at one price of one side rest in the order they came, also after partial fills |
| `EngineRuns.DrawsAreConsecutive` | sequencer/sequencer.cpp:3-6 | order ids and trade numbers of a run are consecutive from 1001 on |
| `EngineRuns.NumbersAreDistinct` | orderbook/software/matching_engine.cpp:194-225 | ids grow, trade numbers grow, and no order shares a number with a trade |
| `EngineRuns.UncrossedIffNoStall` | orderbook/software/matching_engine.cpp:37-95 | processing keeps an uncrossed book uncrossed if and only if the loop does not stall on a zero-quantity order |
| `EngineRuns.NeverCrossed` | orderbook/software/matching_engine.cpp:37-95 | on every run of positive quantities every book is uncrossed: a side is empty or best bid < best ask |
| `EngineRuns.AlwaysUncrossedIff` | orderbook/software/matching_engine.cpp:37-95 | for every run at all: every book along it is uncrossed if and only if no submission stalls |
| `EngineRuns.ZeroQuantityLocksTheBook` | orderbook/software/matching_engine.cpp:81-90 | a concrete run with one order of quantity 0 after which bid and ask rest at the same price |
| `EngineLedger.EveryOrderAddsUp` | orderbook/software/matching_engine.cpp:114-137 | in every run and for every id, submitted quantity = resting quantity + executed quantity |
| `EngineLedger.QuantityIsConserved` | orderbook/software/matching_engine.cpp:114-137 | in every run, total submitted = total resting + twice total traded |
| `EngineLedger.EveryTradeIsExplained` | orderbook/software/matching_engine.cpp:152-198 | in every run each trade is between two accepted orders of opposite sides and its accounts, at a price within both limits that is the limit of the earlier order |
| `Positions.PositionManager.OnTrade` | position/position_manager.cpp:3-7 | after any trades each account's position is the 32-bit image of bought minus sold; accounts that never traded have none; self-trades included |
| `Positions.PositionManager.SumToZero` | position/position_manager.cpp:3-7 | the positions of all accounts sum to 0 modulo 2^32 |
| `Positions.PositionOfRun` | position/position_manager.cpp:3-17 | after any engine run an account's net trades are what its own buy orders executed minus what its own sell orders executed |
| `FeedSpec.AddMeans` | pipeline/market_data_book_consumer.cpp:16-38 | an added order queues behind every equal or better price of its side; dropped exactly when the pool is used up |
| `FeedSpec.ReductionMeans` | pipeline/market_data_book_consumer.cpp:40-76 | a cancel or execute event for part of an order keeps the queue position and adds the amount to the record of its side and price; for all of it, removes just that order and records nothing; 0 or too much is ignored |
| `FeedSpec.DeleteMeans` | pipeline/market_data_book_consumer.cpp:53-63 | a delete removes the order at its position and nothing else |
| `FeedSpec.ReplaceMeans` | pipeline/market_data_book_consumer.cpp:78-87 | a replacement moves to the back of its new price, keeping side and account; refused for id or quantity 0 and for an id that rests |
| `FeedSpec.UnknownIdIsIgnored` | orderbook/software/array_order_book.cpp:85-91 | events about an id that does not rest leave everything unchanged |
| `FeedSpec.ReplayKeeps` | pipeline/market_data_book_consumer.cpp:11-89 | every replay keeps priority order, unique ids and the pool bound |
| `FeedSpec.ReplayRecords` | orderbook/software/array_order_book.cpp:176-181 | after any replay the recorded reductions of every side and price are what cancel and execute events took out there in part, summed over the events and the books they met |
| `FeedSpec.AddThenDelete` | pipeline/market_data_book_consumer.cpp:16-63 | deleting an order just added restores the book and the accounting |
| `FeedSpec.TwoReductions` | orderbook/software/array_order_book.cpp:152-181 | two reductions are one reduction by the sum |
| `Consumers.MarketDataBookConsumer.Consume` | pipeline/market_data_book_consumer.cpp:11-89 | each event does to the real book what the fold's step does, and the pool's orders in use stay exactly the resting ones |
| `Consumers.MarketDataBookConsumer.Add` | pipeline/market_data_book_consumer.cpp:16-38 | an add is dropped if and only if the pool is used up |
| `Consumers.MarketDataBookConsumer.Reduce` | pipeline/market_data_book_consumer.cpp:40-76 | an order reduced to nothing goes back to the pool |
| `Consumers.MarketDataBookConsumer.Delete` | pipeline/market_data_book_consumer.cpp:53-63 | a deleted order goes back to the pool |
| `Consumers.MarketDataBookConsumer.Replace` | pipeline/market_data_book_consumer.cpp:78-87 | a replacement keeps its pool object |
| `Consumers.MarketDataBookConsumer.ConsumeAll` | pipeline/dispatcher.cpp:23-37 | draining any sequence of events gives the book of the functional fold |
| `Consumers.MarketDataBookConsumer.TotalsOfReplay` | orderbook/software/price_level.hpp:44-73 | after any replay from an empty book each level's total is what rests at its price plus what the events took out there in part, modulo 2^32 |
| `SpscRing.FifoSafety` | common/spsc_ring_buffer.hpp:42-123 | in every interleaving with any stale index reads, the values pops returned are the first of the values given to accepted pushes, in order; there are at most capacity - 1 elements; the threads never touch one slot |
| `SpscRing.AccessesAreOrdered` | common/spsc_ring_buffer.hpp:50-116 | each slot access comes after the other thread's last access of it by an index that was seen: no data race, and the value read is the one given to that push |
| `SpscRing.RefusedOnlyWhenSeenFull` | common/spsc_ring_buffer.hpp:47-60 | a push is refused if and only if the tail it saw makes the ring full |
| `SpscRing.RefusedOnlyWhenSeenEmpty` | common/spsc_ring_buffer.hpp:97-110 | a pop is refused if and only if the head it saw makes the ring empty |
| `SpscRing.MetricsAreTrue` | common/spsc_ring_buffer.hpp:68-120 | between calls the counters are the accepted pushes, returned pops and refusals of the trace modulo 2^64; the high-water mark is the largest depth a completed push computed, never below the elements there ever were and at most capacity - 1 |
| `SpscRing.CallsComplete` | common/spsc_ring_buffer.hpp:42-123 | no call waits for the other thread: every step of its own brings it closer to returning, and no step of the other changes where it is |
| `SpscRing.DistanceIsDifference` | common/spsc_ring_buffer.hpp:73-76 | the two-branch depth formula on wrapped indices is the number of elements |
| `SpscRing.NextKeeps` | common/spsc_ring_buffer.hpp:42-123 | every atomic step of either thread keeps the ring's invariant |
| `Pipelines.ConsumedInOrder` | pipeline/market_data_pipeline.cpp:64-97 | at every moment the consumer has had a prefix of the events given to submits that were not refused, each once, in order |
| `Pipelines.StopDrains` | pipeline/market_data_pipeline.cpp:39-97 | whenever stop returns from ending a worker, in any cycle of starts and stops, exactly the submitted events have been consumed, in order, and the processed count is what was consumed since the last start |
| `Pipelines.NeverAhead` | pipeline/market_data_pipeline.cpp:58-96 | the processed count never exceeds what was consumed since the last start |
| `Pipelines.WorkerProgress` | pipeline/market_data_pipeline.cpp:73-97 | while stop waits, every worker step but a stale flag load brings the end strictly closer, and a step is always possible |
| `Pipelines.StopReturns` | pipeline/market_data_pipeline.cpp:39-50 | from every reachable state in which stop waits, it can return within a computed number of worker steps |
| `Pipelines.CallsTakeEffect` | pipeline/market_data_pipeline.cpp:22-50 | start begins a worker with count 0 unless one runs, stop clears the flag and waits unless none runs, and neither touches the queue |
| `Pipelines.FlagReads` | pipeline/market_data_pipeline.cpp:73-75 | the worker may still read the old flag after it was cleared, and never the cleared one before |
| `Wire.ReadDigits` | execution/ouch/ouch_wire_utils.hpp:27-43 | reading the base-256 digits of a value gives the value |
| `Wire.DigitsOfRead` | execution/ouch/ouch_wire_utils.hpp:79-94 | writing what was read gives the same bytes |
| `Wire.DigitByShift` | execution/ouch/ouch_wire_utils.hpp:87-92 | shifting and masking yields the digit at that place |
| `Wire.ReadUint16` | execution/ouch/ouch_wire_utils.hpp:9-15 | the big-endian value of two bytes |
| `Wire.ReadUint32` | execution/ouch/ouch_wire_utils.hpp:17-25 | the big-endian value of four bytes |
| `Wire.ReadUint64` | execution/ouch/ouch_wire_utils.hpp:27-43 | the shift loop computes the big-endian value of eight bytes and never loses a bit |
| `Wire.WriteUint16` | execution/ouch/ouch_wire_utils.hpp:45-56 | two big-endian digits at the offset, all other bytes untouched |
| `Wire.WriteUint32` | execution/ouch/ouch_wire_utils.hpp:58-77 | four big-endian digits at the offset, all other bytes untouched |
| `Wire.WriteUint64` | execution/ouch/ouch_wire_utils.hpp:79-94 | the shift loop writes eight big-endian digits, all other bytes untouched |
| `Wire.Round64` | execution/ouch/ouch_wire_utils.hpp:27-94 | writing and reading are inverse for every 64-bit value |
| `Ouch.EncodeEnterOrder` | execution/ouch/ouch_encoder.cpp:64-143 | the buffer holds the 47-byte layout, field by field |
| `Ouch.EncodeAccepted` | execution/ouch/accepted_encoder.cpp:10-138 | the buffer holds the 64-byte layout, field by field |
| `Ouch.EncodeExecuted` | execution/ouch/executed_encoder.cpp:8-46 | the buffer holds the 36-byte layout, field by field |
| `Ouch.DecodeEnterOrder` | execution/ouch/decoders/enter_order_decoder.cpp:51-118 | none if and only if the message is short or of another type |
| `Ouch.DecodeAccepted` | execution/ouch/decoders/accepted_decoder.cpp:9-101 | none if and only if the message is short, of another type, or its appendage is not all there |
| `Ouch.DecodeExecuted` | execution/ouch/decoders/executed_decoder.cpp:7-61 | none if and only if the message is short, of another type, or its appendage is not all there |
| `Ouch.EnterOrderRoundTrip` | execution/ouch/decoders/enter_order_decoder.cpp:51-118 | decoding an encoded order gives it back with appendage length 0 |
| `Ouch.EnterOrderInjective` | execution/ouch/ouch_encoder.cpp:64-143 | two orders have the same bytes if and only if they agree on all fields but the appendage length |
| `Ouch.EnterOrderNormalized` | execution/ouch/decoders/enter_order_decoder.cpp:51-118 | encoding any decoded message gives its 47 bytes back but for the side byte, where everything but B becomes S, and the appendage length, which becomes 0 |
| `Ouch.EnterOrderReencode` | execution/ouch/decoders/enter_order_decoder.cpp:51-118 | encoding a decoded message gives its bytes back if and only if its side byte is B or S and it announces no appendage |
| `Ouch.AcceptedRoundTrip` | execution/ouch/decoders/accepted_decoder.cpp:9-101 | an encoded Accepted followed by any bytes decodes to itself if its appendage is all there, else to none |
| `Ouch.AcceptedInjective` | execution/ouch/accepted_encoder.cpp:10-138 | different records have different bytes |
| `Ouch.AcceptedNormalized` | execution/ouch/decoders/accepted_decoder.cpp:9-101 | encoding any decoded Accepted gives its 64 bytes back but for the side byte, where everything but B becomes S |
| `Ouch.AcceptedReencode` | execution/ouch/decoders/accepted_decoder.cpp:9-101 | encoding a decoded Accepted gives its bytes back if and only if its side byte is B or S |
| `Ouch.ExecutedRoundTrip` | execution/ouch/decoders/executed_decoder.cpp:7-61 | an encoded Executed followed by any bytes decodes to itself if its appendage is all there, else to none |
| `Ouch.ExecutedInjective` | execution/ouch/executed_encoder.cpp:8-46 | different records have different bytes |
| `Ouch.ExecutedReencode` | execution/ouch/decoders/executed_decoder.cpp:7-61 | encoding a decoded Executed always gives its bytes back |
| `ExchangeSpec.IsEngineRun` | exchange/exchange_ouch_handler.cpp:16-75 | a run of frames is the engine run of the orders in the frames that decode |
| `ExchangeSpec.EveryTradeIsReported` | exchange/exchange_ouch_handler.cpp:56-75 | on any run both orders of every trade are registered when it is reported, each under the user reference of the message that entered it |
| `ExchangeSpec.ReportsDecode` | exchange/exchange_execution_listener.cpp:12-62 | the two Executed messages of a trade decode to its quantity, its price and one shared match number, each with its owner's user reference |
| `ExchangeSpec.AnswerDecodes` | exchange/exchange_ouch_handler.cpp:80-129 | every message that is taken is answered, and the answer decodes to an Accepted with the message's own fields and the id of the new order |
| `ExchangeSpec.AnsweredIff` | exchange/exchange_ouch_handler.cpp:25-54 | a message is answered if and only if it becomes an order: at least 47 bytes, the first an O, and fewer than `capacity` orders resting; otherwise nothing changes |
| `ExchangeSpec.EnteredAreTaken` | exchange/exchange_ouch_handler.cpp:25-75 | on every run the orders are those of the messages that could be taken, one each, in order |
| `ExchangeSpec.TradeFits` | orderbook/software/matching_engine.cpp:114-117 | no trade exceeds the quantity either order came with, so 32-bit quantities are reported unchanged |
| `Exchanges.ExchangeOrderSessionMap.RegisterOrder` | exchange/exchange_order_session_map.hpp:12-18 | the id maps to the reference, other ids as before |
| `Exchanges.ExchangeOrderSessionMap.Find` | exchange/exchange_order_session_map.hpp:20-33 | the registered reference, or none |
| `Exchanges.ExchangeExecutionListener.OnTrade` | exchange/exchange_execution_listener.cpp:12-62 | exactly the reports of the registered owners of this trade; earlier ones are gone |
| `Exchanges.ExchangeExecutionListener.OnTrades` | exchange/exchange_execution_listener.cpp:12-62 | one pair of reports per trade, in trade order |
| `Exchanges.ExchangeOuchHandler.Admit` | exchange/exchange_ouch_handler.cpp:43-68 | the order is numbered and registered while the book is untouched |
| `Exchanges.ExchangeOuchHandler.Match` | exchange/exchange_ouch_handler.cpp:74-75 | the listener hears every trade of the order under the session map that contains it |
| `Exchanges.ExchangeOuchHandler.HandleEnterOrder` | exchange/exchange_ouch_handler.cpp:16-130 | engine, session map, reports and answer become those of the exchange specification; none for a frame that does not decode or finds the pool used up |
| `Exchanges.ExchangeOuchHandler.PublishedTradesAreReported` | exchange/exchange_execution_listener.cpp:12-62 | for the running handler: every trade the engine ever published was reported to both owners with its figures and their own user references |
| `Exchanges.ExchangeOuchHandler.Complete` | exchange/exchange_ouch_handler.cpp:66-75 | matching the registered order completes the specified handling of its message |
| `Framing.MoreBytes` | exchange/exchange_tcp_server.cpp:671-716 | received bytes extend the partial frame, or complete exactly one |
| `Framing.FrameIsBlock` | exchange/exchange_tcp_server.cpp:677-696 | frame i is bytes 47i to 47i+46 of the stream |
| `Framing.FramesCover` | exchange/exchange_tcp_server.cpp:641-719 | the frames and the partial one make up the stream; nothing is skipped or repeated |
| `ClientSessions.ClientSession.FlushPendingWrite` | exchange/exchange_tcp_server.cpp:832-952 | written bytes plus the waiting tail stay the concatenated responses, however writes are split; it ends with nothing waiting or a blocked write, and fails if and only if the transport broke |
| `ClientSessions.ClientSession.SendAll` | exchange/exchange_tcp_server.cpp:797-828 | refused exactly while an earlier response waits or when the transport breaks; otherwise queued and started |
| `ClientSessions.ClientSession.HandleFrame` | exchange/exchange_tcp_server.cpp:677-716 | a complete frame is always handled; its answer is lost if and only if it exists and an earlier one still waits; the connection stays open exactly when the handler answered, nothing waited and the transport did not break |
| `ClientSessions.ClientSession.HandleClientReadable` | exchange/exchange_tcp_server.cpp:622-795 | for any split of reads the handler has seen exactly the complete frames received, and while open all answers are written or wait; it stays open if and only if it read until the transport blocked and nothing broke |
| `ClientSessions.ClientSession.ServeEvent` | exchange/exchange_tcp_server.cpp:383-409 | a write event with bytes waiting writes, a read event reads until the transport blocks |
| `ClientSessions.ClientSession.Serve` | exchange/exchange_tcp_server.cpp:383-409 | the same over any sequence of readiness events |
| `RiskSpec.PositionsBounded` | gateway/gateway.cpp:12-40 | over every gateway run each account's position is within 500 either way and is the signed sum of its executed and accepted quantities |
| `RiskSpec.RunExecutes` | gateway/gateway.cpp:12-40 | over every run exactly the intents within the limits that the sink took are executed, in order |
| `RiskSpec.AnswerMeans` | risk/risk_manager.cpp:5-64 | after every run: accepted if and only if price > 0, quantity 1 to 100000, 64-bit value at most 10,000,000 and net position within 500 afterwards; and the exact condition of each refusal |
| `RiskSpec.AcceptedQuantity` | risk/risk_manager.cpp:5-64 | an accepted order has quantity 1 to 1000 |
| `RiskSpec.ValueLimitIff` | risk/risk_manager.cpp:23-30 | for an accepted order the true value is at most 10,000,000 if and only if price <= (2^64 - 1) / quantity |
| `RiskSpec.AcceptedValue` | risk/risk_manager.cpp:23-30 | on every run, for prices up to (2^64 - 1) / 1000 acceptance bounds the true value by 10,000,000 |
| `RiskSpec.WrappedValueIsAccepted` | risk/risk_manager.cpp:23-30 | price 6148914691236517206 with quantity 3 is accepted although its true value exceeds the limit |
| `Gateways.RiskManager.Check` | risk/risk_manager.cpp:5-64 | the first violated limit in the program's order, or acceptance, from the account's position |
| `Gateways.RiskManager.OnAccepted` | risk/risk_manager.cpp:66-84 | moves one account's position by the signed quantity |
| `Gateways.Gateway.Submit` | gateway/gateway.cpp:12-40 | the position moves if and only if the check accepts and the sink takes the order, and stays within the limit |

## Left out

- AddOrder: needs a price between 1 and the last level, an id that does not rest and a free index slot. The code checks none of these; for orders from the pool the free slot is proved (`RoomInIndex`), for order ids freshness is proved (`NumbersAreDistinct`).
- Process: is modelled for orders that `PrepareOrder` handed out; an order allocated by the caller, which the pool does not own, is not.
- SubmitOrder: needs the 64-bit sequence not to wrap during the call; `RunStructure` shows that n submissions draw at most 2n numbers.
- HandleEnterOrder: needs decoded prices between 1 and the last level, as the book does; there the cast of the price to a signed 64-bit number changes nothing. It also needs fewer messages than a third of 2^64, so that sequence numbers do not wrap around.
- ReportsDecode: holds for runs of fewer than 2^63 - 500 frames, so that match numbers fit in 64 bits.
- Remove: the null order, which the code ignores, is ruled out by the type; `pop_front` is not used by the program and not modelled.
- Acquire: the pool finds an order's place in the storage by search, where the program subtracts pointers; `Owns` is membership in the storage, where the program compares addresses.
- Match: trades reach the listener after the order is processed, in the order they were published. The program calls it from inside the match loop, where the session map is the same; the journal and the trade publisher are not modelled.
- Find: one method stands for the const and the non-const overload; the value is returned, not a pointer into the table.
- The two sides of the array order book share one class, `BookSide`, instead of pairs of fields.
- The ring buffer and the pipeline are step relations on values and not classes, because two threads share them. Each step is atomic; loads of the own index and the arithmetic around them are merged with the acquire load. `size()`, `empty()` and `full()` are left out.
- Pipeline: one control thread starts, submits and stops; start and stop from several threads, CPU affinity and the destructor are left out.
- Decoders take a byte sequence; the null pointer they also refuse is not modelled. Rejected and Canceled messages would add only easy members.
- The transport stands for sockets, TLS and epoll; the TLS handshake, accepting and closing connections, and logging are left out.
- The execution sink behind the gateway and the handler behind a connection are parameters: an arbitrary answer per call.
- ITCH, Ethernet, IPv4 and UDP parsing, replay, DPDK and pcap input, strategy and features, demos and benchmarks, and the FPGA sources are left out.
