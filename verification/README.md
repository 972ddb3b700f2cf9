# PumpWatch data core: a Dafny model

PumpWatch collects trades from crypto exchanges and, when a new listing is announced, serves "the trades
around time T". This project models its in-memory data structures, the pipeline that writes trades to the
database, and the small state machines beside them, and proves what they promise over all inputs and all runs.

## How it is organised

- `Trades`, `TimeIndex`, `HotCache`, `CircularTradeBuffer`: the 1200-bucket time index. The class carries a
  ghost log of all writes; its buckets, hot cache, batch path and backups are proved against that flat log.
- `BinaryFrame`, `DeltaCodec`, `CodecRoundTrip`, `CodecTheorems`, `DeltaCompressor`: the compressor, first as a
  mathematical codec (bytes, deltas, packed sides, symbol table), then as the loops that fill arrays and buffers.
- `CircularBuffer`, `Blocks`, `CompressedRing`, `RepeatedMerges`: a FIFO ring with a timestamp index, compressed
  blocks, the ring of blocks, and what any number of merges into one block does to its stamps.
- `Conservation`, `Tiers`, `Serving`, `ExtendedBuffer`: the two-tier buffer, hot rings in front of cold ones. The class
  has an invariant over all keys and a ghost log of the trades offered to each; stores and passes keep it over every
  run, and from it follow what is conserved, what an answer can miss, and which offered trades it serves.
- `Pipeline`, `BatchPipeline`: the batching pipeline as a transition system over all interleavings, and on the heap,
  where the collector reuses one backing array and sends copies; each call there is one step of the system.
- `BatchRetry`, `Breakers`, `RateLimiter`: the retry loop, both circuit breakers against one history, and the
  sliding-window limiter.
- `Notices`, `UpbitMonitor`: which notices trigger a collection, over whole runs with cleanups and restarts. A look is
  three steps, and a stop may fall between any two; the stopped process goes on.
- `TimeWindows`, `PumpAnalyzer`, `Sharding`: time windows and pumps, and the two ways symbols are divided.
- `CollectionEvent`, `TaskManager`: the extraction of one listing from the trade buffer.

## Where a promise holds, and where it stops

The code keeps several promises only in part of its input space. Each is proved with its exact condition.

- The cold walk equals the flat log for all logs if and only if the query spans at most 1199 seconds
  (`ColdExactIffSpanFits`).
- A hot hit is always sound, and complete if and only if the entry's refresh covered every match
  (`HotIsCompleteIffCovered`); without later stores in the range, whatever the log, if and only if the range is
  empty or lies inside the refresh window (`CompleteIffInsideWindow`).
- The compressor is faithful if and only if no re-base, overflow or unknown name occurs
  (`RoundTripIffEncodable`): the mid-stream re-base overwrites the one stored base, so it always spoils some trade.
- The hot ring is a queue while a store leaves one slot free; the store that fills it stops counting
  (`CircularBuffer.Store`).
- The index of the hot ring stays complete if and only if a migration splits no group of equal stamps
  (`CompleteIffStampsSeparate`).
- A batch reaches the cold ring whole if and only if every block's earliest merged price parses
  (`ArrivesWholeIff`); maintenance ignores the error, so otherwise the groups not yet stored are lost
  (`MigrationConservesIff`).
- A query of the two tiers shows everything they hold if and only if the wanted hot trades are stamped at or after the
  hot boundary's millisecond, the wanted cold ones at or before it, and the query reaches the side they are on
  (`ReadsEverythingIff`). In reachable states only hot trades not yet migrated and cold ones in the millisecond of a
  late start can be missing of what the tiers hold (`AnswerIsComplete`, with inputs in `MissedTrades`).
- The cold tier holds cut stamps, so a query can miss a trade that was offered in its range: exactly when the cut moved
  it before the start (`AnswerServesArrivals`, `MigratedTradeIsServedIff`, with an input in `MissedByCut`).
- A merge leaves the stamps already in a block alone if and only if the earliest arrival is not older than the block's
  first stamp, or older by whole steps (`OldStampsStayIff`); over any number of merges every stamp is cut once if and
  only if that held every time (`StampsAreCutOnceIff`, with an input in `EarlierArrivalCutsAgain`).
- A notice that can still be accepted triggers at most once if and only if no trigger of it was marked after the save of
  a restart (`OnceIffNothingLost`, with a run in `StopDuringLook`): a stop does not wait for the poll under way.
- With nothing lost, a notice triggers at most once if and only if it is dated at most 23.5 hours after it was
  processed (`OnceIffNotFarInFuture`); a board date further in the future triggers again.
- Time windows are the canonical grouping if and only if no group opens at a negative time off the window grid
  (`WindowsAreGroupingIff`), because Go division rounds towards zero.

Where code and comments differ the model follows the code: a collection's EndTime is 20 seconds after the trigger
although its comment says it is the trigger time (internal/models/collection_event.go:14, 44); the half-open
breaker admits every call, not one probe; a pump needs two prices far enough apart in either order, so a fall
counts as well; a handled notice raises the persistent DetectedListings by two; nothing ever sets
currentCollection, so the "already active" refusal of a collection never happens in practice; and
isTargetSymbol exists twice with different answers on one name.

## How things are modelled

Times are integers in the source's unit and the clock is a parameter that never goes back. Prices and quantities are
exact reals, or `NotANumber` when the text does not parse. Go's 64-bit wrap-around, truncated division and
float-to-integer truncation are written out. `sort.Slice` is unstable, so callers get a permutation in order and no
more; map iteration is an arbitrary choice. Methods under a mutex are atomic. Ghost fields (`log`, `history`, `steps`,
`calls`, `clock`) record what happened; no code depends on them.

## Model

| member | source | states |
|---|---|---|
| TimeIndex.GetBucketIndex | internal/buffer/circular_trade_buffer.go:278-302 | a stamp's bucket is its second, after the ms/ns guess, modulo 1200, and always a valid index |
| TimeIndex.ColdIsFlatAnswer | internal/buffer/circular_trade_buffer.go:365-407 | for every log, the bucket walk answers a query of less than 1200 seconds exactly as the flat log does, although buckets are never cleared |
| TimeIndex.ColdExactIffSpanFits | internal/buffer/circular_trade_buffer.go:365-407 | a query is answered as the flat log for all logs if and only if its last second minus its first is at most 1199 |
| TimeIndex.FlatAnswerMeaning | internal/buffer/circular_trade_buffer.go:365-407 | the flat answer is the stored trades of that exchange inside the millisecond range, each once, no second before an earlier one, insertion order inside a second |
| TimeIndex.BySecondIsPermutation | internal/buffer/circular_trade_buffer.go:365-407 | ordering by second neither loses nor doubles a selected trade |
| TimeIndex.BySecondIsOrdered | internal/buffer/circular_trade_buffer.go:365-407 | the answer never goes back a second |
| TimeIndex.BySecondIsStable | internal/buffer/circular_trade_buffer.go:365-407 | inside a second the answer keeps insertion order |
| TimeIndex.BucketIsSecond | internal/buffer/circular_trade_buffer.go:365-407 | inside a short query the matching trades of the k-th bucket walked are those of the k-th second, whatever older laps left there |
| HotCache.HotIsSound | internal/buffer/circular_trade_buffer.go:340-362 | a hot answer is an ordered sub-sequence of the flat answer to the same query |
| HotCache.CompleteIffInsideWindow | internal/buffer/circular_trade_buffer.go:340-362 | as a caller can check it: for every log without later stores in the range the hot answer is the whole flat answer if and only if the millisecond range is empty or lies inside the 120 seconds of the entry's refresh |
| HotCache.HotIsCompleteIffCovered | internal/buffer/circular_trade_buffer.go:340-362 | a hot answer is the whole flat answer if and only if every matching trade lies in the window of the entry's refresh and was stored before it |
| CircularTradeBuffers.CircularTradeBuffer.constructor | internal/buffer/circular_trade_buffer.go:115-149 | a new buffer stands for the empty log |
| CircularTradeBuffers.CircularTradeBuffer.StoreTradeEvent | internal/buffer/circular_trade_buffer.go:152-173 | an open buffer's log grows by exactly this write, a closed one refuses and changes nothing |
| CircularTradeBuffers.CircularTradeBuffer.DirectWrite | internal/buffer/circular_trade_buffer.go:176-198 | the write lands in one bucket only, so that all 1200 buckets and the counter again represent the log with the write appended |
| CircularTradeBuffers.CircularTradeBuffer.FlushBatch | internal/buffer/circular_trade_buffer.go:230-275 | a batch grouped by exchange and bucket, groups taken in any order, leaves the buffer representing the log with the batch appended in order |
| CircularTradeBuffers.CircularTradeBuffer.WriteOneByOne | internal/buffer/circular_trade_buffer.go:176-198 | writing the requests one at a time leaves the buffer representing the same log as the batch |
| CircularTradeBuffers.SameLogSameBuckets | internal/buffer/circular_trade_buffer.go:176-275 | two buffers that represent the same log have equal buckets and equal TotalEvents, so batch and sequential writes agree |
| CircularTradeBuffers.CircularTradeBuffer.GetFromColdBuffer | internal/buffer/circular_trade_buffer.go:365-407 | the moving-index walk ends for every pair of start and end buckets and returns the walk over the represented log |
| CircularTradeBuffers.CircularTradeBuffer.GetFromHotCache | internal/buffer/circular_trade_buffer.go:340-362 | a missing or stale entry answers nothing, otherwise the entry's trades inside the range |
| CircularTradeBuffers.CircularTradeBuffer.GetTradeEvents | internal/buffer/circular_trade_buffer.go:305-337 | a query in nanoseconds under 20 minutes returns an ordered part of the flat answer; all of it unless a hot entry answered; after a hot hit, all of it exactly when the refresh covered the range |
| CircularTradeBuffers.CircularTradeBuffer.UpdateHotCache | internal/buffer/circular_trade_buffer.go:425-450 | afterwards every active exchange with trades in the last 120 s has an entry refreshed now, every other entry is untouched, and all entries still represent what some refresh collected |
| CircularTradeBuffers.CircularTradeBuffer.RefreshExchange | internal/buffer/circular_trade_buffer.go:425-491 | one exchange's entry becomes the flat answer for the last 120 s, or stays when that is empty |
| CircularTradeBuffers.CircularTradeBuffer.SaveToBackup | internal/buffer/circular_trade_buffer.go:660-721 | the backup describes the represented log bucket by bucket, leaving out empty buckets, with the hot entries and the counter |
| CircularTradeBuffers.CircularTradeBuffer.LoadFromBackup | internal/buffer/circular_trade_buffer.go:724-800 | a fresh buffer that loads a backup at most 20 minutes old represents the same log with the same hot entries; an older backup leaves it empty |
| CircularTradeBuffers.CircularTradeBuffer.Close | internal/buffer/circular_trade_buffer.go:632-657 | closing saves a backup that describes the log and clears the hot cache |
| BinaryFrame.IntRoundTrip | internal/buffer/delta_compressor.go:332-385 | little-endian two's complement: every integer in range of its width reads back as itself |
| BinaryFrame.TakeArrayRoundTrip | internal/buffer/delta_compressor.go:332-351 | a length-prefixed integer array followed by anything reads back as itself and leaves the rest unread |
| BinaryFrame.TakeStringsRoundTrip | internal/buffer/delta_compressor.go:267-272 | length-prefixed symbol names read back in order and leave the rest unread |
| BinaryFrame.FrameRoundTrip | internal/buffer/delta_compressor.go:254-330 | for every well-shaped data and name table, reading the written frame returns both and consumes every byte |
| BinaryFrame.IndexMapIsInverse | internal/buffer/delta_compressor.go:174-194 | with at most 256 distinct names, name i has index i in the rebuilt table and nothing else is in it |
| DeltaCodec.NoPriceRebase | internal/buffer/delta_compressor.go:90-105 | while no price is out of int16 reach of the first, the base stays and every stored delta is the truncated difference |
| DeltaCodec.PriceRebaseLosesOne | internal/buffer/delta_compressor.go:99-105 | once the base price moves, some earlier trade decodes more than a micro-unit off |
| DeltaCodec.NoTimeRebase | internal/buffer/delta_compressor.go:107-115 | while all stamps are less than 65536 steps after the first, the base time stays and every stored delta is the floored difference |
| DeltaCodec.LateTimeLosesOne | internal/buffer/delta_compressor.go:107-115 | a stamp beyond that reach makes some trade decode to a wrong time |
| CodecRoundTrip.SideRoundTrip | internal/buffer/delta_compressor.go:235-251 | the packed bit of trade i decodes to its side if and only if the side is buy or sell |
| CodecRoundTrip.SymbolsRoundTrip | internal/buffer/delta_compressor.go:174-202 | all symbols come back if and only if there are at most 256 of them, since the index is one byte |
| CodecRoundTrip.ExchangeNameRoundTrip | internal/buffer/delta_compressor.go:205-217 | an exchange name comes back if and only if it is one of the six known ones |
| CodecRoundTrip.MarketNameRoundTrip | internal/buffer/delta_compressor.go:220-232 | a market type comes back if and only if it is one of the three known ones |
| CodecRoundTrip.EncodeIsWellShaped | internal/buffer/delta_compressor.go:50-130 | what the compressor builds fits the frame, and the decoder turns it into a list of the same length |
| CodecTheorems.RoundTripIffEncodable | internal/buffer/delta_compressor.go:50-171 | every trade of a time-sorted list comes back within one micro-unit and one million time units, all stored names equal, if and only if the list is in the codec's regime (prices parse and are in reach of the first, times in reach, quantities in uint32 micro-units, at most 256 symbols, known names) |
| CodecTheorems.BytesRoundTrip | internal/buffer/delta_compressor.go:50-171 | the same list is what the decoder makes of the frame's bytes |
| CodecTheorems.GridIsFixed | internal/buffer/delta_compressor.go:50-171 | on the six-decimal price and quantity grid and whole time steps the decoded list equals the encoded one |
| CodecTheorems.ImageIsOnGrid | internal/buffer/delta_compressor.go:50-171 | whatever was encoded, the decoded list lies on that grid, anchored at its first trade |
| CodecTheorems.RecompressionIsLossless | internal/buffer/delta_compressor.go:50-171 | decoding, re-sorting, re-encoding with any symbol order and decoding again returns the list that went in |
| CodecTheorems.ImageIsSorted | internal/buffer/delta_compressor.go:133-171 | decoding keeps a sorted list sorted and its times in reach |
| DeltaCompressors.DeltaCompressor.Compress | internal/buffer/delta_compressor.go:50-130 | fails on no trades or an unparseable earliest price; otherwise the bytes are the frame of the encoding of a time-sorted permutation of the trades |
| DeltaCompressors.DeltaCompressor.CompressNumbers | internal/buffer/delta_compressor.go:76-125 | the array-filling loop with its moving bases computes the delta sequence |
| DeltaCompressors.DeltaCompressor.CreateSymbolMapping | internal/buffer/delta_compressor.go:174-194 | lists every symbol once, in any order, with its index byte |
| DeltaCompressors.DeltaCompressor.CompressSides | internal/buffer/delta_compressor.go:235-251 | setting bits in place yields the packed sides |
| DeltaCompressors.DeltaCompressor.SerializeToBinary | internal/buffer/delta_compressor.go:254-284 | the buffer ends up holding exactly the frame |
| DeltaCompressors.DeltaCompressor.DeserializeFromBinary | internal/buffer/delta_compressor.go:286-330 | the cursor reads exactly what the frame decoder reads, panics included |
| DeltaCompressors.DeltaCompressor.Decompress | internal/buffer/delta_compressor.go:133-171 | the rebuilt trades are the decoder's answer for those bytes |
| DeltaCompressors.DecompressOfCompress | internal/buffer/delta_compressor.go:50-171 | decompressing a successful compression gives the sorted list's image, faithful exactly in the regime and still sorted |
| DeltaCompressors.ByteReader.ReadArray | internal/buffer/delta_compressor.go:358-395 | reads a length and that many integers, short input included; a negative length panics |
| CircularBuffers.CircularBuffer.constructor | internal/buffer/circular_buffer.go:28-34 | a new ring is an empty queue with a complete index |
| CircularBuffers.CircularBuffer.Store | internal/buffer/circular_buffer.go:37-72 | with room to spare a store appends to the queue and indexes the stamp; the store that fills the array leaves size and queue as they were and raises the full flag; a closed ring refuses |
| CircularBuffers.CircularBuffer.GetRange | internal/buffer/circular_buffer.go:75-100 | the queue's trades inside the millisecond range, oldest first |
| CircularBuffers.CircularBuffer.ExtractOldTrades | internal/buffer/circular_buffer.go:103-146 | removes and returns exactly the longest prefix older than the cutoff; the index loses exactly their stamps, and stays complete exactly when no kept trade shares one |
| CircularBuffers.CircularBuffer.FindByTimestamp | internal/buffer/circular_buffer.go:228-242 | a hit is the newest live trade with that stamp; with a complete index a miss means there is none |
| CircularBuffers.CircularBuffer.GetLatestTrade | internal/buffer/circular_buffer.go:190-209 | the queue's last trade, or an error when closed or empty |
| CircularBuffers.CircularBuffer.GetOldestTrade | internal/buffer/circular_buffer.go:212-225 | the queue's first trade, or an error when closed or empty |
| CircularBuffers.CompleteIffStampsSeparate | internal/buffer/circular_buffer.go:125-131 | extraction keeps the index complete if and only if it splits no group of equal stamps |
| CircularBuffers.SortedSeparates | internal/buffer/circular_buffer.go:103-146 | arrivals in time order never split equal stamps |
| CircularBuffers.StoreInStep | internal/buffer/circular_buffer.go:37-72 | the positions after a store: queue append and sound index below capacity, untouched queue at capacity |
| Blocks.NoTimeRebaseInBlock | internal/buffer/delta_compressor.go:107-115 | inside one 30e9-unit block the uint16 time re-base branch is unreachable |
| Blocks.ImageStaysInPeriod | internal/buffer/compressed_ring.go:248-330 | after recompression every decoded trade still lies in the block's [StartTime, EndTime) period |
| Blocks.PruningIsExactIff | internal/buffer/compressed_ring.go:160-176 | skipping a block by its bounds is harmless for every query if and only if its decoded trades lie within the closed bounds |
| Blocks.NoBlockHidesATrade | internal/buffer/compressed_ring.go:148-190 | over the whole ring the visited blocks contribute exactly the filter of everything the ring decodes to |
| Blocks.WrappedIsInjective | internal/buffer/compressed_ring.go:242-245 | periods less than one lap apart never share a block |
| Blocks.MergedCounts | internal/buffer/compressed_ring.go:248-330 | a merge holds as many trades as the block and the group together |
| Blocks.MergedStaysBefore | internal/buffer/compressed_ring.go:248-330 | recompression never moves a trade to or past a bound that old and new trades lie before |
| RepeatedMerges.MergeCutsAll | internal/buffer/compressed_ring.go:248-330 | a merge cuts every stamp, old and new, to the million-step grid of the earliest one, which stays |
| RepeatedMerges.OldStampsMove | internal/buffer/compressed_ring.go:248-330 | an arrival older than everything in the block moves every old stamp down by the same amount, the distance of the two grids |
| RepeatedMerges.OldStampsStayIff | internal/buffer/compressed_ring.go:248-330 | a merge leaves the stamps already in the block alone and cuts only the new ones if and only if the earliest new stamp is not older than the block's first, or older by whole steps |
| RepeatedMerges.StampsAreCutOnceIff | internal/buffer/compressed_ring.go:248-330 | after any number of merges into one block the stamps are those of all arrivals, each cut once when it arrived, if and only if every move of the grid was by whole steps; otherwise their sum is too low by exactly the drift, each move times the trades it met |
| RepeatedMerges.EarlierArrivalCutsAgain | internal/buffer/delta_compressor.go:107-115 | on two merges an arrival one unit older costs a stamp a million that a single merge of the same trades keeps |
| CompressedRings.CompressedRing.GetBlockIndex | internal/buffer/compressed_ring.go:242-245 | a stamp's block is its period modulo the capacity |
| CompressedRings.CompressedRing.Store | internal/buffer/compressed_ring.go:71-99 | one late trade is merged into its own block and no other, counted once; the price of the earliest merged trade decides between success and failure; refused when closed |
| CompressedRings.CompressedRing.CompressAndStoreInBlock | internal/buffer/compressed_ring.go:248-330 | decompress, merge, sort and recompress turn the block into the codec's image of old and new trades together, or fail leaving its trades as they were when the earliest price does not parse |
| CompressedRings.CompressedRing.CompressAndStore | internal/buffer/compressed_ring.go:102-145 | whatever order the groups come in: success when every group's earliest merged price parses, failure when one of them does not; after success every block holds the merge with its group and the counts grow by the batch size; after a failure each block holds its merge or its old trades and the counts fall short of the batch |
| CompressedRings.ArrivesWholeIff | internal/buffer/compressed_ring.go:102-145 | of any outcome that CompressAndStore allows: the event counts grow by the batch size if and only if every group's earliest merged trade, as stored, has a price that parses (ties at the earliest stamp all parsing or all failing); the work is in CompressAndStore |
| CompressedRings.CompressedRing.GetRange | internal/buffer/compressed_ring.go:148-190 | the answer is a time-sorted permutation of the filter of everything the ring decodes to |
| ExtendedBuffers.ExtendedBuffer.constructor | internal/buffer/extended_buffer.go:55-100 | one hot and one cold ring for each of the twelve keys, no storage shared, sized by the durations (a fifth hot, at least two minutes); the invariant holds with nothing offered |
| ExtendedBuffers.KeysMeaning | internal/buffer/extended_buffer.go:79-97 | the keys are exactly the pairs of an exchange and a market |
| ExtendedBuffers.ExtendedBuffer.StoreTradeEvent | internal/buffer/extended_buffer.go:103-130 | a trade younger than the hot duration joins the hot queue and the cold ring is untouched, an older one is merged into its own cold block and everything else of the key is untouched; no other key's storage is written; unknown key or inactive buffer refuses; the invariant over all keys is kept unless the store fills the hot ring |
| ExtendedBuffers.ExtendedBuffer.PerformMaintenance | internal/buffer/extended_buffer.go:251-270 | for every key, in any order, exactly the longest hot prefix older than the cutoff is handed to that key's cold ring, and the invariant over all keys, open rings included, is kept |
| ExtendedBuffers.MoveOldTrades | internal/buffer/extended_buffer.go:251-270 | one key: the hot queue loses the prefix and the cold ring does with it what a batch does; the key stays valid with the cutoff as its new boundary |
| ExtendedBuffers.MigrationConservesIff | internal/buffer/extended_buffer.go:251-270 | of any migration that MoveOldTrades allows: hot trades plus cold event counts are unchanged if and only if every block's earliest merged price parses (the same case of ties left open), since a refused batch is neither put back nor reported; what stays hot starts at the cutoff; the work is in MoveOldTrades |
| ExtendedBuffers.MigrationConservesIdentities | internal/buffer/extended_buffer.go:251-270 | in the codec's regime the bag of symbols, exchanges, markets, sides, prices and quantities over both tiers is unchanged by a migration |
| ExtendedBuffers.ExtendedBuffer.NothingIsLost | internal/buffer/extended_buffer.go:103-130 | in every reachable state, per key: no trade offered was ever doubled; none is lost while prices parse; in the codec's regime hot and cold together hold exactly the identities of all trades offered; it is read off the invariant that the constructor, StoreTradeEvent and PerformMaintenance keep |
| ExtendedBuffers.ExtendedBuffer.Replay | internal/buffer/extended_buffer.go:103-130 | every run of stores and maintenance passes, in clock order, in which no store takes the last slot of a hot ring as the passes have left it, keeps the invariant; each key's log is what the run offered to it, and each hot queue is the offers minus what the passes took |
| ExtendedBuffers.HistoryMeaning | internal/buffer/extended_buffer.go:103-130 | a key's history after a run is what it was plus the trades offered to the key, and it is steady exactly while every one of them is young when stored |
| Tiers.Arrive | internal/buffer/extended_buffer.go:251-270 | trades on their way to the cold ring are accounted for after it took or refused them |
| ExtendedBuffers.ExtendedBuffer.GetTradeEvents | internal/buffer/extended_buffer.go:132-170 | fails exactly when a tier it has to ask is closed; otherwise a sorted answer holding exactly what the two tiers show on their side of the hot boundary; nothing for an unknown key; in every reachable state no tier is closed, the answer lacks only what waits or is skipped, and it serves the offered trades with their cut stamps |
| Tiers.ReadsEverythingIff | internal/buffer/extended_buffer.go:132-170 | a query shows everything both tiers hold in its range if and only if every hot trade in range is stamped at or after the boundary's millisecond and the query ends after the boundary, and every cold trade in range is stamped at or before it and the query starts before the boundary |
| Tiers.HotSideMisses | internal/buffer/extended_buffer.go:132-170 | the hot trades a query wants and does not get are exactly those before the boundary's millisecond, or all of them when it ends at or before the boundary |
| Tiers.ColdSideMisses | internal/buffer/extended_buffer.go:132-170 | while the cold trades lie before the boundary the only ones a query skips are those in the millisecond it starts in, when it starts after the boundary and inside a millisecond |
| ExtendedBuffers.ExtendedBuffer.AnswerIsComplete | internal/buffer/extended_buffer.go:132-170 | in every reachable state, for any query: answer, waiting hot trades and those skipped cold ones together are exactly what both tiers hold in the range, cold trades with the stamps they decode to |
| ExtendedBuffers.ExtendedBuffer.AnswerServesArrivals | internal/buffer/extended_buffer.go:132-170 | end to end: for a key whose trades all came young, in time order and in the codec's regime, the answer is what the hot tier shows of its queue and what the cold tier would show of the trades that left it, each with its stamp cut to the grid of its block; nothing else, as pairs of identity and stamp |
| ExtendedBuffers.ExtendedBuffer.MigratedTradeIsServedIff | internal/buffer/extended_buffer.go:132-170 | a migrated trade of the range is in the answer of a query that starts before the boundary if and only if its cut stamp is not before the start; a trade a million milliseconds after the start always is |
| Serving.MergeKeepsCut | internal/buffer/compressed_ring.go:248-330 | a merge with arrivals not older than the block's first leaves the block holding all arrivals, identity by identity, cut to the same grid |
| Serving.BatchKeepsCut | internal/buffer/compressed_ring.go:102-145 | so does a batch, for every block of the ring, when arrivals are in time order |
| Serving.RingIsCutLog | internal/buffer/compressed_ring.go:148-190 | the whole ring then decodes to the arrivals with their stamps cut, as pairs of identity and stamp |
| Serving.MissedByCut | internal/buffer/compressed_ring.go:248-330 | an input: of two trades ten minutes apart the later one is decoded at the earlier one's time, and a query around its own time finds nothing |
| Tiers.NothingWaitsAfterPass | internal/buffer/extended_buffer.go:132-170 | right after a pass, with arrivals in time order, a query that ends after the boundary misses no hot trade |
| Tiers.MissedTrades | internal/buffer/extended_buffer.go:132-170 | three inputs on which a query misses a trade in its range, one for each way |
| Conservation.MergeConservesIdentities | internal/buffer/compressed_ring.go:248-330 | with six-decimal prices and quantities in reach, known names and at most 256 symbols, any merge leaves a block with the identities (symbol, exchange, market, side, price, quantity) of its old trades and the group |
| Conservation.BatchConservesIdentities | internal/buffer/compressed_ring.go:102-145 | in that regime a stored batch adds exactly its own identities to the whole ring |
| Pipeline.EveryRunIsSound | internal/database/questdb_manager.go:214-312 | in every interleaving: sent or dropped batches, batch in hand and queue concatenate to the accepted trades in order; workers take batches first in first out; every taken batch is in flight, stored or failed; batches are non-empty and at most BatchSize; counters match |
| Pipeline.EveryRunConserves | internal/database/questdb_manager.go:214-312 | AddTrade attempts = queued + collector's batch + batch channel + in flight + TotalTrades + DroppedTrades, in every interleaving |
| Pipeline.StepKeeps | internal/database/questdb_manager.go:214-312 | every single step of producer, collector, ticker, worker or cancellation keeps that invariant |
| Pipeline.AttemptsAreLogged | internal/database/questdb_manager.go:429-438 | every AddTrade is accepted or counted as refused, never both |
| Pipeline.DropsIff | internal/database/questdb_manager.go:214-312 | a run counts a dropped trade if and only if some AddTrade met a full queue, some flush met a full batch channel, or some batch failed |
| Pipeline.CanAlwaysDrain | internal/database/questdb_manager.go:214-312 | from every state reached before cancellation some continuation stores everything the pipeline holds and drops nothing, so no trade is ever stuck |
| Pipeline.ShutdownLoss | internal/database/questdb_manager.go:494-519 | after shutdown the trades neither stored nor counted are those left in the two channels, at most BufferSize + 2 * WorkerCount * BatchSize |
| Pipeline.DrainedWithoutDrops | internal/database/questdb_manager.go:214-312 | drained with a zero drop counter, every attempt was stored and the stored batches are consecutive pieces of the accepted list |
| BatchPipelines.BatchPipeline.constructor | internal/database/questdb_manager.go:162-212 | the pipeline on the heap starts as the transition system's start state, with one backing array for the collector |
| BatchPipelines.BatchPipeline.Add | internal/database/questdb_manager.go:429-438 | a non-blocking send is the AddTrade step: accepted exactly when the queue has room |
| BatchPipelines.BatchPipeline.ReceiveTrade | internal/database/questdb_manager.go:247-258 | writing the trade into the reused backing array and flushing a full batch is the Receive step; every slice sent earlier, queued or in a worker's hands, still holds the batch as it was logged |
| BatchPipelines.BatchPipeline.Flush | internal/database/questdb_manager.go:247-272 | a flush sends a fresh copy or drops the batch, empties the array for reuse, and leaves every queued slice equal to the batch it stands for |
| BatchPipelines.BatchPipeline.TakeBatch | internal/database/questdb_manager.go:276-284 | a worker takes the slice at the head itself, no copy, and finds in it the batch the collector sent |
| BatchPipelines.BatchPipeline.FinishBatch | internal/database/questdb_manager.go:287-306 | what the worker inserts from its slice is a batch as taken, and the counters follow |
| BatchRetry.ProcessBatchWithRetry | internal/database/questdb_manager.go:315-371 | refused exactly when the breaker's history says so; otherwise at most MaxRetries + 1 inserts, and unless cancelled exactly one outcome recorded, whatever other workers do to the breaker meanwhile |
| BatchRetry.OutcomeIsUnique | internal/database/questdb_manager.go:323-371 | how an admitted batch ends and after how many inserts is decided by the database and the cancellations alone |
| BreakerHistory.FailuresSinceIsCount | internal/database/questdb_manager.go:620-633 | the failure count is the number of failures after the last success |
| BreakerHistory.AsksDoNotMatter | internal/database/questdb_manager.go:594-617 | asking never changes what is refused: half-open admits what an expired open breaker admits |
| BreakerHistory.RefusalWindow | internal/database/questdb_manager.go:594-633 | after a failure at t that reaches the threshold, execution is refused exactly until t + timeout; a success admits everything |
| BreakerHistory.FirstCallsAreAdmitted | internal/database/questdb_manager.go:594-633 | the first threshold calls all reach the dependency |
| BreakerHistory.FailingDependencyIsSpared | internal/database/questdb_manager.go:594-633 | a dependency that keeps failing is called for each of the first threshold calls and then at most once per timeout |
| QuestDBBreaker.CircuitBreaker.CanExecute | internal/database/questdb_manager.go:594-617 | refuses exactly when at least max(1, threshold) failures followed the last success and the latest is no older than timeout |
| QuestDBBreaker.CircuitBreaker.RecordSuccess | internal/database/questdb_manager.go:620-623 | the state represents the history with the success appended |
| QuestDBBreaker.CircuitBreaker.RecordFailure | internal/database/questdb_manager.go:626-633 | the state represents the history with the failure appended |
| WebSocketBreaker.CircuitBreaker.CanExecute | internal/models/websocket_types.go:193-208 | refuses exactly when the same history specification does |
| WebSocketBreaker.CircuitBreaker.OnSuccess | internal/models/websocket_types.go:211-214 | the state represents the history with the success appended |
| WebSocketBreaker.CircuitBreaker.OnFailure | internal/models/websocket_types.go:217-224 | the state represents the history with the failure appended |
| RateLimiting.RateLimiter.Allow | internal/websocket/worker_pool.go:122-146 | although expired entries are discarded, the answer is the one the full call history gives |
| RateLimiting.RateLimiter.KeepRecent | internal/websocket/worker_pool.go:128-136 | the rewritten list is the entries after the cutoff, in order |
| RateLimiting.GreedyObeys | internal/websocket/worker_pool.go:122-146 | every admitted call is among at most maxRequests in the interval ending with it |
| RateLimiting.WindowBound | internal/websocket/worker_pool.go:122-146 | every half-open window of one interval, wherever it starts, holds at most maxRequests admitted calls |
| RateLimiting.RefusesOnlyWhenFull | internal/websocket/worker_pool.go:138-141 | a call is refused only when exactly maxRequests were admitted in the interval before it |
| RateLimiting.GreedyIsOptimal | internal/websocket/worker_pool.go:122-146 | no policy that obeys the limit admits more of the same calls |
| Notices.KeptAtMostOnce | internal/monitor/upbit.go:178-207 | over any run of look-ups, marks, cleanups and restarts, in any number of processes and any interleaving, all triggers of a notice but one were lost to a restart: marked by a process whose successor had already been given its save |
| Notices.ExactlyOnce | internal/monitor/upbit.go:178-207 | when none was lost and no look is under way, a notice has triggered exactly one collection if some look at it qualified and none otherwise, provided it is dated at most 23.5 hours after its marks |
| Notices.OnceIffNothingLost | internal/monitor/upbit.go:128-150 | while a notice can still be accepted, it triggers at most once in every continuation if and only if no trigger of it was marked after the save of a restart |
| Notices.StopDuringLook | internal/monitor/upbit.go:128-150 | a run in which the stop falls between a look-up and its mark, and the notice triggers twice |
| Notices.AtMostOnceWhenNotInFuture | internal/monitor/upbit.go:285-317 | with nothing lost, at most one trigger for a notice announced no later than the looks that could trigger it |
| Notices.OnceIffNotFarInFuture | internal/monitor/persistent_state.go:93-108 | a notice processed at p triggers at most once in every continuation that loses nothing if and only if its date is at most 23.5 hours after p |
| Notices.NewestRemembers | internal/monitor/persistent_state.go:93-108 | the newest process remembers the one trigger that was not lost until the notice is too old to be accepted |
| Notices.QualifiedIsServed | internal/monitor/upbit.go:351-400 | a notice some look found worth it has been triggered or is about to be, and no other ever is |
| UpbitMonitors.PersistentState.IsNoticeProcessed | internal/monitor/persistent_state.go:93-108 | processed means recorded and marked at most 24 hours ago |
| UpbitMonitors.PersistentState.MarkNoticeProcessed | internal/monitor/persistent_state.go:111-130 | the record is stored with the marking time, other records stay, DetectedListings grows by one |
| UpbitMonitors.PersistentState.CleanupOldRecords | internal/monitor/persistent_state.go:176-194 | exactly the records marked more than 24 hours ago go, in any visiting order |
| UpbitMonitors.PersistentState.constructor | internal/monitor/persistent_state.go:62-90 | a saved state of the same version is taken over as it was; a missing, unreadable or other-version file starts fresh |
| UpbitMonitors.SaveAndLoad | internal/monitor/persistent_state.go:197-267 | a process that starts from what another one saved has the same records, marks and counter |
| UpbitMonitors.UpbitMonitor.ShouldProcessAnnouncement | internal/monitor/upbit.go:285-317 | true exactly for an unprocessed notice whose date parses, is at most 30 minutes old, and that is new or a KRW update |
| UpbitMonitors.UpbitMonitor.LookAt | internal/monitor/upbit.go:200-206 | one look-up, judged and parsed: wanted exactly when the notice is unprocessed and qualifies; one step of the run, no other process affected |
| UpbitMonitors.UpbitMonitor.MarkAndTrigger | internal/monitor/upbit.go:351-381 | the first mark and the trigger: one record, one persistent count, the collection of this notice and of no other |
| UpbitMonitors.UpbitMonitor.ConfirmNotice | internal/monitor/upbit.go:382-400 | the second mark tells whether the collection started and is counted once by the monitor and once more in the persistent state |
| UpbitMonitors.UpbitMonitor.HandleListingEvent | internal/monitor/upbit.go:351-400 | without interruption: one trigger, started or failed, one record, and two counts in the persistent DetectedListings |
| UpbitMonitors.UpbitMonitor.CheckForListings | internal/monitor/upbit.go:178-207 | an uninterrupted poll extends the run by its notices in order, and the triggers made are those the run calls for |
| UpbitMonitors.UpbitMonitor.Restart | internal/monitor/upbit.go:128-150 | whatever the polling goroutine has in hand, the stop cleans up and saves and the next process starts with those records and fresh counters; the stopped one stays able to mark and trigger |
| TimeWindows.CreateTimeWindows | internal/analyzer/pump_analyzer.go:373-417 | the window-filling loop yields the canonical grouping if and only if every group opens at a non-negative time or on a boundary |
| TimeWindows.WindowsAreGrouping | internal/analyzer/pump_analyzer.go:373-417 | for sorted non-negative times the windows concatenate to the input, each one non-empty group of equal timestamp/windowSize, disjoint and increasing |
| TimeWindows.WindowsAreGroupingIff | internal/analyzer/pump_analyzer.go:391-403 | rounding towards zero breaks the grouping exactly for a group opened at a negative time off the boundary |
| TimeWindows.WindowsKeepTrades | internal/analyzer/pump_analyzer.go:373-417 | no trade is lost, doubled or moved, at any times |
| TimeWindows.GroupBounds | internal/analyzer/pump_analyzer.go:373-417 | a window's bounds are on the grid and its trades in [start, end) |
| TimeWindows.GroupingIsUnique | internal/analyzer/pump_analyzer.go:373-417 | a list has only one canonical grouping |
| PumpAnalyzer.AnalyzeTimeWindow | internal/analyzer/pump_analyzer.go:292-370 | a pump is reported exactly when there are enough trades, no parsed price is not positive, and some two prices rise by the threshold; the event holds the window, its lowest and highest price, rise and volume |
| PumpAnalyzer.PumpByExtremes | internal/analyzer/pump_analyzer.go:320-350 | comparing lowest with highest finds such a pair exactly when there is one |
| PumpAnalyzer.OrderDoesNotMatter | internal/analyzer/pump_analyzer.go:292-370 | whether a window is a pump does not depend on the order of its trades |
| PumpAnalyzer.AnalyzeExchangeMarket | internal/analyzer/pump_analyzer.go:243-289 | too few trades give nothing; otherwise one event per pump window of the sorted trades, in time order, and a summary with the totals and time bounds; the windows are the canonical grouping exactly when no group opens at a negative time off the grid |
| Sharding.SafeWorkerPool.constructor | internal/websocket/safe_worker_pool.go:69-104 | the worker count is the rounded-up quotient, at least one, with 100 as the default limit, and leaves room for every symbol |
| Sharding.SafeWorkerPool.DistributeSymbols | internal/websocket/safe_worker_pool.go:213-240 | the chunks concatenate to the symbol list, differ by at most one, and none exceeds the limit when the workers leave room |
| Sharding.FewestWorkers | internal/websocket/safe_worker_pool.go:78-85 | no division with fewer connections keeps every one within the limit |
| Sharding.CreateWorkers | internal/websocket/worker_pool.go:180-198 | fixed-stride slices up to the connection limit cover exactly the first min(n, MaxConnections * max) symbols in order, none empty or over the limit, and all symbols exactly when the limit leaves room |
| CollectionEvents.AcceptsExactlySix | internal/models/collection_event.go:222-270 | for every target T, separators in it or not, exactly T, TUSDT, T-USDT, T_USDT, T_-USDT and STUSDT are accepted, ignoring case |
| CollectionEvents.VersionsDifferOnOneName | internal/buffer/circular_trade_buffer.go:582-614 | the trade buffer's own test accepts the same names except T_-USDT |
| CollectionEvents.CollectionEvent.AddTradeFromBuffer | internal/models/collection_event.go:273-301 | appends to the slice the key names and to no other; unknown keys are ignored; the total count follows |
| TaskManagers.EnhancedTaskManager.StartDataCollection | internal/websocket/enhanced_task_manager.go:477-533 | each of the twelve slices is an ordered part of that key's flat-log trades within trigger ± 20 s that pass the symbol test, all of them when the cold path or a covering entry answers; the total is the number extracted; refused while a collection is set |
| TaskManagers.EnhancedTaskManager.ExtractMarket | internal/websocket/enhanced_task_manager.go:509-531 | one key: its slice is the filtered answer and no other slice changes; a closed buffer yields nothing |
| TaskManagers.FilterKeepsOrder | internal/websocket/enhanced_task_manager.go:516-521 | filtering an ordered part of a list gives an ordered part of the filtered list |

## Left out

- Float rounding: prices, quantities and percentages are exact reals, so one micro-unit and threshold statements
  ignore the last bits of a float64; "NaN" and "Inf" price texts, which ParseFloat accepts, are not modelled.
- CircularBuffers.CircularBuffer.Store: after the ring has been filled the model only says that positions stay in bounds, because
  the code stops counting there.
- BinaryFrame.FrameRoundTrip: the float64 header is kept as the number it encodes, so the round trip of bytes starts
  after it; one character stands for one byte of a Go string, there is no UTF-8.
- Strings are upper- and lower-cased for ASCII letters only.
- CompressedRings.CompressedRing.CompressAndStore: stored and new periods lie within one lap of the ring; a period is 30e9 of the
  stamp's unit, so with millisecond stamps two trades would have to be years apart to share a block wrongly. Negative
  stamps, which would index a block below zero, and stamps within one period of the end of int64 are outside as well.
- CompressedRings.ArrivesWholeIff: this and MigrationConservesIff leave one case open: where several trades share the
  earliest stamp and only some of their prices parse, the unstable sort decides, and both outcomes are allowed.
- ExtendedBuffers.ExtendedBuffer.constructor: total durations below 150 seconds, for which the cold ring has no block, are outside
  the model.
- ExtendedBuffers.ExtendedBuffer.StoreTradeEvent: the store that fills a hot ring ends the invariant, because there the ring stops
  counting.
- ExtendedBuffers.ExtendedBuffer.GetTradeEvents: the answer of a hot ring that has been filled is not stated.
- ExtendedBuffers.ExtendedBuffer.AnswerServesArrivals: says nothing about a key that was ever offered a trade already older than the hot
  duration, or trades out of time order, where a later arrival can move the grid of a block.
- Closing the two-tier buffer: CircularBuffer.Close calls Clear, which takes the same lock again and never returns
  (internal/buffer/circular_buffer.go:273-296); only what closed tiers answer is modelled.
- BatchRetry.ProcessBatchWithRetry: backoff delays and error-text classification are inputs; only their outcome matters; the clock of the
  recorded outcome is one reading taken after the other workers' calls.
- Pipeline.EveryRunIsSound: channel capacities of zero (unbuffered hand-over) and more than four workers (WorkerStatus
  has four slots) are not distinguished; sends after the channels are closed are outside the runs.
- Rows that insertBatch skips because they do not parse count as stored, as in the code; the database is an outcome.
- UpbitMonitors.UpbitMonitor.Restart: a crash between saves, which loses marks, is not modelled, nor are the background saves that follow some
  marks and errors: a mark made after the stop counts as lost even if such a save gets it into the file in time.
- Delay statistics, health scores, hit counters, memory estimates and averages.
- CompressedRing.timeIndex, block price ranges, volume sums and unique-symbol lists, which no query reads.
- TimeBucket.timestamp, startTime and currentBucket of the trade buffer, which no query reads.
- getRecentTrades walks the buckets like getFromColdBuffer and is modelled by the same walk.
- processBatchWrites, which fills batches from a channel: FlushBatch takes any batch.
- The overflow of `now - timestamp` for stamps near the ends of int64 in StoreTradeEvent, and of window bounds in
  createTimeWindows.
- Queries and stamps outside the ranges the ms/ns guess is made for (query bounds above 10^15, stamps from 0 to 10^15).
- JSON of backups and monitor state: encoding followed by decoding is taken as the identity.
- A concurrent write during a cold walk: the walk is one step.
- analyzeExchangeMarket with a window below one millisecond, where the code divides by zero.
- The default constants of pump detection (5 trades, 3 %, 1 s) and of exchange limits are parameters.
- WebSocket connectors, HTTP polling, title parsers, SQL, files, loggers, dashboards, TTL and backup managers,
  reconnection scheduling, legacy buffers and task managers: I/O or single-branch code.
