# Block message cache and layout records

A Dafny model of two parts of a log-playback application.

**The block loader.** It preloads messages of a recorded log for scrubbable playback. The inclusive time range
`[start, end]` (nanoseconds) is cut into a fixed number of equal blocks. A loader fills the blocks from a log
source, nearest the playback position first. It keeps the total byte size of all blocks within a budget by
evicting whole blocks, and reports which runs of blocks are fully loaded for the subscribed topics. A pull
cursor turns the source's message stream into one read per block: "everything up to time t". It holds back
the first message past t for the next read.

**The layout records.** Each saved panel layout has a baseline, an optional working copy of unsaved edits and
optional sync information about the copy on the layout server. The layout manager builds new records for
save, update, delete, overwrite, revert and personal copy, and stores them in, or removes them from, local
storage.

Modules:
- `Wrappers`: `Option` and `Result`.
- `Messages`: messages and the results a source yields.
- `Cursor`: `IteratorCursor`, with the pure function `ReadUntilStep` that specifies it.
- `Partition`: the block arithmetic.
- `BlockStore`: pure functions on the block array.
  - cache size;
  - the eviction choice;
  - loaded runs;
  - grouping a read by topic;
  - the topic update.
- `Loader`: the `BlockLoader` class.
- `LayoutStorage`: layout records and their predicates.
- `Layouts`: the `LayoutManager` class over a map of layouts.

The imperative parts stay imperative:
- The block store is an `array<Option<Block>>` written in place.
- The cursor and the loader are classes whose methods update their fields.
- Each loop of the TypeScript code that reads the cursor, evicts or writes blocks is a `while` loop with its
  invariants.

The folds and loops that only compute a value are written as functions instead:
- the `reduce` of `cacheSize` is the recursive `CacheSize`;
- the run merging of `calculateProgress` is the recursive `LoadedRanges`;
- the inner loop of `setTopics`, which removes a block's topics from the subscribed set, is the set difference in
  `WithTopics`;
- the loop that makes empty arrays for an empty read is the map comprehension `EmptyArrays`.

Most methods are proved against a pure function that specifies them:
- `ReadUntil` against `ReadUntilStep`, and a series of reads against `Reads` and `ReadAll`. The iterator loop,
  `ReadFromIterator`, is specified directly: what it returns and where it stops.
- `EvictBlock` against `EvictionChoice`. Its scans, `ScanDown` and `ScanUp`, are proved against `HighestBetween`
  and `LowestFrom`.
- `EvictUntilFits` against `EvictedUntil`, and `CollectMessages` against `EvictedForRead`. These apply
  `EvictionChoice` one block at a time for as long as the cache is over budget.
- `IngestBlock` against `EvictedForRead`, `Fill`, `Filled`, `FilledEmpty` and `GroupByTopic`.
- `LoadSpanBlock` against `ReadUntilStep`, `EvictedForRead` and `Fill`: the store after one block of a span is
  exactly the evictions for its read, with the read stored when it then fits.
- `LoadSpan` against `SpanReads`: the per-block reads of one cursor over the span's iterator arguments.
- `LoadBlockRange` and `Load` against the relations `RangeResult`, `WalkCovers` and `TwoWalks`. They state what
  each block holds afterwards, which blocks the walk reached, and at which read a walk that stopped early
  stopped (`StoppedAt`). They are relations rather than functions: composing the exact per-block store over a
  whole walk is not attempted, and the relations keep only where a cleared block can lie.
- `CalculateProgress` against `LoadedRanges`.
- `SetTopics` against `WithTopics`.

The properties are then proved about those functions.

The loader's class invariant `Valid` states two things:
- The cache never exceeds its budget at rest.
- An allocated block only needs subscribed topics that it holds no array for.

Every loader operation preserves `Valid`.

A ghost log `Fetches` records the span of each cursor that is opened. It is used to state the order in which
`Load` fetches and what the blocks of each span hold. `Load` also returns the ghost store `mid` between its two
walks. The second walk is stated against `mid`, because the reads of its last span above the active block may
clear blocks that the first walk filled.

Behaviour of BlockLoader.ts that the model keeps on purpose:
- **Backward eviction evicts blocks between the two ids.** In `evictBlock`, the comment says blocks in the range
  are preserved (BlockLoader.ts line 383). When loading behind the active block, the backward scan evicts blocks
  strictly between the active block and the block being loaded. Only those two blocks themselves are protected
  (`EvictionChoiceSound`).
- **Forward eviction never evicts block 0.** Its downward scan stops before block 0.
- **`loadBlockRange` skips the block after each span.** After a span it sets `blockId = endBlockId + 1`, and the
  loop header then increments it again. So the block right after a span is not visited in that pass. The
  postcondition of `LoadBlockRange` states the resulting gap of at least one block between consecutive spans.
  Its coverage clause (`WalkCovers`) therefore allows a block that directly follows a span.
- **A block filled by a span can be evicted again later in the same pass, but only below the active block.**
  A read of block c behind the active block a evicts only blocks strictly between c and a, which the walk has
  not reached yet. A read of block c ahead of a evicts blocks strictly between 0 and a, and blocks above c. So
  the walk from the active block, which reads only at or above it, never clears a block it filled
  (`FirstWalkFilled`). The walk from block 0 can: `SpanEnd` extends a span up to the end of the store
  (BlockLoader.ts line 212), not only up to the active block, so that walk's last span may run past the active
  block. Its reads above the active block then clear blocks of (0, a), including blocks this walk filled, and
  blocks above the one being read, which the first walk filled. A block of a span therefore holds that span's
  read, or is absent and lies strictly between block 0 and the active block (`RangeResult`). The bound on what
  a span's reads may clear is `SpanMayEvict`.
- **A non-empty read marks the block as needing nothing.** This holds even for fetched topics that had no message
  in the read. Such a block is not counted as fully loaded for those topics (`SilentTopicNotLoaded`).
- **`readUntil` is never cancelled.** `IteratorCursor` does not take the abort signal, so `readUntil` always
  returns a sequence, never "cancelled". The cancelled path of `IngestBlock` is still modelled and proved.

## Model

| member | source | states |
|---|---|---|
| Cursor.OvershootIndex | packages/studio-base/src/players/IterablePlayer/IteratorCursor.ts:40-52 | the index where a read stops is the first result carrying a message past the end time; every earlier result is within it |
| Cursor.ReadUntilStep | packages/studio-base/src/players/IterablePlayer/IteratorCursor.ts:24-55 | a read only consumes the stream forward and never beyond its end |
| Cursor.ReadAll | packages/studio-base/src/players/IterablePlayer/IteratorCursor.ts:24-55 | successive reads only consume the stream forward |
| Cursor.ReadUntilHoldsOvershoot | packages/studio-base/src/players/IterablePlayer/IteratorCursor.ts:27-33 | a held-back result still past the new end time makes the read empty and leaves the cursor unchanged |
| Cursor.ReadUntilStopsAt | packages/studio-base/src/players/IterablePlayer/IteratorCursor.ts:40-52 | a read whose first past-end result is at a given position returns the held result and everything consumed before that position, and holds that result back |
| Cursor.ReadUntilRunsOut | packages/studio-base/src/players/IterablePlayer/IteratorCursor.ts:40-52 | a read that meets no past-end result returns the held result and the whole rest of the stream, and holds nothing back |
| Cursor.ReadUntilBounded | packages/studio-base/src/players/IterablePlayer/IteratorCursor.ts:40-52 | no result returned by a read carries a message past the end time |
| Cursor.ReadUntilBuffer | packages/studio-base/src/players/IterablePlayer/IteratorCursor.ts:35-49 | after a read either nothing is held back and the stream is exhausted, or the held-back result is past the end time and is the last item consumed |
| Cursor.ReadUntilNoLoss | packages/studio-base/src/players/IterablePlayer/IteratorCursor.ts:24-55 | one read returns the previously held result followed by the newly consumed results, minus the one it holds back: nothing is lost or duplicated |
| Cursor.ReadAllNoLoss | packages/studio-base/src/players/IterablePlayer/IteratorCursor.ts:24-55 | across any sequence of reads, the concatenated results plus the held-back result are exactly the consumed stream prefix, in order |
| Cursor.FreshCursorNoLoss | packages/studio-base/src/players/IterablePlayer/IteratorCursor.ts:15-55 | from a fresh cursor, all reads plus the held-back result reproduce the stream prefix consumed |
| Cursor.ReadsConcat | packages/studio-base/src/players/IterablePlayer/IteratorCursor.ts:24-55 | joining the per-call outputs of a series of reads gives exactly the concatenated output of the series |
| Cursor.ReadsBounded | packages/studio-base/src/players/IterablePlayer/IteratorCursor.ts:40-52 | each read of a series returns no result carrying a message past that read's own end time |
| Cursor.FreshReadsNoLoss | packages/studio-base/src/players/IterablePlayer/IteratorCursor.ts:15-55 | from a fresh cursor, the per-call outputs joined in order, plus the held-back result, are exactly the consumed stream prefix |
| Cursor.IteratorCursor.constructor | packages/studio-base/src/players/IterablePlayer/IteratorCursor.ts:15-17 | a new cursor is at the stream start with nothing held back |
| Cursor.IteratorCursor.Next | packages/studio-base/src/players/IterablePlayer/IteratorCursor.ts:19-22 | next returns the following stream item and advances, or nothing at the stream end |
| Cursor.IteratorCursor.ReadUntil | packages/studio-base/src/players/IterablePlayer/IteratorCursor.ts:24-55 | the loop's results and the new cursor state are exactly ReadUntilStep's |
| Cursor.IteratorCursor.ReadFromIterator | packages/studio-base/src/players/IterablePlayer/IteratorCursor.ts:40-52 | the iterator loop returns the consumed results, none past the end time; it stops either holding back the first past-end result (the last one consumed) or at the end of the stream |
| Cursor.IteratorCursor.End | packages/studio-base/src/players/IterablePlayer/IteratorCursor.ts:57-59 | ending the cursor closes the stream at the consumed position |
| Partition.CeilDivBounds | packages/studio-base/src/players/IterablePlayer/BlockLoader.ts:78-82 | the rounded-up quotient is the least count of blocks whose total covers the dividend |
| Partition.TotalNs | packages/studio-base/src/players/IterablePlayer/BlockLoader.ts:73 | an inclusive range spans at least one nanosecond |
| Partition.PartitionSound | packages/studio-base/src/players/IterablePlayer/BlockLoader.ts:73-85 | the block duration is at least the minimum; the blocks cover the range; the last block starts inside it; there are between 1 and maxBlocks of them |
| Partition.BlockEnd | packages/studio-base/src/players/IterablePlayer/BlockLoader.ts:472-475 | a block ends no earlier than the range start |
| Partition.BlocksContiguous | packages/studio-base/src/players/IterablePlayer/BlockLoader.ts:468-475 | a block starts no later than it ends, and the next block starts the nanosecond after it ends |
| Partition.BlockOfTime | packages/studio-base/src/players/IterablePlayer/BlockLoader.ts:78-85 | each instant of the range lies in exactly one block, which exists |
| Partition.ActiveBlockSound | packages/studio-base/src/players/IterablePlayer/BlockLoader.ts:88-91 | the active block holds the instant one second before the given time (or the range start); it exists when that instant is in range |
| BlockStore.CacheSizeUpdate | packages/studio-base/src/players/IterablePlayer/BlockLoader.ts:458-466 | replacing one block changes the cache size by the size difference |
| BlockStore.HighestBetween | packages/studio-base/src/players/IterablePlayer/BlockLoader.ts:386-395 | the backward scan finds the highest non-empty block strictly between the bounds, or none exists |
| BlockStore.LowestFrom | packages/studio-base/src/players/IterablePlayer/BlockLoader.ts:410-419 | the upward scan finds the lowest non-empty block from the bound, or none exists |
| BlockStore.EvictionChoiceSound | packages/studio-base/src/players/IterablePlayer/BlockLoader.ts:384-423 | an evicted block is non-empty and is never the active block or the block being loaded; loading ahead it is neither block 0 nor in the protected range; loading behind it lies strictly between the two; nothing is evicted only when no scanned block is non-empty |
| BlockStore.EvictionOrder | packages/studio-base/src/players/IterablePlayer/BlockLoader.ts:384-423 | the scans pick the nearest non-empty block below the active block first, and only then the nearest above the loading block |
| BlockStore.RunsFromSound | packages/studio-base/src/players/IterablePlayer/BlockLoader.ts:425-443 | the merged runs from an index are sorted, disjoint and non-adjacent, and cover exactly the fully loaded blocks from there |
| BlockStore.LoadedRangesSound | packages/studio-base/src/players/IterablePlayer/BlockLoader.ts:425-456 | the progress ranges are well-formed maximal runs whose union is exactly the fully loaded blocks |
| BlockStore.GroupByTopicSound | packages/studio-base/src/players/IterablePlayer/BlockLoader.ts:284-296 | the per-topic arrays have a key exactly for the topics with messages in the read, each holding that topic's messages in read order |
| BlockStore.FilledEmptyLoads | packages/studio-base/src/players/IterablePlayer/BlockLoader.ts:253-268 | an empty read makes the block fully loaded for the fetched topics, needing nothing, with its size unchanged |
| BlockStore.SilentTopicNotLoaded | packages/studio-base/src/players/IterablePlayer/BlockLoader.ts:271-326 | for every block and read: a fetched topic that the block held no array for and the read has no message on leaves the stored block needing nothing, yet not fully loaded for the fetched topics |
| BlockStore.Fill | packages/studio-base/src/players/IterablePlayer/BlockLoader.ts:253-326 | a stored block needs nothing; after an empty read it is fully loaded for the fetched topics; it has an array for exactly the old topics, the fetched topics when the read is empty, and the topics with a message in a non-empty read |
| BlockStore.EvictedUntilSound | packages/studio-base/src/players/IterablePlayer/BlockLoader.ts:298-315 | the eviction loop clears only blocks evictBlock may scan, never the block being loaded, and never grows the cache; it stops within budget or with nothing left to evict; it evicts nothing when the cache plus the pending bytes already fits |
| BlockStore.EvictedForReadSound | packages/studio-base/src/players/IterablePlayer/BlockLoader.ts:283-316 | over a whole read, the message loop clears only blocks evictBlock may scan and never grows the cache; it ends with the cache plus the read's bytes within budget, or with nothing left to evict |
| BlockStore.WithTopicsSound | packages/studio-base/src/players/IterablePlayer/BlockLoader.ts:111-121 | after a topic change a block needs nothing exactly when fully loaded, needs every missing subscribed topic, and keeps its messages and size |
| Loader.BlockLoader.constructor | packages/studio-base/src/players/IterablePlayer/BlockLoader.ts:65-86 | the block duration and count are those of the partition, every block is absent, and the cache is empty |
| Loader.BlockLoader.SetActiveTime | packages/studio-base/src/players/IterablePlayer/BlockLoader.ts:88-100 | the active block becomes the one for the time minus one second; when it changes, the load is aborted and the loop notified |
| Loader.BlockLoader.SetTopics | packages/studio-base/src/players/IterablePlayer/BlockLoader.ts:102-122 | equal topics change nothing; otherwise every allocated block's needed topics are recomputed for the new set, the budget still holds, and the load is aborted |
| Loader.BlockLoader.StopLoading | packages/studio-base/src/players/IterablePlayer/BlockLoader.ts:124-128 | the loader is stopped and the loop notified |
| Loader.BlockLoader.CalculateProgress | packages/studio-base/src/players/IterablePlayer/BlockLoader.ts:425-456 | progress lists well-formed runs covering exactly the fully loaded blocks, with a snapshot of the blocks |
| Loader.BlockLoader.EvictBlock | packages/studio-base/src/players/IterablePlayer/BlockLoader.ts:384-423 | the scans clear exactly the block EvictionChoice picks and return its positive size, or return 0 and change nothing |
| Loader.BlockLoader.ScanDown | packages/studio-base/src/players/IterablePlayer/BlockLoader.ts:386-395 | the downward scan finds exactly HighestBetween: the highest allocated block of non-zero size strictly between the two bounds, or none |
| Loader.BlockLoader.ScanUp | packages/studio-base/src/players/IterablePlayer/BlockLoader.ts:410-419 | the upward scan finds exactly LowestFrom: the lowest allocated block of non-zero size at or after the start index, or none |
| Loader.BlockLoader.ClearBlock | packages/studio-base/src/players/IterablePlayer/BlockLoader.ts:392-394 | clearing a block of non-zero size frees exactly that block, changes no other, returns its size and keeps the cache within budget |
| Loader.BlockLoader.SpanEnd | packages/studio-base/src/players/IterablePlayer/BlockLoader.ts:208-225 | the span extends over the following blocks needing the same topics, and the next block (if any) needs different ones |
| Loader.BlockLoader.EvictUntilFits | packages/studio-base/src/players/IterablePlayer/BlockLoader.ts:298-315 | the blocks afterwards are exactly EvictedUntil of the blocks before: evictBlock's choice is cleared one block at a time while the cache plus the pending bytes is over budget, and no more; it fits exactly when the new total is within budget, and otherwise nothing is left to evict; the block being loaded is untouched |
| Loader.BlockLoader.CollectMessages | packages/studio-base/src/players/IterablePlayer/BlockLoader.ts:283-316 | the blocks afterwards are exactly EvictedForRead: the eviction loop after each message, with the read's bytes so far pending; the read is admitted exactly when the cache plus the read's total bytes fits the budget, and then the collected arrays are the read grouped by topic and the size is the read's byte total |
| Loader.BlockLoader.CollectResult | packages/studio-base/src/players/IterablePlayer/BlockLoader.ts:284-316 | one pass of the message loop extends the eviction state to one more result; a problem is skipped; when the message fits, the arrays and size are those of the longer prefix, within budget; otherwise that prefix does not fit and nothing is left to evict |
| Loader.BlockLoader.StoreEmptyRead | packages/studio-base/src/players/IterablePlayer/BlockLoader.ts:253-268 | an empty read adds empty arrays for the fetched topics, keeps the size, needs nothing more, changes no other block and keeps the cache size |
| Loader.BlockLoader.StoreRead | packages/studio-base/src/players/IterablePlayer/BlockLoader.ts:318-326 | a stored read merges the new arrays over the old ones, adds the read size to the block and to the cache size, needs nothing more and changes no other block |
| Loader.BlockLoader.IngestBlock | packages/studio-base/src/players/IterablePlayer/BlockLoader.ts:246-326 | a cancelled read changes nothing; an empty read marks the fetched topics present; a non-empty read leaves exactly the blocks of EvictedForRead, and is stored over the old block exactly when the read then fits the budget, otherwise it stops with those evictions and nothing left to evict; a stored block is Fill of the old block and the read |
| Loader.BlockLoader.LoadSpan | packages/studio-base/src/players/IterablePlayer/BlockLoader.ts:227-338 | each block of the span read so far holds Fill of its old value (or of nothing, once evicted) and that block's read from one cursor over the span's iterator arguments, or is absent and lies strictly between block 0 and the active block; every other block is unchanged, or absent and one evictBlock may clear while some block of the span is loaded (SpanMayEvict); a completed span has read every block; a span that stopped early stopped at a block whose non-empty read does not fit the budget after the evictions, with nothing left to evict (StoppedAt); one progress report is added per stored non-empty read; the budget holds |
| Loader.BlockLoader.LoadSpanBlock | packages/studio-base/src/players/IterablePlayer/BlockLoader.ts:243-336 | one block of a span: the read is exactly ReadUntilStep up to the block's clamped end; the store afterwards is exactly EvictedForRead of the old store and the read, with the block set to Fill of its old value and the read exactly when the read then fits the budget; a read that is not stored is non-empty, does not fit, and leaves nothing to evict; the progress of the current blocks (CalculateProgress) is reported exactly after a stored non-empty read, and nothing is reported otherwise |
| Loader.BlockLoader.FetchSpan | packages/studio-base/src/players/IterablePlayer/BlockLoader.ts:193-338 | the span starts at the block, fetches the topics that block needs (all subscribed topics when absent, a non-empty set when some topic is subscribed) and extends exactly over the following blocks that need the same topics; it is recorded in Fetches, its blocks hold its reads as LoadSpan states, and a span that stopped early stopped on a read that does not fit after the evictions (StoppedAt) |
| Loader.BlockLoader.WalkBlock | packages/studio-base/src/players/IterablePlayer/BlockLoader.ts:204-339 | one span step of the walk, at a block that needs some topics, moves forward and keeps the walk's state: the spans fetched so far are placed and each ends at least two blocks before the next block visited; their blocks hold their reads or are absent below the active block; later blocks are unchanged or were evicted by a read of one of the spans; every block passed needed nothing or lies inside or directly after a span. A step whose read stopped early leaves RangeResult, naming the read it stopped at |
| Loader.BlockLoader.LoadBlockRange | packages/studio-base/src/players/IterablePlayer/BlockLoader.ts:181-339 | blocks that need nothing are passed by; spans start inside the range, lie in the store, fetch subscribed topics and are separated by at least one block; each span's blocks hold that span's reads, or are absent and lie strictly between block 0 and the active block, except that the last span's unread blocks are unchanged or evicted when the walk stopped early; other blocks are unchanged, or absent and clearable by evictBlock while some span was read; a walk that stopped early stopped at a non-empty read of its last span that does not fit the budget after the evictions, with nothing left to evict; a completed walk leaves every block of the range needing nothing beforehand, or inside a span, or directly after one |
| Loader.SpanMayEvictExact | packages/studio-base/src/players/IterablePlayer/BlockLoader.ts:384-423 | the blocks evictBlock may clear while some block of a span [first, last] is loaded with block a active are exactly: those strictly between the span start and a, when the span starts below a; and, when the span ends above a, those strictly between block 0 and a and those above both a + 1 and the span start |
| Loader.BlockLoader.RangeResultStep | packages/studio-base/src/players/IterablePlayer/BlockLoader.ts:204-339 | a walk's result extends by one span read after its earlier spans: the earlier spans keep their reads (or lose a block below the active block), blocks outside all spans are unchanged or evicted by one of them, and a span that stopped early names the read it stopped at |
| Loader.BlockLoader.FirstWalkFilled | packages/studio-base/src/players/IterablePlayer/BlockLoader.ts:298-303 | a walk whose spans all start at or above the active block never evicts a block it filled: every span it finished holds its reads in full |
| Loader.BlockLoader.TwoWalksPlaced | packages/studio-base/src/players/IterablePlayer/BlockLoader.ts:170-175 | every fetch of a load pass lies in the store and fetches a non-empty set of subscribed topics, and once a fetch starts below the active block every later fetch of the pass does too |
| Loader.BlockLoader.SpanStep | packages/studio-base/src/players/IterablePlayer/BlockLoader.ts:243-336 | one iteration of the span loop: a stored read extends the span's state by one block (the same cursor's next read, its block's content, its report); otherwise the span stops at that block with the blocks before it stored and StoppedAt naming why |
| Loader.BlockLoader.Load | packages/studio-base/src/players/IterablePlayer/BlockLoader.ts:157-176 | with no topics one progress report is added and nothing changes; with an empty store nothing is fetched; otherwise the walk from the active block to the end fetches all its spans before the walk from block 0 to the active block; each walk's blocks satisfy LoadBlockRange's result over the store it started from; every span the first walk finished holds its reads in full after that walk; when both walks complete, every block needed nothing at the start or lies inside or directly after a fetched span |
| LayoutStorage.SharedPermissions | packages/studio-base/src/services/ILayoutStorage.ts:63-73 | a permission is shared exactly when it is an organisation permission, and a layout is shared by its permission |
| LayoutStorage.AppearsDeletedCases | packages/studio-base/src/services/ILayoutStorage.ts:75-80 | locally deleted always appears deleted; remotely deleted exactly without a working copy; no other status, or no sync info, ever does |
| LayoutStorage.Visible | packages/studio-base/src/services/LayoutManager/LayoutManager.ts:150-155 | the listed layouts are exactly the stored ones that do not appear deleted |
| Layouts.TrackedFromRemote | packages/studio-base/src/services/LayoutManager/LayoutManager.ts:193-200 | a layout confirmed by the server is stored tracked, without a working copy, with the server's save time |
| Layouts.EditedWorking | packages/studio-base/src/services/LayoutManager/LayoutManager.ts:237-242 | no new data keeps the working copy; data equal to the baseline clears it; other data becomes the working copy at the current time |
| Layouts.UpdatedLocally | packages/studio-base/src/services/LayoutManager/LayoutManager.ts:264-280 | a local update takes the new name if given; only a rename of a layout known to the server moves the baseline time and marks it updated |
| Layouts.MarkedDeleted | packages/studio-base/src/services/LayoutManager/LayoutManager.ts:305-316 | a local deletion with remote storage keeps the current data as the working copy and marks the layout locally deleted, so it appears deleted |
| Layouts.OverwrittenLocally | packages/studio-base/src/services/LayoutManager/LayoutManager.ts:354-367 | the current data becomes the baseline at the current time, the working copy is dropped, and the status becomes updated only with remote storage for a layout that is not new |
| Layouts.PersonalCopy | packages/studio-base/src/services/LayoutManager/LayoutManager.ts:398-405 | the copy is an unshared, new, visible layout with the original's current data |
| Layouts.LayoutManager.constructor | packages/studio-base/src/services/LayoutManager/LayoutManager.ts:120-131 | sharing is supported exactly when remote storage is given; it starts offline without error |
| Layouts.LayoutManager.SetOnline | packages/studio-base/src/services/LayoutManager/LayoutManager.ts:110-113 | records the connection state |
| Layouts.LayoutManager.SetError | packages/studio-base/src/services/LayoutManager/LayoutManager.ts:115-118 | records the error |
| Layouts.LayoutManager.GetLayouts | packages/studio-base/src/services/LayoutManager/LayoutManager.ts:150-155 | returns exactly the stored layouts that do not appear deleted |
| Layouts.LayoutManager.GetLayout | packages/studio-base/src/services/LayoutManager/LayoutManager.ts:157-165 | returns the stored layout with the id, if any |
| Layouts.LayoutManager.SaveNewLayout | packages/studio-base/src/services/LayoutManager/LayoutManager.ts:167-217 | a shared layout fails without remote storage or offline, else the server's record is stored tracked; any other layout is stored with migrated data and status new exactly with remote storage; a saved layout is listed |
| Layouts.LayoutManager.UpdateLayout | packages/studio-base/src/services/LayoutManager/LayoutManager.ts:219-285 | a missing id fails with storage unchanged; a shared rename fails without remote storage or offline, else stores the server's record; any other update stores UpdatedLocally; both use EditedWorking |
| Layouts.LayoutManager.DeleteLayout | packages/studio-base/src/services/LayoutManager/LayoutManager.ts:287-323 | a missing id fails; a shared layout needs remote storage and, unless deleted on the server, a connection; with remote storage an unshared layout is marked locally deleted, else the record is removed; on success it is no longer listed and nothing else changes |
| Layouts.LayoutManager.OverwriteLayout | packages/studio-base/src/services/LayoutManager/LayoutManager.ts:325-372 | a missing id fails; a shared layout fails without remote storage or offline, else stores the server's record tracked; any other layout stores OverwrittenLocally; the working copy is dropped |
| Layouts.LayoutManager.RevertLayout | packages/studio-base/src/services/LayoutManager/LayoutManager.ts:374-388 | a missing id fails; otherwise only the working copy is dropped |
| Layouts.LayoutManager.MakePersonalCopy | packages/studio-base/src/services/LayoutManager/LayoutManager.ts:390-410 | a missing id fails; otherwise the personal copy is stored under the new id, the original loses its working copy, and the copy is listed |

## Left out

- The driving loop `startLoading`, the condition variable and the abort controller are not modelled. Their
  effects are kept as the flags `stopped`, `notified` and `aborted`. A pass is one `Load` call. An abort is never
  observed during a read, because `IteratorCursor` ignores the signal.
- `getMessageCursor`, the native cursor a source may provide, is not modelled. The log source is a fixed function
  from iterator arguments to a stream, and the cursor is always an `IteratorCursor`.
- IIterableSource.ts (the iterator result types) is not part of this model. Results are modelled as a message or
  a problem marker.
- The floating-point guard `totalNs > 0.9 * Number.MAX_SAFE_INTEGER` becomes a constructor precondition:
  `TotalNs <= MaxTotalNs`, the guard's value as a double. The floating-point division in the block duration is
  modelled as exact integer ceiling division.
- Loader.BlockLoader.CalculateProgress: reports block-index runs, not the fractions of the store that
  BlockLoader.ts divides them into.
- Loader.BlockLoader.LoadSpan: counts the progress reports of a span but does not list their values. Each value is
  stated where it is made, by `LoadSpanBlock`: `CalculateProgress` of the blocks at that moment.
- Loader.BlockLoader.LoadBlockRange: states which blocks the walk reached only for a walk that completed. A walk
  that stopped early is described by what each block holds and by the read it stopped at (`StoppedAt`).
- Loader.BlockLoader.LoadBlockRange: does not state the exact store after a walk, only where each block's content
  comes from and where a cleared block can lie; the exact store is stated per block by `LoadSpanBlock`.
- Loader.BlockLoader.constructor: requires `start <= end` and `maxBlocks > 0`. With `maxBlocks = 0` (the block
  duration becomes infinite) or `end < start` (the range has no nanoseconds), BlockLoader.ts builds an empty
  store; these degenerate configurations are not modelled.
- The problem manager, logging and the unexpected-topic check that is commented out are not modelled. Problem
  results are skipped, as in BlockLoader.ts.
- Block ids at or beyond the store length are not modelled. The source could write past the end of its
  JavaScript array (an active block past the range end). The model's array is fixed-length, and the walk in
  `LoadBlockRange` is bounded by the store length.
- Aliasing is not modelled. `setTopics` mutates block objects in place, and those objects are shared with earlier
  progress snapshots. In the model, blocks are values, so a snapshot is not affected.
- Times are nanosecond naturals. The time arithmetic library and lodash `isEqual` (set equality) are not
  modelled.
- `intervals-fn` `simplify` is not modelled. Its maximal-run merging is specified by `LoadedRanges`.
- The remote side of the layout manager is not modelled. This covers `updateOrFetchLayout`, `syncWithRemote`,
  the sync operations and the layout server.
  - The server's reply to a shared save, rename or overwrite is a parameter.
  - A failed server call is not modelled.
- The event emitter, change notifications, the busy-status decorator, uuid generation and `Date` are not
  modelled. Fresh ids and the current time are parameters.
- `migratePanelsState` and `isLayoutEqual` are not modelled. They are uninterpreted functions fixed at
  construction.
- The deprecated `data` and `state` fields of a layout are not modelled.
- The listing order of `getLayouts` is not modelled. The listed layouts are a map keyed by id.
