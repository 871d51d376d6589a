# Verified models of the vr toolkit's data structures and protocols

A Dafny model of the parts of the low-latency toolkit under `vr/vr_common` that
rest on hard invariants, with proofs that each fast form does what its simple
specification says.

| area | files | refines |
|---|---|---|
| `chained_scatter_table` | `CollisionChains`, `ScatterSlots`, `ScatterStructure`, `ScatterTable` | a mathematical map |
| `lf_spsc_buffer` | `SpscBuffer`, `SpscProgress` | a queue, under x86-TSO |
| `stream_summary` | `SpaceSaving`, `SummaryLists`, `StreamSummary` | true frequencies, up to a bound |
| `fenwick_window` | `Fenwick`, `FenwickWindow` | a sum over the event history |
| `fixed_size_allocator` and `object_pool` | `FreeLists`, `ChunkedSlots`, `ObjectPool`, `ObjectLifecycle` | a set of references |
| `mapped_ofile` and `mapped_window_buffer` | `MappedFile`, `MappedWindowBuffer` | a byte stream |
| dataframe layout | `ColumnBits`, `DataframeLayout`, `Dataframe` | disjoint cells |
| CRC32C | `LinearRegister`, `CrcTable`, `Crc32` | a bit-serial shift register |
| decimal logarithm and text | `IntLog10`, `DecimalText` | numbers and their decimal text |

`Wrappers`, `Arith`, `Bits` and `Collections` hold what several areas share.
`dafny verify dfyconfig.toml` checks everything.

How the models are built:

- Objects whose methods update fields are classes over arrays and sequences. Each
  method states the new abstract value (a map, a stream, a history, a set of
  references) in terms of the old one, and what stays unchanged when it fails.
- Code that throws returns a `Result`. Where the source checks a template flag
  first, the checked variant is modelled.
- A scatter table slot is a datatype with the two layouts of the source's union, so
  `_prev_` exists only where the sign of `_next_` says that it does. `Shape` is the
  ghost account of chains, free list and key index that the array must show.
- The queue between two threads is a step system: the steps of the two ends and of
  their store buffers are interleaved in every order, and a slot is several words,
  so that a torn read would show. It is not a class because the point is what
  happens between two statements.
- `SpaceSaving.Summarizes` and `FenwickWindow.SumBetween` are written without
  reference to the structures, so that the theorems speak about streams and event
  histories only.
- Link, position and count types are unbounded integers with the source's explicit
  limits as conditions (`maxCapacity`, `nullRef`). CRC registers are bit-vectors;
  decimal parsing and the logarithm's subtraction wrap as in the source.

Three things the proofs show about the code:

- The double release that `release` does not guard against is exactly the case in
  which the free list stops being sound (`Allocator.Release`), and it is reachable
  from every new pool (`ReleaseFromNewPool`).
- The pool's design invariant fails exactly while a slot is left over from a
  constructor that has thrown (`Pool.DesignInvariantIff`): nothing gives the slot
  back, and the pool's destructor will destruct what was never constructed.
- The compact formula in `mapped_window_buffer::truncate_and_close` is right only
  because the inferred file size always equals the read offset's base plus capacity
  plus window, an invariant over the whole run (`WindowBuffer.Valid`).

Where comments and code differ, the code is followed:

- The comment of `ilog10_floor` promises -1 for zero (`ops_int.h:277`); with the
  policy the printers choose, the table entry for zero makes it 0.
- The comment on the window reset speaks of more than a window (`fenwick_window.h:184`);
  an event exactly one window later resets too, which loses nothing.

## Model

| member | source | states |
|---|---|---|
| ScatterTable.Table.Put | vr/vr_common/src/vr/containers/util/chained_scatter_table.h:663-824 | For any hash function: fails exactly when the key is absent, the table is full and it cannot grow, and then nothing has changed; otherwise the map is the old one with exactly this key set, the returned slot holds the entry, and a full resizable table has doubled once and not again |
| ScatterTable.Table.PutOnce | vr/vr_common/src/vr/containers/util/chained_scatter_table.h:671-813 | One pass over the three cases by what the slot at the hash address holds: a retry is asked for exactly when the key is new and a resizable table is full |
| ScatterTable.Table.PutEmpty | vr/vr_common/src/vr/containers/util/chained_scatter_table.h:680-706 | Case 1: the empty home slot leaves the free list wherever it is on it and becomes the head of a new chain |
| ScatterTable.Table.PutInChain | vr/vr_common/src/vr/containers/util/chained_scatter_table.h:715-766 | Case 2: the probe of the key's own chain updates a present key, or reports that there is no room, or appends a new key |
| ScatterTable.Table.AppendAfter | vr/vr_common/src/vr/containers/util/chained_scatter_table.h:745-761 | A new key goes to a free slot linked behind the last node of its chain; a full table stays as it was |
| ScatterTable.Table.LinkLast | vr/vr_common/src/vr/containers/util/chained_scatter_table.h:695-760 | Exactly the new key is added, in the given slot, which ends the chain behind the node that ended it |
| ScatterTable.Table.PutDisplacing | vr/vr_common/src/vr/containers/util/chained_scatter_table.h:767-812 | Case 3: the foreign entry in the home slot is moved to a free slot and keeps its key and value, and the new key heads its own chain |
| ScatterTable.Table.Displace | vr/vr_common/src/vr/containers/util/chained_scatter_table.h:780-807 | Moving an entry changes no key's value, only where that one key is |
| ScatterTable.Table.FindPredecessor | vr/vr_common/src/vr/containers/util/chained_scatter_table.h:787-806 | The predecessor search from the foreign entry's own hash address terminates at the slot that links to the displaced address |
| ScatterTable.Table.AcquireFreeSlot | vr/vr_common/src/vr/containers/util/chained_scatter_table.h:452-484 | Fails exactly when the table is full; otherwise hands out the first slot of the free list, and every chain and entry is untouched |
| ScatterTable.Table.FreeSlot | vr/vr_common/src/vr/containers/util/chained_scatter_table.h:486-504 | A released slot heads the free list again; the map is unchanged |
| ScatterTable.Table.AllocateCapacity | vr/vr_common/src/vr/containers/util/chained_scatter_table.h:506-555 | A fresh slot array of the requested capacity shows an empty map, all slots on the free list; refused exactly above the capacity the links can index |
| ScatterTable.Table.Create | vr/vr_common/src/vr/containers/util/chained_scatter_table.h:288-292 | The constructed table is empty and its capacity is the least power of two that is no less than the requested one; hash, growth policy and limit are the ones passed |
| ScatterTable.Table.Get | vr/vr_common/src/vr/containers/util/chained_scatter_table.h:565-630 | Finds exactly the present keys, with their value, even when it starts on a foreign chain |
| ScatterTable.Table.RemoveImpl | vr/vr_common/src/vr/containers/util/chained_scatter_table.h:827-910 | Deletes exactly the given key and returns its value; an absent key changes nothing |
| ScatterTable.Table.FindWithPredecessor | vr/vr_common/src/vr/containers/util/chained_scatter_table.h:841-907 | The probe with a trailing slot finds the key exactly if it is present, together with the slot that links to it |
| ScatterTable.Table.DetachEntry | vr/vr_common/src/vr/containers/util/chained_scatter_table.h:864-888 | Either the successor's entry moves into the slot or the last node is cut off; the map loses exactly one key, and which slot that leaves unused is said |
| ScatterTable.Table.Remove | vr/vr_common/src/vr/containers/util/chained_scatter_table.h:913-925 | Reports whether the key was there; the size falls by one exactly then |
| ScatterTable.Table.Rehash | vr/vr_common/src/vr/containers/util/chained_scatter_table.h:351-360 | Preserves the map; succeeds exactly when the rounded target is the present capacity, or no less than the size and within the link limit |
| ScatterTable.Table.RehashImpl | vr/vr_common/src/vr/containers/util/chained_scatter_table.h:928-962 | Preserves the map and the size in a new slot array, or fails with nothing changed; no nested put rehashes again |
| ScatterTable.Table.MoveInto | vr/vr_common/src/vr/containers/util/chained_scatter_table.h:943-961 | The entries of the previous slot array are all in the new one and nothing else is |
| ScatterTable.Table.ReinsertSlot | vr/vr_common/src/vr/containers/util/chained_scatter_table.h:951-960 | One visited slot adds exactly its entry to the new table, without reallocating it |
| ScatterTable.Table.Traverse | vr/vr_common/src/vr/containers/util/chained_scatter_table.h:384-438 | Iteration visits every occupied slot exactly once, which are exactly the entries of the map, and stops when the count is reached |
| ScatterTable.Table.SizeIsCardinality | vr/vr_common/src/vr/containers/util/chained_scatter_table.h:302-305 | `size()` is the cardinality of the map and never above the capacity |
| ScatterStructure.SlotPartition | vr/vr_common/src/vr/containers/util/chained_scatter_table.h:452-555 | Every used slot lies on exactly the chain of its own hash address, once, behind a head in its home slot, so chains never coalesce; the empty slots are exactly the free list, once each; used and free add up to the capacity |
| ScatterStructure.FullIffListEmpty | vr/vr_common/src/vr/containers/util/chained_scatter_table.h:461-469 | The sentinel links to itself exactly when the table is full |
| ScatterStructure.WalkStart | vr/vr_common/src/vr/containers/util/chained_scatter_table.h:571-600 | If a key is present, it is ahead on the chain found at its hash address, also when that slot belongs to a foreign chain |
| ScatterStructure.WalkStep | vr/vr_common/src/vr/containers/util/chained_scatter_table.h:604-627 | A probe step keeps a present key ahead, and the end of the chain proves it absent |
| ScatterStructure.SeekStep | vr/vr_common/src/vr/containers/util/chained_scatter_table.h:787-806 | The searched slot stays ahead and the walk gets shorter |
| ScatterSlots.UnlinkShows | vr/vr_common/src/vr/containers/util/chained_scatter_table.h:452-484 | Unlinking an empty slot anywhere from the doubly linked list keeps the structure and the map |
| ScatterSlots.FreeShows | vr/vr_common/src/vr/containers/util/chained_scatter_table.h:486-504 | Pushing a slot behind the sentinel keeps the structure and the map |
| ScatterSlots.DisplaceShows | vr/vr_common/src/vr/containers/util/chained_scatter_table.h:780-807 | Moving a foreign entry with one predecessor repair keeps the structure and the map |
| ScatterSlots.AbsorbShows | vr/vr_common/src/vr/containers/util/chained_scatter_table.h:864-880 | Pulling the successor's entry forward removes exactly the overwritten key |
| ScatterSlots.CutShows | vr/vr_common/src/vr/containers/util/chained_scatter_table.h:881-888 | Cutting the last node removes exactly its key |
| CollisionChains.HeadReaches | vr/vr_common/src/vr/containers/util/chained_scatter_table.h:563-566 | From the head of a chain every node of that chain is reached |
| CollisionChains.NodesDistinct | vr/vr_common/src/vr/containers/util/chained_scatter_table.h:563-566 | Chains are acyclic: a walk never meets a node twice |
| CollisionChains.FromSentinel | vr/vr_common/src/vr/containers/util/chained_scatter_table.h:452-555 | Every empty slot is reached from the sentinel |
| CollisionChains.RingDistinct | vr/vr_common/src/vr/containers/util/chained_scatter_table.h:452-555 | The free list meets no slot twice before it is back at the sentinel |
| CollisionChains.UnlinkKeeps | vr/vr_common/src/vr/containers/util/chained_scatter_table.h:452-484 | After unlinking, `next` and `prev` are still inverse to each other around the ring |
| CollisionChains.PushFrontKeeps | vr/vr_common/src/vr/containers/util/chained_scatter_table.h:486-504 | So they are after an insertion behind the sentinel |
| SpscBuffer.StepKeepsInv | vr/vr_common/src/vr/mc/lf_spsc_buffer.h:82-190 | Every step of either thread, including stores through a reference kept past `commit()`, and every drain of a store buffer keeps the invariant |
| SpscBuffer.DequeuedIsPrefixOfCommitted | vr/vr_common/src/vr/mc/lf_spsc_buffer.h:203-214 | In every interleaving under x86-TSO, the values read, word by word, are in order a prefix of the values committed |
| SpscBuffer.EndsHoldDifferentSlots | vr/vr_common/src/vr/mc/lf_spsc_buffer.h:57-69 | Cached peer positions are never ahead, producer minus consumer position stays within 0 and the capacity, and two live result objects denote different slots |
| SpscBuffer.CommitTakesOwnStores | vr/vr_common/src/vr/mc/lf_spsc_buffer.h:164-184 | What a commit adds to the stream is exactly the slot as the producer wrote it up to the end of the scope, before or after `commit()`, whatever happened in between |
| SpscBuffer.AbortLeavesStream | vr/vr_common/src/vr/mc/lf_spsc_buffer.h:144-160 | A result dropped without `commit()` changes nothing but a slot that is not part of the stream |
| SpscBuffer.TrySucceedsIffRoom | vr/vr_common/src/vr/mc/lf_spsc_buffer.h:257-292 | A try succeeds exactly when the position in memory leaves room or data, stale cache or not |
| SpscBuffer.QuiescentTries | vr/vr_common/src/vr/mc/lf_spsc_buffer.h:257-292 | With the store buffers drained: an enqueue succeeds exactly when fewer than CAPACITY values are in flight, a dequeue exactly when there is one |
| SpscBuffer.ReorderedStoresBreakIt | vr/vr_common/src/vr/mc/lf_spsc_buffer.h:203-207 | The reliance on store order is real: if a position may overtake the data it publishes, a run exists in which the consumer reads a stale word |
| SpscBuffer.SlotOfIsMod | vr/vr_common/src/vr/mc/lf_spsc_buffer.h:118 | The 32-bit cast and mask is the position modulo the capacity |
| SpscBuffer.Pow2CapacityIsGood | vr/vr_common/src/vr/mc/lf_spsc_buffer.h:224 | That holds for every power-of-2 capacity |
| SpscBuffer.SlotsDiffer | vr/vr_common/src/vr/mc/lf_spsc_buffer.h:118-178 | Positions less than a capacity apart use different slots |
| SpscBuffer.LoadIsCommitted | vr/vr_common/src/vr/mc/lf_spsc_buffer.h:112-119 | A word loaded through a dequeue result is that word of the next committed value |
| SpscProgress.ConsumerEffect | vr/vr_common/src/vr/mc/lf_spsc_buffer.h:92-119 | The end of a dequeue result consumes exactly the value it held: the position and the stream of results grow by one; a load reads a word of the next committed value; no other step dequeues |
| SpscProgress.ProducerEffect | vr/vr_common/src/vr/mc/lf_spsc_buffer.h:144-169 | `commit()` marks the result and nothing else does; its end publishes one position exactly if it was marked, and frees the producer in either case |
| SpscProgress.Drains | vr/vr_common/src/vr/mc/lf_spsc_buffer.h:257-273 | From every reachable state some run takes out every committed value, whole and in order, and leaves both store buffers empty |
| SpscProgress.Enqueues | vr/vr_common/src/vr/mc/lf_spsc_buffer.h:276-292 | However full the buffer is, once the consumer has caught up the next value goes in, word for word |
| SpscProgress.Transfers | vr/vr_common/src/vr/mc/lf_spsc_buffer.h:203-214 | Any stream of values passes: some run from the initial state commits exactly these values and dequeues each of them whole, in order, whatever the capacity |
| StreamSummary.Summary.UpdateWithValue | vr/vr_common/src/vr/stats/stream_summary.h:309-378 | One value does one step of the Space-Saving algorithm on the monitored entries and keeps every structural and statistical guarantee for the longer stream |
| StreamSummary.Summary.Update | vr/vr_common/src/vr/stats/stream_summary.h:381-391 | A run of values is consumed one by one, in order |
| StreamSummary.Summary.IncrementItemCount | vr/vr_common/src/vr/stats/stream_summary.h:225-306 | The item's count grows by one, no other count changes, and buckets, items, parents and the bucket free list agree again |
| StreamSummary.Summary.ToNewBucket | vr/vr_common/src/vr/stats/stream_summary.h:253-274 | A bucket is taken from the free list, which is not empty, when the parent keeps other items |
| StreamSummary.Summary.ToSameBucket | vr/vr_common/src/vr/stats/stream_summary.h:275-284 | The only item of a bucket takes its bucket along to the new count, which keeps its place in the order |
| StreamSummary.Summary.ToNextBucket | vr/vr_common/src/vr/stats/stream_summary.h:286-305 | The item joins the next bucket; an emptied parent is unlinked and freed |
| StreamSummary.Summary.ReplaceMin | vr/vr_common/src/vr/stats/stream_summary.h:328-347 | A full summary gives over an item of least count: count plus one, with that count as its error |
| StreamSummary.Summary.AddValue | vr/vr_common/src/vr/stats/stream_summary.h:348-376 | An unused item starts with count 1 and no error |
| StreamSummary.Summary.Create | vr/vr_common/src/vr/stats/stream_summary.h:191-204 | A size that is not positive is refused; otherwise the summary is new and empty, with the given maximum |
| StreamSummary.Summary.Size | vr/vr_common/src/vr/stats/stream_summary.h:64-67 | The number of monitored values is that of the map's entries and at most the maximum |
| StreamSummary.Summary.Traverse | vr/vr_common/src/vr/stats/stream_summary.h:69-172 | Iteration visits every monitored value exactly once, in order of falling counts |
| StreamSummary.SpareBucket | vr/vr_common/src/vr/stats/stream_summary.h:253-270 | The bucket free list is never empty when it is popped, although there are only `max_size` buckets |
| StreamSummary.MapSize | vr/vr_common/src/vr/stats/stream_summary.h:387 | The value map has one entry for every allocated item |
| SpaceSaving.UpdateKeeps | vr/vr_common/src/vr/stats/stream_summary.h:309-378 | Counting, adding or replacing keeps: count minus error <= true frequency <= count, the bound on unmonitored values, and the sum of counts |
| SpaceSaving.ErrorBound | vr/vr_common/src/vr/stats/stream_summary.h:328-347 | No error exceeds N / max_size, and no count is over by more than its error |
| SpaceSaving.MinCountBound | vr/vr_common/src/vr/stats/stream_summary.h:328-347 | Once full, the least count is at most N / max_size |
| SpaceSaving.HeavyHittersAreMonitored | vr/vr_common/src/vr/stats/stream_summary.h:309-378 | Every value that occurs more than N / max_size times is monitored |
| SpaceSaving.ExactUntilFull | vr/vr_common/src/vr/stats/stream_summary.h:348-376 | A summary that is not full monitors exactly the values seen, with exact counts |
| SummaryLists.FewerBucketsThanItems | vr/vr_common/src/vr/stats/stream_summary.h:253-270 | Two items in one bucket leave fewer buckets in use than items |
| SummaryLists.MoveToNewBucket | vr/vr_common/src/vr/stats/stream_summary.h:253-274 | Moving an item to a new bucket keeps the lists: counts strictly increase, no bucket is empty, parents agree |
| SummaryLists.ReuseBucket | vr/vr_common/src/vr/stats/stream_summary.h:275-284 | So does raising the count of a bucket with one item in place |
| SummaryLists.MoveToNext | vr/vr_common/src/vr/stats/stream_summary.h:286-305 | So does joining the next bucket |
| SummaryLists.FrontIsMin | vr/vr_common/src/vr/stats/stream_summary.h:330-334 | The first bucket has the least count |
| FenwickWindow.Window.Add | vr/vr_common/src/vr/containers/util/fenwick_window.h:163-231 | Refuses a time before the right edge and then changes nothing; otherwise records the event and returns the plain sum over the history of the events less than a window old |
| FenwickWindow.Window.Count | vr/vr_common/src/vr/containers/util/fenwick_window.h:149-160 | The running count equals that sum as of the last event |
| FenwickWindow.Window.CountImpl | vr/vr_common/src/vr/containers/util/fenwick_window.h:120-146 | The descending walk over both trees computes the sum over the window |
| FenwickWindow.Window.Advance | vr/vr_common/src/vr/containers/util/fenwick_window.h:178-218 | An advancing edge clears both windows, rolls them or leaves them, and in each case they cover the bins of the new edge |
| FenwickWindow.Window.UpdateTree | vr/vr_common/src/vr/containers/util/fenwick_window.h:220-226 | The ascending walk adds to exactly the cells that cover the bin, and terminates |
| FenwickWindow.Window.Create | vr/vr_common/src/vr/containers/util/fenwick_window.h:56-61 | A negative start time is refused; the window starts empty at the bin of the start time |
| FenwickWindow.SumOfWindows | vr/vr_common/src/vr/containers/util/fenwick_window.h:120-146 | The prefix of the front window plus the rest of the back window is the sum over exactly the last `bin_count` bins |
| FenwickWindow.NextBase | vr/vr_common/src/vr/containers/util/fenwick_window.h:173-199 | The parity test on the bin index detects exactly whether the edge crossed into the next window |
| FenwickWindow.RangeOfBins | vr/vr_common/src/vr/containers/util/fenwick_window.h:120-146 | Summing bins is summing the events that fall into them |
| FenwickWindow.SumPush | vr/vr_common/src/vr/containers/util/fenwick_window.h:220-230 | A new event adds its increment to the sum over a range exactly if its bin lies in the range |
| Fenwick.UpdateStep | vr/vr_common/src/vr/containers/util/fenwick_window.h:222-226 | One step of the update walk repairs one cell and leads to the next cell that covers the bin |
| Fenwick.NextCovers | vr/vr_common/src/vr/containers/util/fenwick_window.h:222-226 | The next cell of the update walk covers the present one |
| Fenwick.BetweenMisses | vr/vr_common/src/vr/containers/util/fenwick_window.h:222-226 | The cells the walk steps over do not cover the bin |
| Fenwick.LastCellIsTotal | vr/vr_common/src/vr/containers/util/fenwick_window.h:135 | For a power-of-2 bin count the last cell is the total |
| ObjectPool.Allocator.Allocate | vr/vr_common/src/vr/util/object_pools.h:239-253 | Never hands out an outstanding reference, makes exactly the returned one outstanding, takes the head of the free list if there is one, and fails exactly when a new chunk is needed and would overflow the pointer type; chunks and words that were there stay, and a chunk that is added is new |
| ObjectPool.Allocator.AllocateFirstSlotOfNewChunk | vr/vr_common/src/vr/util/object_pools.h:298-325 | The new chunk's first slot is returned and its other slots become the free list |
| ObjectPool.Allocator.AllocateChunk | vr/vr_common/src/vr/util/object_pools.cpp:51-71 | The directory only grows at its end, so every reference keeps denoting the same slot |
| ObjectPool.Allocator.Release | vr/vr_common/src/vr/util/object_pools.h:255-267 | Out-of-range references are refused; otherwise the slot heads the free list and no other slot changes, and the list is sound afterwards exactly when the slot was not on it before |
| ObjectPool.Allocator.ReleaseThenAllocate | vr/vr_common/src/vr/util/object_pools.h:126-130 | A released slot is the next one allocated, and the free list is then as before |
| ObjectPool.Allocator.Dereference | vr/vr_common/src/vr/util/object_pools.h:208-216 | A reference denotes one slot of one chunk; refused exactly when it is out of bounds |
| ObjectPool.Allocator.Store | vr/vr_common/src/vr/util/object_pools.h:208-237 | A client may write anything to a slot it holds without harm to the free list |
| ObjectPool.Allocator.Check | vr/vr_common/src/vr/util/object_pool_checker.h:11-53 | The debug walk succeeds exactly when the list from the head is acyclic, in range and null-terminated, whatever the links are |
| ObjectPool.Allocator.AllocationBitmap | vr/vr_common/src/vr/util/object_pools.h:332-345 | Bit r is set exactly when r is outstanding |
| ObjectPool.Allocator.LeftOver | vr/vr_common/src/vr/util/object_pools.h:408-421 | The destructor visits every outstanding slot once, in order, and no other |
| ObjectPool.Create | vr/vr_common/src/vr/util/object_pools.h:167-193 | The pool has chunks for at least the initial capacity, all slots on the free list; refused for a capacity that is not positive or overflows the pointer type; chunk capacity and pointer limit are the ones passed |
| ObjectPool.ReleaseFromNewPool | vr/vr_common/src/vr/util/object_pools.h:255-267 | The failing case is reachable: every reference into a new pool can be released, and the debug walk then fails |
| FreeLists.ReleaseSoundIff | vr/vr_common/src/vr/util/object_pools.h:255-267 | A release keeps the free list sound exactly when the slot was not free already |
| FreeLists.DoubleReleaseBreaks | vr/vr_common/src/vr/util/object_pools.h:259-266 | After a double release no null-terminated list exists |
| FreeLists.ListsAgree | vr/vr_common/src/vr/util/object_pool_checker.h:23-50 | The free list is determined by the words of the slots |
| FreeLists.BadRefNoList | vr/vr_common/src/vr/util/object_pool_checker.h:37-47 | A bad or repeated reference on the walk rules out a sound list |
| FreeLists.WalkStep | vr/vr_common/src/vr/util/object_pool_checker.h:29-50 | The walk cannot take more steps than there are slots |
| ChunkedSlots.RefLocates | vr/vr_common/src/vr/util/object_pools.h:208-216 | Splitting a reference finds its slot, and the chunk exists exactly when the reference is in bounds |
| ChunkedSlots.FlatWrite | vr/vr_common/src/vr/util/object_pools.h:255-267 | Writing one slot changes the word of that reference only |
| ObjectLifecycle.Pool.DesignInvariantIff | vr/vr_common/src/vr/util/object_pools.h:371-376 | The design invariant, that the objects alive are those of the allocated slots, holds exactly when no slot is left over from a constructor that threw |
| ObjectLifecycle.Pool.Allocate | vr/vr_common/src/vr/util/object_pools.h:456-463 | One slot that was not allocated gets an object; a constructor that throws leaves that slot allocated and without one; refused exactly when the allocator refuses, and then nothing changes |
| ObjectLifecycle.Pool.Release | vr/vr_common/src/vr/util/object_pools.h:468-471 | Every object alive can be destructed and its slot released; the pool is in order afterwards exactly when the slot was allocated |
| ObjectLifecycle.Pool.Destroy | vr/vr_common/src/vr/util/object_pools.h:408-421 | Every object alive is destructed once; nothing else is, exactly when no slot is left over from a constructor that threw |
| ObjectLifecycle.ThrowThenDestroy | vr/vr_common/src/vr/util/object_pools.h:456-463 | The failing case is reachable from every new pool: after a constructor has thrown, the destructor destructs although nothing is alive |
| MappedFile.RemapCovers | vr/vr_common/src/vr/io/mapped_files.cpp:112-149 | In either direction, the new mapping starts at a page multiple that is not negative, has a page-multiple extent that did not shrink, and contains the requested range |
| MappedFile.RemapPlacement | vr/vr_common/src/vr/io/mapped_files.cpp:121-140 | Forward, the window starts in the first mapped page; backward, it ends in the last mapped page, unless the extent reaches past the start of the file, and then the mapping starts at 0 |
| MappedFile.SpanIsLeast | vr/vr_common/src/vr/io/mapped_files.cpp:112-115 | The extent asked for is the least number of whole pages, from the page of the position on, that covers the window |
| MappedFile.OFile.SeekImpl | vr/vr_common/src/vr/io/mapped_files.h:61-80 | Fails exactly for a negative position or an empty window, and then the mapping is untouched; otherwise the returned address denotes the position and the whole window is mapped, whether or not a remap was needed |
| MappedFile.OFile.Seek | vr/vr_common/src/vr/io/mapped_files.h:187-197 | Also raises the inferred size to the end of the window |
| MappedFile.OFile.Advance | vr/vr_common/src/vr/io/mapped_files.h:174-185 | Moves by a step relative to the present position |
| MappedFile.OFile.TruncateAndClose | vr/vr_common/src/vr/io/mapped_files.cpp:223-240 | Truncates to any size up to the inferred one, once; a second call reports false |
| MappedWindowBuffer.WindowBuffer.WAdvance | vr/vr_common/src/vr/io/mapped_window_buffer.h:135-147 | The write position, as a position in the file, moves by exactly the step; the read position does not move; capacity never shrinks; the mapping stays where it is while the capacity lasts |
| MappedWindowBuffer.WindowBuffer.WRemapAdvance | vr/vr_common/src/vr/io/mapped_window_buffer.cpp:57-79 | The remap starts at the read position, and the capacity becomes the larger of the old one and the unread bytes |
| MappedWindowBuffer.WindowBuffer.RAdvance | vr/vr_common/src/vr/io/mapped_window_buffer.h:116-128 | The read position moves by exactly the step, which cannot pass the write position; the committed bytes stay |
| MappedWindowBuffer.WindowBuffer.RPosition | vr/vr_common/src/vr/io/mapped_window_buffer.h:73-76 | The read address denotes the read position, and all unread bytes behind it are mapped |
| MappedWindowBuffer.WindowBuffer.WPosition | vr/vr_common/src/vr/io/mapped_window_buffer.h:107-110 | At least `w_window` mapped bytes follow the write position |
| MappedWindowBuffer.WindowBuffer.Append | vr/vr_common/src/vr/io/mapped_window_buffer.h:47-50 | Writing and committing appends to the stream, across remaps, and moves the write position by as much, so that further appends and reads can follow |
| MappedWindowBuffer.WindowBuffer.Read | vr/vr_common/src/vr/io/mapped_window_buffer.h:73-87 | What is read from the read position on are the committed bytes not yet consumed |
| MappedWindowBuffer.WindowBuffer.TruncateAndClose | vr/vr_common/src/vr/io/mapped_window_buffer.cpp:42-54 | The closing truncation leaves exactly the bytes consumed: the formula over offsets gives the read position |
| MappedWindowBuffer.WindowBuffer.Create | vr/vr_common/src/vr/io/mapped_window_buffer.cpp:13-25 | Refuses sizes that are not positive and a capacity below the window |
| DataframeLayout.AllocateData | vr/vr_common/src/vr/data/dataframe.cpp:51-108 | The header has two words for every 32 columns begun and holds, block by block, the offset and bitmap that the layout prescribes; the size is where the last block ends |
| DataframeLayout.LookupFindsColumn | vr/vr_common/src/vr/data/schema_ops.h:51-59 | The lookup by popcounts and masks over the header finds the place that counting the columns of the block gives, from where the allocator put the block |
| DataframeLayout.ColumnInside | vr/vr_common/src/vr/data/dataframe.cpp:51-108 | Every column lies behind the header and inside the allocation |
| DataframeLayout.ColumnsDisjoint | vr/vr_common/src/vr/data/dataframe.cpp:51-108 | Different columns share no word |
| DataframeLayout.WideColumnsAligned | vr/vr_common/src/vr/data/dataframe.cpp:87-95 | Every 8-byte column starts at an even 4-byte offset |
| DataframeLayout.PaddingOnlyForOneRow | vr/vr_common/src/vr/data/dataframe.cpp:87-95 | Padding happens only when the row capacity is 1 |
| DataframeLayout.BlocksAreTiled | vr/vr_common/src/vr/data/dataframe.cpp:51-108 | Blocks have no gaps: every word of a block belongs to a column of that block |
| DataframeLayout.WordsAccountedFor | vr/vr_common/src/vr/data/dataframe.cpp:57-98 | From the header, two words for every 32 columns begun, to the end of the allocation, every word belongs to a column, but for an odd word right in front of an 8-byte column |
| ColumnBits.EvaluateIs | vr/vr_common/src/vr/data/schema_ops.h:34-46 | The branchless formula counts the 8-byte columns before a column, and puts the 4-byte ones behind them |
| ColumnBits.BlockPlaces | vr/vr_common/src/vr/data/schema_ops.h:34-46 | A looked-up column fits into its block, and an 8-byte one starts even |
| ColumnBits.BlockDisjoint | vr/vr_common/src/vr/data/schema_ops.h:34-46 | Two columns of a block never overlap |
| ColumnBits.BlockTiled | vr/vr_common/src/vr/data/schema_ops.h:34-46 | The lookup has an inverse: every unit of a block is the place of exactly the column named |
| ColumnBits.BlockOrdered | vr/vr_common/src/vr/data/schema_ops.h:34-46 | Within a block 8-byte columns come before 4-byte ones and columns of one width by index, and in no other order |
| Dataframe.Frame.AtRaw | vr/vr_common/src/vr/data/dataframe.h:201-211 | Fails exactly out of bounds; otherwise gives the column's start |
| Dataframe.Frame.Put | vr/vr_common/src/vr/data/dataframe.h:173-198 | By the table of `castable` (`defs.h:135-161`), a Category or I4 column takes exactly 4-byte integers, F4 exactly 4-byte floats, Timestamp or I8 exactly 8-byte integers, F8 exactly 8-byte floats; anything else, or a bad column, fails with its own error and changes nothing; otherwise the cell holds the words of the value and no other cell changed |
| Dataframe.CellShows | vr/vr_common/src/vr/data/dataframe.h:173-191 | The words of a row are consecutive in the column: a 4-byte value at the row, the two words of an 8-byte value at twice the row |
| Dataframe.Frame.EmitArg | vr/vr_common/src/vr/data/dataframe.h:350-457 | An argument, flattened, fills consecutive columns of the row and nothing else; a type that does not fit stops it |
| Dataframe.Frame.AddRow | vr/vr_common/src/vr/data/dataframe.h:486-508 | Succeeds exactly when the flattened arguments are as many as the columns, there is room, and every type fits, with an error of its own for each; then the next row shows them all; earlier rows never change |
| Dataframe.FlattenKeepsScalars | vr/vr_common/src/vr/data/dataframe.h:397-483 | Flattening is the concatenation over the members of an array or tuple, at any depth: nothing is dropped, repeated or reordered |
| Dataframe.WidthIsLength | vr/vr_common/src/vr/data/dataframe.h:283-328 | The width computed over the types is the number of scalars an argument flattens to |
| Dataframe.WidthsAddUp | vr/vr_common/src/vr/data/dataframe.h:331-347 | So is the width of an argument list |
| Dataframe.Frame.ResizeRowCount | vr/vr_common/src/vr/data/dataframe.cpp:111-117 | Accepts exactly the counts within the capacity |
| Dataframe.Frame.Create | vr/vr_common/src/vr/data/dataframe.cpp:36-48 | Accepts exactly the power-of-2 row capacities; the frame and its data block are new and hold no rows |
| Dataframe.CellsDisjoint | vr/vr_common/src/vr/data/dataframe.h:173-191 | Different cells share no word |
| Dataframe.OtherCellsSame | vr/vr_common/src/vr/data/dataframe.h:173-191 | Changing the words of one cell keeps the header and every other cell |
| Crc32.Crc32 | vr/vr_common/src/vr/util/crc32.h:121-160 | For every buffer and seed, eight bytes per instruction and then a switch that falls through computes the byte-at-a-time checksum |
| Crc32.FeedRemaining | vr/vr_common/src/vr/util/crc32.h:130-159 | The tail: an odd byte first, then operands of four and two bytes |
| Crc32.CrcIsFold | vr/vr_common/src/vr/util/intrinsics.h:21-35 | The checksum of any buffer from any seed is its bits, shifted into the register one by one |
| Crc32.Crc32Reference | vr/vr_common/src/vr/util/crc32.cpp:12-23 | The reference loop computes the same checksum |
| Crc32.ConstexprIsCrc | vr/vr_common/src/vr/util/crc32.h:112-116 | So does the compile-time form, although it reads signed chars |
| Crc32.FeedIsSteps | vr/vr_common/src/vr/util/intrinsics.h:21-35 | An instruction over a multi-byte operand, defined bit by bit, is that many table steps, lowest byte first |
| Crc32.StepIsFold | vr/vr_common/src/vr/util/crc32.h:115 | A table step shifts the eight bits of its byte into the register |
| Crc32.TableIsCrcTable | vr/vr_common/src/vr/util/crc32.h:17-83 | Every entry of the table is its own index shifted into an empty register, for the generator of section 12.1 of RFC 3720 |
| CrcTable.TableIsShift8 | vr/vr_common/src/vr/util/crc32.h:17-83 | Each of the 256 constants is what eight shifts make of its index |
| LinearRegister.FoldIsIterate | vr/vr_common/src/vr/util/intrinsics.h:21-35 | Bits entered one by one leave the register as combining the whole operand at once does |
| IntLog10.Ilog10Floor32IsFloor | vr/vr_common/src/vr/util/ops_int.h:117-131 | Exact floor of the decimal logarithm of every 32-bit number; zero maps to what the policy says |
| IntLog10.Ilog10Floor64IsFloor | vr/vr_common/src/vr/util/ops_int.h:133-147 | The same for every 64-bit number |
| IntLog10.EstimateIsNear | vr/vr_common/src/vr/util/ops_int.h:138 | The scaled bit length is at most one low, and near enough to the table entry for the wrapped subtraction to show its sign |
| IntLog10.CorrectionIs | vr/vr_common/src/vr/util/ops_int.cpp:14-37 | Table entry i is 10^i - 1 |
| Bits.CeilPow2 | vr/vr_common/src/vr/util/ops_int.h:267-272 | `1 << log2_ceil(x)` is the least power of two no less than x |
| DecimalText.Ilog10Floor | vr/vr_common/src/vr/util/ops_int.h:281-290 | The dispatch by width keeps both results |
| DecimalText.LogSizesText | vr/vr_common/src/vr/util/format.h:34-36 | One plus the logarithm is the length of the decimal text |
| DecimalText.RjustPrint | vr/vr_common/src/vr/util/format.h:84-122 | The text ends at the given width, its length is returned, and no other character changes |
| DecimalText.Print | vr/vr_common/src/vr/util/format.h:26-59 | The text starts at the destination, has the returned length, and no other character changes |
| DecimalText.PrintSigned | vr/vr_common/src/vr/util/format.h:61-81 | A minus sign exactly for a negative number, then the text of the magnitude, for every number above the type's minimum; no further character changes |
| DecimalText.DigitsCanonical | vr/vr_common/src/vr/util/format.h:30-57 | The text consists of digits and has no leading zero |
| DecimalText.ValueConcat | vr/vr_common/src/vr/util/parse.h:25-37 | Reading on multiplies what was read by ten for each further character |
| DecimalText.CodeIsSignedByte | vr/vr_common/src/vr/util/parse.h:30-34 | A character counts as the one signed byte congruent to it |
| DecimalText.ModulusIs | vr/vr_common/src/vr/util/parse.h:30-34 | The unsigned types wrap at two to the power of 32 and of 64 |
| DecimalText.Parse | vr/vr_common/src/vr/util/parse.h:21-39 | For any text of plain, signed chars, the result is below two to the power of 32 or 64 and congruent to the text's value, and is the value itself whenever the type can hold it |
| DecimalText.ParseSigned | vr/vr_common/src/vr/util/parse.h:41-56 | The result, or its negation after a leading minus, is in the range of the signed type and congruent to the value of the digits |
| DecimalText.ToSignedIs | vr/vr_common/src/vr/util/parse.h:45-54 | The conversion to the signed type gives the number in that type's range that is congruent to the value |
| DecimalText.PrintThenParse | vr/vr_common/src/vr/util/parse.h:25-37 | Parsing what was printed returns the number, for every number below two to the power of 32 or 64 |
| DecimalText.ParseThenPrint | vr/vr_common/src/vr/util/format.h:30-57 | Printing what was parsed returns the text exactly when it is canonical and its number fits the type |
| DecimalText.SignedPrintThenParse | vr/vr_common/src/vr/util/parse.h:45-54 | The signed round trip, for every number above the type's minimum |

## Left out

- Template variants of one operation (`remove` and `remove_and_get`, unchecked bounds, `void` values) are modelled once, in the checked form.
- ScatterTable.Table.AllocateCapacity: the narrow link types are represented by `maxCapacity` only; links are unbounded integers.
- SpscBuffer.DequeuedIsPrefixOfCommitted: position counters do not overflow 64 bits, and at most one result object is alive at each end; moving a result object is not modelled, nor is `value()` called after `commit()`, which would compute an address from the marked pointer. The 32-bit cast of a position is modelled.
- StreamSummary.Summary.IncrementItemCount: intrusive lists are sequences of bucket and item numbers, so the pointer updates of list splicing are not modelled, only what they do to the order.
- FenwickWindow.Window.Add: bins and sums do not overflow, and the unchecked-monotonicity option is not modelled; the bit masks are written as remainders by powers of two.
- ObjectPool.Allocator.Allocate: of a slot only its first word is modelled, which is where a free slot keeps its link.
- ObjectLifecycle.Pool.Release: what constructors and destructors do is not modelled, in particular not a destructor that calls back into the pool.
- ObjectPool.Allocator.AllocateChunk: the chunk directory is a sequence that is extended, where the source copies it into a longer array.
- ObjectPool.Allocator.Check: the second set, of addresses, is not kept beside that of references, since references denote distinct slots.
- MappedFile.OFile.SeekImpl: system calls do not fail; where in memory a mapping is placed, access rights and advice calls are left out.
- MappedWindowBuffer.WindowBuffer.Write: only within the reserved file size; what the system does to a store past the end of the file is not modelled.
- MappedWindowBuffer.WindowBuffer.TruncateAndClose: a file shorter than the bytes consumed is extended by the truncation, about whose contents nothing is said.
- Dataframe.Frame.AddRow: the compile-time dispatch over C++ types is a recursion over a datatype of scalars and groups; values are opaque words.
- Crc32.Crc32: the length is that of the buffer; the alignment of the reads is not modelled.
- DecimalText.PrintSigned: the least number of the type is excluded, since its negation overflows.
- DecimalText.ParseSigned: a minus sign before a text whose value is congruent to the least number is excluded for the same reason.
- DecimalText.Print: the table of digit pairs is replaced by the two digits it holds.
- Locking, logging, exceptions with backtraces, argument maps and the read-only `mapped_ifile` are left out.
- `treap_priority_queue`, `timer_event_queue`, `step_runnable` and `attr_parser` rest on code that is not part of this model (a Boost treap, `container_barrier`, a generated scanner).
- `mapped_tape_buffer`, `mapped_ring_buffer`, `resizable_buffer`, `spinlock`, reference counting and price scaling would only add easy members.
