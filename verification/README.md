# A verified model of APCu

APCu keeps PHP values in shared memory. This project models its C core in Dafny and proves
what that core relies on. The modules follow the source files:

| modules | what they model |
|---|---|
| `SmaArena`, `SmaLaws`, `SmaSegment`, `SmaAllocator` | `apc_sma.c`: the boundary-tag allocator. `SmaArena` says what an allocation and a release do to the blocks and the free list of one segment, `SmaLaws` proves laws about that, `SmaSegment` performs both on the words of the segment in place, and `SmaAllocator` puts several segments behind one address space. |
| `Graph`, `Sizing`, `Persist`, `Unpersist`, `RoundTrip` | `apc_persist.c`: PHP values as graphs with sharing and cycles, the pass that computes the size of a copy, the pass that fills one block, and the way back. |
| `CacheTable`, `CacheLaws`, `CacheRuns`, `CacheTimes`, `CacheBoxes`, `CacheLayout`, `Expunging`, `Cache` | `apc_cache.c`: chains as values and what every operation does to them, whole runs beside a plain map, what times and references decide over them, which values outside the entries they refer to, when the allocator's call-back empties the cache and when it should, and the class that does the same on linked entries and on the allocator. |
| `SharedValues` | `apc_cache.c`, `apc_persist.c`: a value all the way from request memory through the allocator, the persisting passes and the chains back to request memory. |
| `ReferenceProtocol`, `IncrementProtocol`, `EntryProtocol`, `EntryMemory` | `apc_cache.c`, `apc_cache.h`, `apc_iterator.c`, `php_apc.c`: many threads on one cache, as state machines whose runs interleave single steps. The last two are about user code that runs in the middle of `apcu_entry`, `apcu_fetch` and iterators. |
| `Stack`, `Iterator` | `apc_stack.c`, `apc_iterator.c`: the growing stack and the iterator over the active entries, on the `Cache` class. |
| `Collections` | what several modules share: optional values, and a sequence without one of its members. |

Sizes and offsets inside a segment count machine words of 8 bytes; requests and the sizes of
persisted values count bytes. A segment is an `array<int>` and its block headers are four of its
words. Addresses are integers and 0 is the null address. An entry's own fields and its link to the
next entry are kept in two maps by address; `Cache.Valid` ties them to lists of addresses, those to
the chains of `CacheTable`, and the set of addresses in use to what the allocator has handed out.
The ghost field `log` holds the operations so far, so that every theorem about runs
(`CacheRuns`) is one about the class. The ghost field `book` holds the blocks handed out at some
earlier time, since when blocks were freed only; with it the bytes available at any point are a
function of the contents.

The gc list uses the wall clock (`now`) and expiry uses the request's clock (`t`); operations take
both.

Reading order: `SmaArena`, `SmaLaws`, then the methods of `SmaSegment.Segment`; `CacheTable`,
`CacheRuns`, then `Cache.Cache`; the protocols stand alone; `Graph`, `Sizing`, `Persist`,
`Unpersist`, `RoundTrip` in this order; then `SharedValues`; `Iterator` last.

Main results:

- **Allocator.** `Segment.Allocate` and `Segment.Deallocate` are exactly `SmaArena.Allocate` and
  `SmaArena.Release`; both keep tiling, coalescing, tags and the doubly linked list; no payload word
  of another live block changes; a request fails only if nothing fits; releasing undoes allocating;
  releasing everything in any order restores the initial segment.
- **Persist.** The two passes agree to the byte on every graph, every byte of the block belongs to one
  piece of one node at most and none is wasted but for alignment, and persist followed by unpersist yields an isomorphic graph whose reference counts are
  the numbers of slots that lead to each node.
- **Cache.** After every run a hit is what a map that forgets nothing would hold, and what is stored is
  hit for as long as its time is not over, until an operation is about its key, empties the cache or
  comes by it out of use; no operation frees an entry that is referenced, within the limit; at any time the
  allocator's live blocks are exactly the cache structure and the entries, each owned once. What
  the allocator's call-back does is computed from the state before it, and compared with what the
  header file promises: they agree under a condition that is necessary and sufficient.
- **Both together.** A lookup that hits finds, in what is in shared memory by then,
  the value that was stored last under the key: the graph restored is isomorphic to it, however many
  other values were written, freed and written over in between.
- **Protocols.** No use after free of what is counted, in any interleaving, if and only if there is
  no gc time limit (or, with one, as long as no holder overstays it); no lost increments; generators
  of `apcu_entry` are serialised. What an iterator uses is not counted: its entry is gone if and only
  if user code that it runs inside `apcu_entry` removed it. A thread waits for its own lock if and
  only if user code that an iterator runs outside `apcu_entry` asked for the write lock; there is no
  deadlock otherwise.
- **Iterator.** For every chunk size `foreach` equals the scan in one go, and deletion by iterator
  removes exactly what the scan shows.

## Model

| member | source | states |
|---|---|---|
| SmaArena.RealSize | peclapcu/apc_sma.c:161-163 | a request is rounded up to whole words plus a header, and wastes less than a word |
| SmaArena.InitialWellFormed | peclapcu/apc_sma.c:346-374 | the arena of a new segment is well formed |
| SmaArena.ImproveIsSmallest | peclapcu/apc_sma.c:137-149 | the look-ahead ends at a block no larger than any it passed, and still large enough |
| SmaArena.ChoiceFailsIffNothingFits | peclapcu/apc_sma.c:116-152 | the search finds nothing exactly when no free block has the size asked for |
| SmaArena.ChoiceIsBestOfWindow | peclapcu/apc_sma.c:116-152 | the block chosen is a smallest one among the first fit and the next three of the list |
| SmaArena.AllocateKeepsWellFormed | peclapcu/apc_sma.c:181-213 | allocation keeps blocks tiling the arena, no two free blocks adjacent, and the list holding exactly the free blocks once each |
| SmaLaws.ReleaseKeepsWellFormed | peclapcu/apc_sma.c:229-287 | release keeps all that too, and the released block alone stops being live |
| SmaLaws.WordsFillRegion | peclapcu/apc_sma.c:349-361 | free and allocated blocks together always fill the segment between the sentinels, so the two sums add up to a constant |
| SmaLaws.AllocateTakesItsBlock | peclapcu/apc_sma.c:181-224 | the free words shrink by exactly the block handed out, which is the block chosen if that is less than five words and the allowance larger than the request, and else exactly as large as the request |
| SmaLaws.ReleaseReturnsItsBlock | peclapcu/apc_sma.c:245-246 | the free words grow by exactly the released block, whatever it merges with |
| SmaLaws.BlockIsWithinFreeWords | peclapcu/apc_sma.c:171-179 | no free block is larger than all free words together |
| SmaLaws.ReleaseUndoesAllocate | peclapcu/apc_sma.c:155-287 | allocating and releasing the same block restores the blocks exactly; the list only has that block moved to its head |
| SmaLaws.NothingLiveIsInitial | peclapcu/apc_sma.c:349-373 | a well-formed arena without live blocks is the initial one: a single free block |
| SmaLaws.ReleaseAllResets | peclapcu/apc_sma.c:229-287 | from any well-formed arena, releasing all live blocks in any order gives the initial arena and the initial number of free words |
| SmaSegment.EarlyExitSound | peclapcu/apc_sma.c:171-179 | the comparison with `avail` turns a request away only if no free block would fit |
| SmaSegment.PayloadsDisjoint | peclapcu/apc_sma.c:223-224 | a word belongs to the payload of one live block at most |
| SmaSegment.PayloadWordIsNoHeaderWord | peclapcu/apc_sma.c:223-224 | payload words lie inside the segment and outside every block header and sentinel |
| SmaSegment.PayloadWriteKeepsHolds | peclapcu/apc_sma.c:181-284 | whatever a caller writes into its payload, the words of the segment still hold the same arena |
| SmaSegment.Segment.constructor | peclapcu/apc_sma.c:346-374 | the words written at start-up hold the initial arena, and `avail` is its free words plus one header |
| SmaSegment.Segment.FindBlock | peclapcu/apc_sma.c:116-152 | the walk along `fnext` ends at the list member that the specification chooses, or at none |
| SmaSegment.Segment.FindFirst | peclapcu/apc_sma.c:118-135 | the walk stops at the first list member that is large enough, or runs to the end |
| SmaSegment.Segment.BetterFit | peclapcu/apc_sma.c:137-149 | the bounded look-ahead from the first fit ends where the specification's does |
| SmaSegment.Segment.TakeWholeBlock | peclapcu/apc_sma.c:181-189 | unlinking the block and clearing its tags makes the words hold the arena in which it is live |
| SmaSegment.Segment.SplitBlock | peclapcu/apc_sma.c:190-213 | cutting the block and putting the rest into its place in the list makes the words hold the split arena |
| SmaSegment.Segment.Allocate | peclapcu/apc_sma.c:155-226 | the segment goes from one arena to exactly `SmaArena.Allocate` of it, or stays untouched to the word; at least n bytes are granted and less than n plus the allowance; no live payload changes |
| SmaSegment.Segment.MergeBefore | peclapcu/apc_sma.c:248-259 | a free physical predecessor absorbs the block |
| SmaSegment.Segment.MergeAfter | peclapcu/apc_sma.c:261-271 | a free physical successor is absorbed |
| SmaSegment.Segment.PutAtHead | peclapcu/apc_sma.c:273-284 | the merged block is tagged and linked behind the first sentinel |
| SmaSegment.Segment.Deallocate | peclapcu/apc_sma.c:229-287 | the segment goes from one arena to exactly `SmaArena.Release` of it, `avail` grows by the block, and no payload that stays live changes |
| SmaAllocator.Allocator.constructor | peclapcu/apc_sma.c:291-379 | all segments start in their initial arenas, and no address is handed out |
| SmaAllocator.Allocator.TrySegment | peclapcu/apc_sma.c:408-423 | one segment gives a fresh address of the flat address space, by exactly its own allocation, or is full and untouched |
| SmaAllocator.Allocator.MallocOnce | peclapcu/apc_sma.c:401-449 | one round fails exactly if all segments are full, and then nothing changes; otherwise the last segment serves, or the first of the others that is not full, which is then the last; one fresh address joins the live ones, no other segment and no live payload changes |
| SmaAllocator.Allocator.LiveLocated | peclapcu/apc_sma.c:476-488 | a live address lies in the range of a segment, and every segment whose range has it owns its block |
| SmaAllocator.FreedSizes | peclapcu/apc_sma.c:229-287 | giving a block back leaves every other live block of its segment where and as large as it was |
| SmaAllocator.AvailIsRest | peclapcu/apc_sma.c:619-628 | what a segment has available is what the blocks handed out do not take of it |
| SmaAllocator.EmptyServes | peclapcu/apc_sma.c:155-287 | a segment with nothing handed out is in its initial arena and serves a request exactly if that fits between the sentinels |
| SmaAllocator.Allocator.Free | peclapcu/apc_sma.c:466-493 | the segment that holds the address is exactly `SmaArena.Release` of what it was and all others are unchanged; the address alone stops being live, and the payloads that remain read as before; null and foreign addresses change nothing |
| SmaAllocator.ServedSizes | peclapcu/apc_sma.c:181-224 | handing out a block leaves every other live block of its segment where and as large as it was, and the new one has room for the request |
| SmaAllocator.Allocator.RoomsApart | peclapcu/apc_sma.c:401-449 | what two live blocks have room for does not overlap, in bytes of the one address space |
| SmaAllocator.Allocator.GetAvailMem | peclapcu/apc_sma.c:619-628 | the sum of what the segments have available |
| SmaAllocator.Allocator.GetAvailSize | peclapcu/apc_sma.c:630-640 | true exactly if one segment has more than that available |
| Graph.CopiedMeans | peclapcu/apc_persist.c:289-418 | what a copy is: strings have the same text, arrays the same places in the same order with the same holes, integer keys and key texts, and every value is the same or leads to the copy of what it led to |
| Graph.CopiedStays | peclapcu/apc_persist.c:232-244 | a node copied in full stays so while the memo table and the block grow |
| Graph.IsomorphicTwice | peclapcu/apc_persist.c:420-426 | a copy of a copy is isomorphic to the original |
| Sizing.WalkValReaches | peclapcu/apc_persist.c:105-224 | the sizing walk counts exactly the nodes that can be reached, cycles and sharing included, and fails only if an object, a resource or an indirect slot is among them |
| Sizing.WalkValCounts | peclapcu/apc_persist.c:120-224 | the bytes it counts are the sum of the node and key sizes over those nodes, each once |
| Persist.Persister.CalcVal | peclapcu/apc_persist.c:193-224 | the recursion that updates the size and the memo table computes the walk, and ends on cycles |
| Persist.Persister.CalcTable | peclapcu/apc_persist.c:120-167 | the same for the loop over the places of an array, holes, keys and indirect slots included |
| Persist.Persister.Measure | peclapcu/apc_persist.c:446-467 | the value is sized node by node, or as text after an object or an indirect slot was met or a serializer is set, or refused |
| Persist.Persister.Alloc | peclapcu/apc_persist.c:246-251 | called only where the bytes are still inside the block; advances by the aligned size |
| Persist.Persister.CopyVal | peclapcu/apc_persist.c:394-418 | copying uses exactly the bytes counted, keeps what is in the block, copies every newly met node in full and shared nodes once |
| Persist.Persister.CopyRef | peclapcu/apc_persist.c:289-304 | the same for a reference, noted in the memo table before its value is copied |
| Persist.Persister.CopyTable | peclapcu/apc_persist.c:308-377 | the same for an array, whose places are overwritten in place while its cycles already lead to the copy |
| Persist.Persister.CopyBucket | peclapcu/apc_persist.c:340-373 | one more place is translated, holes stay holes, and the rest of the copy still reads as the original's |
| Persist.Persister.WritePlace | peclapcu/apc_persist.c:344-370 | next free index, position and key flag become those of the places so far |
| Persist.NextFreeIsLeast | peclapcu/apc_persist.c:348-370 | the next free index computed while copying is the least that is not negative and above every integer key |
| Persist.FirstUsedIs | peclapcu/apc_persist.c:344-347 | the position of the copy is the place of its first value, or none |
| Persist.CopyIsIsomorphic | peclapcu/apc_persist.c:420-426 | what was copied into a fresh block is isomorphic to the original graph |
| Persist.SelfContained | peclapcu/apc_persist.c:246-258 | every node the persisted value leads to, its keys and an array's places lie inside the block, behind the entry, and different nodes, and nodes and keys, do not overlap |
| Persist.LaidArranged | peclapcu/apc_persist.c:120-258 | where every byte of a block goes: behind the 96 of the entry, heads of 24, 32 or 56 bytes, the characters of a string with their NUL, the hash part of an array, and place after place of 16 bytes if packed and else 32; each byte belongs to one of these pieces at most, all of them are inside, a byte of none follows one of a piece by less than eight, and nodes are aligned |
| Persist.SizeIsExact | peclapcu/apc_persist.c:105-230 | the size is the total of the least set of nodes that has the value and that nothing leads out of |
| Persist.FormIs | peclapcu/apc_persist.c:446-467 | a value is copied node by node exactly if nothing foreign can be reached and it is not an array with a serializer set; such an array, and an object, goes as the text serializing gave |
| Persist.GraphedUnlessForeign | peclapcu/apc_persist.c:216-221 | a value with nothing foreign in reach is always copied node by node |
| Persist.Persister.Run | peclapcu/apc_persist.c:428-482 | fails exactly if the value has no persistent form or the allocator refuses the size; otherwise the copy pass ends at the last byte of the block, with the key, with an isomorphic graph or the serialized text, and with every byte where `LaidArranged` says |
| Unpersist.Restorer.RestoreVal | peclapcu/apc_persist.c:615-637 | restores what was not restored before in full, and keeps every reference count equal to the slots that lead to the node, counting the one to be filled |
| Unpersist.Restorer.RestoreRef | peclapcu/apc_persist.c:545-559 | the same for a reference |
| Unpersist.Restorer.RestoreTable | peclapcu/apc_persist.c:561-613 | the same for an array in its three loops: packed, without keys, and with keys that are duplicated |
| Unpersist.Restorer.Run | peclapcu/apc_persist.c:639-660 | the result is isomorphic to the graph in shared memory and each of its nodes is counted as often as slots lead to it |
| RoundTrip.PersistedRestorable | peclapcu/apc_persist.c:308-377 | everything persisting leaves in the block meets what restoring needs, the key flag included |
| RoundTrip.Run | peclapcu/apc_persist.c:428-660 | for every graph without foreign nodes, persist and unpersist give an isomorphic graph with exact reference counts, and arrays with their next free index and position renewed |
| CacheTable.RemoveAtMeasures | peclapcu/apc_cache.c:151-174 | removing an entry gives up its address exactly if nobody references it, and keeps both counters exact |
| CacheTable.LinkAtMeasures | peclapcu/apc_cache.c:371-378 | linking an entry adds its address once and keeps both counters exact |
| CacheLaws.LookupIsUnexpired | peclapcu/apc_cache.c:415-440 | a lookup finds the entry stored under the key unless that is hard expired |
| CacheLaws.LookupIffAlive | peclapcu/apc_cache.c:127-147 | a lookup at a time hits exactly if a chain has an entry of the key whose time to live is 0 or whose creation time plus time to live is not before that time |
| CacheLaws.InsertEffect | peclapcu/apc_cache.c:325-382 | an exclusive insertion succeeds exactly if no chain has an entry of the key that is in time; an insertion that succeeds is stored; each key stays unique and in its slot; other keys are lost only from the same chain and only if out of use, and before the new entry none of those is left |
| CacheLaws.DeleteEffect | peclapcu/apc_cache.c:961-996 | deletion removes the key's entry, expired or not, reports whether there was one, and leaves all others |
| CacheLaws.SweepEffect | peclapcu/apc_cache.c:754-768 | the sweep for junk leaves exactly the entries that are in time and, if they have no time to live of their own, were accessed within that of the cache |
| CacheLaws.ExpungeEffect | peclapcu/apc_cache.c:672-697 | a full expunge leaves every chain empty and both counters 0 |
| CacheLaws.ExpungeFrees | peclapcu/apc_cache.c:672-697 | after it an address is still owned only by a removed entry that was there before or by one that somebody references; every other entry is freed |
| CacheLaws.SweepKeepsReferenced | peclapcu/apc_cache.c:166-173 | no sweep and no expunge frees an entry somebody references |
| CacheLaws.InsertKeepsReferenced | peclapcu/apc_cache.c:325-382 | an insertion frees an entry somebody references exactly if the collector gives it up, never out of a chain |
| CacheLaws.CollectedExactly | peclapcu/apc_cache.c:178-217 | the collector keeps exactly the removed entries that have references and, if there is a limit, were removed no longer ago |
| CacheLaws.CollectedCopies | peclapcu/apc_cache.c:178-217 | and so keeps an address exactly if it keeps every removed entry there |
| CacheRuns.EvictEffect | peclapcu/apc_cache.c:722-787 | for every outcome of its two comparisons the call-back leaves a key alone if memory is not short, removes it if expired and that makes room, and else empties the cache; `Cache.Cache.DefaultExpunge` says how they come out |
| CacheRuns.EvictFreesAll | peclapcu/apc_cache.c:672-697 | a call-back that empties the cache while nobody holds an entry frees every entry, the removed ones included |
| Expunging.PromiseKept | peclapcu/apc_cache.h:252-270 | the call-back empties the cache when the header file promises it, and then only, if and only if: without a time to live, what is suitable is available before the expired entries are gone, or still not after; with one, the sweep leaves less than the size in all or more than it in one segment where memory is short, and the size in all where it is not |
| Expunging.PromiseOfOneSegment | peclapcu/apc_cache.h:252-270 | with one segment and a time to live: if and only if the sweep does not leave exactly the size where memory is short, and at least the size is left where it is not |
| Expunging.ExactlyTheSize | peclapcu/apc_cache.c:771-777 | a segment of every shape in which nothing fits a request while exactly the size passed to the call-back is available: the cache is emptied against the promise |
| Expunging.OnlyTogether | peclapcu/apc_cache.c:771-777 | two segments, both without a fitting block, that have the size only together: emptied against the promise |
| Expunging.SuitableYetLess | peclapcu/apc_cache.c:750-752 | a segment of which half is available, less than the size, without a fitting block: not emptied against the promise |
| Expunging.ExpiredEnough | peclapcu/apc_cache.c:744-749 | without a time to live: every segment without a fitting block in which the block of an expired entry makes up for what is missing; emptied against the promise |
| Expunging.ExpiredServes | peclapcu/apc_cache.c:744-749 | there are such segments, and once that block is given back the request would be served |
| CacheBoxes.ApplyBoxes | peclapcu/apc_cache.c:151-382 | no operation makes an entry refer to a value that it did not refer to before, at the same address and with the same key and size, but for the one that is stored |
| CacheRuns.RunIsTruthful | peclapcu/apc_cache.c:151-382 | after any run every key is once, in the slot its hash modulo the number of slots says; the counters are exact, and everything stored is in the plain map too |
| CacheRuns.PlainFollows | peclapcu/apc_cache.c:325-1000 | what the map that forgets nothing is: a successful store sets the item of its key, an update its value, a deletion takes it away, a clear takes all, and nothing else changes it |
| CacheRuns.NeverLies | peclapcu/apc_cache.c:325-473 | after any run, whatever a lookup of a key hits is what a map that forgets nothing holds for it, and its time to live has not run out |
| CacheTimes.HitsIffInTime | peclapcu/apc_cache.c:415-440 | after every run a lookup hits exactly if an entry is stored under the key and its time is not over |
| CacheTimes.NeverLoses | peclapcu/apc_cache.c:325-440 | in every run, what is stored under a key stays there, value, times and address, until an operation is about that key, empties the cache, or comes by the entry when it is out of use; until then lookups hit it exactly as long as its time is not over |
| CacheTimes.HeldSurvives | peclapcu/apc_cache.c:151-217 | no operation frees an entry that is referenced, unless it runs the collector and the entry was removed for longer than the limit |
| CacheTimes.RemovedDated | peclapcu/apc_cache.c:168-173 | a removed entry that was not removed before was in a chain and referenced, and bears the time of this operation |
| CacheTimes.CollectorDecides | peclapcu/apc_cache.c:193-209 | after an insertion or a call-back a removed entry is still there exactly if it has references and, if there is a limit, was removed no longer ago |
| CacheRuns.CountersExact | peclapcu/apc_cache.c:151-164 | after any run the counters are the number and the total size of the entries in the chains |
| CacheLayout.AllApart | peclapcu/apc_cache.c:151-174 | if no address is owned twice, none is linked twice, in the chains and the gc list together |
| Cache.OwnedAfterRemove | peclapcu/apc_cache.c:166-173 | removing an entry keeps ownership exact: its block leaves the live ones, or moves with it to the gc list |
| Cache.Create | peclapcu/apc_cache.c:273-323 | allocates the structure and leaves an empty cache that owns this block only; fails exactly if no segment has room for it, and then nothing changes |
| Cache.Cache.constructor | peclapcu/apc_cache.c:295-322 | in a block of its own the cache starts empty |
| Cache.Cache.RemoveEntry | peclapcu/apc_cache.c:151-174 | unlinking through the stored link, adjusting the counters and freeing or setting aside is `CacheTable.RemoveAt`, with exact ownership |
| Cache.Cache.Gc | peclapcu/apc_cache.c:178-217 | of the removed entries exactly those stay on the list, and in the allocator, that have references and, if there is a limit, were removed no longer ago |
| Cache.Cache.Insert | peclapcu/apc_cache.c:325-382 | the walk along the chain is `CacheTable.Insert`; exclusively it succeeds exactly if no entry of the key is in time; of the entries removed before, those stay in memory that `Gc` would keep |
| Cache.Cache.FindNostat | peclapcu/apc_cache.c:415-440 | the walk ends at the entry the specification finds, which there is exactly if one of the key is in time, or at null |
| Cache.Cache.Find | peclapcu/apc_cache.c:443-484 | a hit exactly if an entry of the key is in time; its hits and references are one more, its access time is now, nothing else changes, and it is what a map that forgets nothing holds for the key |
| Cache.Cache.Release | peclapcu/apc_cache.c:650-653 | one reference less, wherever the entry is linked by now |
| Cache.Cache.Delete | peclapcu/apc_cache.c:961-996 | `CacheTable.Delete` in place; afterwards nothing is stored under the key; the entry is in memory still exactly if it is referenced, and then among the removed ones with the time of this call |
| Cache.Cache.RealExpunge | peclapcu/apc_cache.c:672-697 | empties all chains and brings both counters to 0 |
| Cache.Cache.LiveIsOwned | peclapcu/apc_sma.c:450-455 | an address is live in the allocator exactly if it is the cache structure, an entry in a chain or on the gc list, or one not yet inserted, and it is only one of these |
| Cache.Cache.BoxHoused | peclapcu/apc_sma.c:401-458 | every value that a chain or the gc list refers to is that of an entry in memory, whose block the allocator holds and which has room for its size |
| Cache.Cache.Clear | peclapcu/apc_cache.c:700-718 | afterwards only the cache structure, entries not yet inserted and entries with references are live in the allocator |
| Cache.Cache.Availability | peclapcu/apc_sma.c:619-640 | what every segment has available follows from the contents of the cache and an earlier record of the blocks handed out |
| Cache.Cache.ExpungeUnlessRoomy | peclapcu/apc_cache.c:771-777 | the cache is emptied exactly if no segment has more than the request available, as follows from the contents |
| Cache.Cache.ExpungeIfShort | peclapcu/apc_cache.c:745-779 | nothing happens exactly if what is suitable is available; otherwise the expired entries go, and all others exactly if there is no time to live or no segment has more than the request available after the sweep |
| Cache.Cache.DefaultExpunge | peclapcu/apc_cache.c:722-787 | both comparisons come out as the state before the call says: memory is short if after collecting less than `smart` times the size, or without `smart` less than half a segment, is available in all, and there is room if after the sweep one segment has more than the size; the contents become exactly what follows, what was removed before stays as `Gc` says, and afterwards that much is available in all, or more than the size in one segment, or the cache is empty |
| Cache.Cache.HeldIsLive | peclapcu/apc_cache.c:151-217 | whatever the last operation was, an entry that was referenced before it, and if removed then not for longer than the limit, is in memory after it |
| Cache.Cache.CallBackKeepsPromise | peclapcu/apc_cache.h:252-270 | in every state of the cache the call-back does what the header file promises exactly under the condition of `Expunging.PromiseKept`; with a time to live and `smart` set it never leaves entries alone that should go |
| Cache.Cache.Persist | peclapcu/apc_sma.c:401-458 | the cache is expunged, once, exactly if no segment has a fitting block, and by exactly what `DefaultExpunge` does then; null only if after that there is still none, which cannot be if all entries were freed and an empty segment is large enough; otherwise a new block with the entry |
| Cache.Cache.Commit | peclapcu/apc_cache.c:512-526 | a persisted entry is inserted, or its memory given back, and the answer says which; exclusively it is inserted exactly if no entry of the key is in time |
| Cache.Cache.Store | peclapcu/apc_cache.c:487-527 | succeeds exactly if memory was found and, when exclusive, no entry of the key is in time after that; the entry then has the value and the time to live given, all three times now, and neither hits nor references; whatever the outcome nothing is left over |
| Cache.Cache.TryUpdate | peclapcu/apc_cache.c:871-886 | an atomic updater changes a live integer, any other a live value that is not boxed, to what its function gives, and answers what that answers; anything else stays as it is, and the answer is no |
| Cache.Cache.Update | peclapcu/apc_cache.c:861-957 | exactly these operations happen and no others: one run on the live value, as in `TryUpdate`; on a missing key, if asked to insert, the call-back if memory is exhausted, the store of a zero if memory was found, and one run on that zero, so that the key ends at what the function makes of 0, unless its time to live is over already; without a run the answer is no |
| SharedValues.ValueCache.Write | peclapcu/apc_persist.c:428-482 | writing a value into the block of its entry leaves every other value in memory as it was persisted |
| SharedValues.ValueCache.Store | peclapcu/apc_cache.c:487-527 | the value is measured, memory of exactly that size is asked for, the block then holds a graph isomorphic to it or the text it was serialized to, and the entry is inserted or given back; a map that forgets nothing would hold this value under the key from then on |
| SharedValues.ValueCache.Restore | peclapcu/apc_persist.c:639-660 | what is restored from memory as it is now is isomorphic to the value that was handed in, with exact reference counts |
| SharedValues.ValueCache.Fetch | peclapcu/apc_cache.c:811-838 | a miss exactly if no entry of the key is in time; a hit gives the value a map that forgets nothing would hold under the key: a graph isomorphic to what was handed in, or its text, and the reference is given back |
| SharedValues.ValueCache.Delete | peclapcu/apc_cache.c:961-996 | all other values stay in memory as they were persisted |
| SharedValues.ValueCache.Clear | peclapcu/apc_cache.c:700-718 | values of entries that are still referenced stay in memory as they were persisted |
| ReferenceProtocol.RemovalFrees | peclapcu/apc_cache.c:166-173 | a removed entry is freed exactly if its count is not positive, and else set aside with the time |
| ReferenceProtocol.CollectorFrees | peclapcu/apc_cache.c:193-209 | the collector frees an entry exactly if its count is 0 or, where there is a limit, it was removed for longer |
| ReferenceProtocol.StepKeeps | peclapcu/apc_cache.c:151-217 | every step of every thread keeps counts equal to the references held, the lock exclusive, and what other threads rely on |
| ReferenceProtocol.NoUseAfterFree | peclapcu/apc_cache.c:811-838 | in every interleaving, with no gc time limit or as long as no holder overstays it, no entry is freed that is counted as in use, or used under the lock by code that does not call back; all counts are exact |
| ReferenceProtocol.OverstayIsUnsafe | peclapcu/apc_cache.c:193-196 | for every time limit other than 0 there is a run of two threads that frees an entry that is counted as in use |
| ReferenceProtocol.SafeWithoutTimeLimitOnly | peclapcu/apc_cache.c:178-217 | counted references are safe in all interleavings if and only if the gc time limit is 0; what an iterator uses uncounted is the subject of `EntryMemory.GoneIffRemoved` |
| IncrementProtocol.Wrap | peclapcu/php_apc.c:529-533 | the 64-bit integer that is congruent to the sum modulo 2 to the 64 |
| IncrementProtocol.WrapWraps | peclapcu/php_apc.c:529-533 | adding step by step in 64 bits wraps to the same value as wrapping the sum |
| IncrementProtocol.MoveExplains | peclapcu/apc_cache.c:911-957 | every step keeps one history that explains the value and every answer so far |
| IncrementProtocol.NoLostIncrements | peclapcu/apc_cache.c:911-957 | in every interleaving the zero is inserted at most once and only if the key was missing, and at the end the value is the sum of all steps and nobody was refused |
| IncrementProtocol.OneHistory | peclapcu/php_apc.c:593-598 | one history from the first value to the last, compare-and-swaps among the increments: an increment adds its step and answers the new value; a compare-and-swap writes, and answers yes, exactly if it found what it expects |
| IncrementProtocol.NoDeadlock | peclapcu/apc_cache.c:919-956 | until all are done some thread can go on, and every effective step brings its thread nearer the end |
| EntryProtocol.StepKeeps | peclapcu/apc_cache.h:291-315 | every step keeps lock ownership equal to the entry level, read locks equal to the iterators a thread is inside of, and generators of live keys to the thread that stored them |
| EntryProtocol.LevelIsTheLock | peclapcu/apc_cache.h:280-315 | while user code runs its thread has the write lock exactly if its entry level is positive, that is if `apcu_entry` is among its callers, and else one read lock for each iterator among them |
| EntryProtocol.LocksGranted | peclapcu/apc_cache.h:291-315 | locks are granted whenever they can be: a thread at one waits exactly if it is outside `apcu_entry` and a writer has the lock, or it wants to write and somebody reads |
| EntryProtocol.WhatRuns | peclapcu/apc_cache.c:1241-1264 | `apcu_entry` restores the entry of its key if that is not hard expired, and else calls the generator; `apcu_fetch` and iterators restore what they find |
| EntryProtocol.GeneratorStores | peclapcu/apc_cache.c:1252-1260 | what a generator returns is live afterwards, stored by its thread; without a value nothing is stored |
| EntryProtocol.SelfWaitsIffRude | peclapcu/apc_iterator.c:226-243 | in every run, a thread waits for the write lock while it has a read lock exactly if user code that an iterator runs outside `apcu_entry` called something that needs the write lock |
| EntryProtocol.SelfWaitsForever | peclapcu/apc_iterator.c:226-243 | such a thread waits for ever, however the run goes on, and nobody gets the write lock any more |
| EntryProtocol.WakeUpStores | peclapcu/apc_iterator.c:70-74 | a short run that leads there: an iterator restores a value whose wake-up stores something |
| EntryProtocol.NeverReacquired | peclapcu/apc_cache.h:291-315 | no thread asks for a lock while it has the write lock, nested calls and the expunge inside a store included; it has a read lock exactly if an iterator called it, and without calls as above it then asks for a read lock only |
| EntryProtocol.Serialised | peclapcu/apc_cache.c:1230-1269 | `apcu_entry` and its user code run in one thread at a time, and nobody reads meanwhile |
| EntryProtocol.GeneratedOnce | peclapcu/apc_cache.c:1230-1269 | while an entry is live no thread but the one that stored it runs the generator for its key |
| EntryProtocol.NoDeadlock | peclapcu/apc_cache.c:388-412 | whoever waits waits for a thread that has the lock, and that one does not wait or waits for itself; without calls as above it is another thread that does not wait |
| EntryMemory.EffectFrees | peclapcu/apc_cache.c:151-217 | an operation takes from memory exactly the entries it removes, or, if it runs the collector, that were removed before, and that nobody is counted as using |
| EntryMemory.ActsFree | peclapcu/apc_cache.c:151-217 | the same case by case, for a deletion, a clear, an expunge and an insertion with the expired entries it comes by |
| EntryMemory.StepSafe | peclapcu/apc_cache.h:291-315 | every step keeps in memory what is counted, and what an iterator has come to outside `apcu_entry` |
| EntryMemory.GoneIffRemoved | peclapcu/apc_iterator.c:226-243 | in every run, the entry an iterator has come to is gone exactly if user code that this iterator ran inside `apcu_entry` deleted, replaced, expunged or cleared it, or inserted something and came by it expired, while nobody was counted as using it |
| EntryMemory.CountedStays | peclapcu/apc_cache.c:811-838 | an entry that `apcu_fetch` or `apcu_entry` restores is in memory in every run, whatever its user code does |
| EntryMemory.OutsideStays | peclapcu/apc_iterator.c:226-243 | so is an entry that an iterator has come to outside `apcu_entry` |
| EntryMemory.WakeUpDeletes | peclapcu/apc_iterator.c:228-238 | a run of one thread, in which nobody waits for anything, that leads an iterator back to an entry that is gone |
| Stack.Stack.Push | peclapcu/apc_stack.c:62-70 | appends, also when the array has to double |
| Stack.Stack.Pop | peclapcu/apc_stack.c:72-76 | takes the last item off |
| Iterator.ScanShowsOnce | peclapcu/apc_iterator.c:288-316 | the scan in one go shows each key once whose key matches and whose entry is in time, and nothing else |
| Iterator.SumsOf | peclapcu/apc_iterator.c:289-316 | sizes and hits add up entry by entry |
| Iterator.Iterator.FetchActive | peclapcu/apc_iterator.c:213-249 | a chunk followed by the rest of the scan is what was left to scan; it goes on to the end or until it exceeds the chunk size, which it does by its last slot only; an empty chunk means the end |
| Iterator.Iterator.HasCurrent | peclapcu/apc_iterator.c:406-420 | fetches when the chunk is used up, loses nothing, and answers whether anything is left |
| Iterator.Iterator.Current | peclapcu/apc_iterator.c:422-441 | the first entry that is left |
| Iterator.Iterator.Foreach | peclapcu/apc_iterator.c:391-482 | for every chunk size the loop shows exactly the scan in one go: each entry that matches and is in time once, and nothing else |
| Iterator.Iterator.Totals | peclapcu/apc_iterator.c:289-316 | count, size and hits of exactly that scan |
| Iterator.Iterator.DeleteAll | peclapcu/apc_iterator.c:573-598 | on a fresh iterator the loop ends, every live matching entry is gone and every other one untouched |

## Left out

- Locks and memory of the operating system: the header lock is a read/write lock that is granted when free, the segment lock is always granted; mmap, signals, canaries, valgrind hooks and bailouts are not modelled.
- Integer widths: sizes, times and counters are unbounded; only the values changed by increments wrap at 64 bits. In C the size of a request plus its header, and `smart * size`, could wrap; the 32-bit time to live is not truncated.
- `avail` and the list of segments are fields instead of words of the segment header; block headers, tags and links are words of the segment.
- Entries, their links and the nodes of persisted values are kept by address instead of as words of a segment; that a live payload is never overwritten by the allocator is `SmaSegment.Segment.Allocate` and `SmaAllocator.Allocator.Free`, that values do not overwrite each other is `SharedValues.ValueCache.Write`. The node addresses of `SharedValues` are in bytes, eight times those of the allocator.
- Cache.Cache.Store: the number of bytes is a parameter, for values of any kind; that it is the size of the persisted value is `SharedValues.ValueCache.Store`. Values that fit into the entry itself are `Cache.Cache.Store` only.
- Hit, miss, insert and expunge statistics, the start time and the slam defense: counters nothing else depends on, and a heuristic on the last key.
- One reading of the wall clock per operation: the C code may read it again between two removals. Clocks do not run backwards.
- Memo tables are always kept when persisting; the C code skips them unless the value is an array, where there is nothing to share.
- Serializers are opaque: a value that is not copied node by node is handed on as the text the serializer gave, and what unserializing makes of it is not modelled.
- The hash part of an array is a size; hash order is not modelled, as the order of places is what PHP programs see. Unpersisted nodes get new numbers as addresses.
- In an array's copy the raw places are overwritten one whole place at a time, not field by field.
- `apcu_entry` appears as a protocol only, without the value the generator returns. `EntryMemory` has no gc time limit; what one does to counted references is in `ReferenceProtocol`. Entries have numbers there that are never used again, so memory that is handed out anew is not taken for the entry it was; what an iterator reads after its entry is gone is not modelled. The read/write lock is granted whenever it is free for the asker: queues, and a writer that keeps new readers out, are not modelled.
- ReferenceProtocol.NoUseAfterFree: a process that dies while it holds a reference is not modelled; that is what the gc time limit is for, and `SafeWithoutTimeLimitOnly` says what it costs.
- `apc_iterator_fetch_deleted`: it skips the head of the list, advances by matches instead of entries and never clears the stack, so no exactly-once property holds of it. Iterator calls outside the `foreach` order are left out too.
- `apc_cache_info`, `apc_cache_stat`, preloading, argument parsing and the user interface: input and output.
- Documentation and code disagree on the call-back. The header file promises, once stale entries are gone, a full expunge if less than what is suitable is available, or, with a global time to live, less than the size requested. Without one the code never removes expired entries first, so it may empty the cache although they would make enough room. With one it does nothing at all unless less than `Suitable` is available, which is `smart` times the size or half a segment, and then empties the cache unless one single segment has strictly more than the size. The model follows the code; `Cache.Cache.CallBackKeepsPromise` says exactly when both agree, and `ExactlyTheSize`, `OnlyTogether`, `SuitableYetLess` and `ExpiredEnough` in `Expunging` are how they do not. A retry after the call-back may still fail, and `Cache.Cache.Persist` says when.
