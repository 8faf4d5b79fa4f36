# Verified models of the toyos kernel libraries

The toyos test kernel carries its own memory allocators, associative and concurrent containers, and
a few encoders with matching decoders. This project models their algorithms in Dafny and proves what
they are relied on for. `dafny verify dfyconfig.toml` checks all of it.

The modules follow the components:

- **Buddy allocators** (`FreeBlocks`, `Buddy`, `SimpleBuddy`, `SplittingBuddy`, over `OrderRange`, `OrderMath`, `Dyadic`,
  `Bits`). The per-order sets of free blocks are a function of the free addresses alone. Completeness of
  `alloc`, undoing by `free`, the success of the retry after a claim and the exactness of the splitting
  allocator rest on that.
- **First-fit heap** (`HeapHeader`, `HeapMemory`, `HeapLayout`, `HeapSteps`, `HeapTheory`, `FirstFitHeap`, `HeapRuns`). Headers,
  links and footers are words of one memory, written one at a time; a store that overlaps another word
  destroys it. The ghost picture of blocks and free list is proved to be what the memory holds, after every call.
- **Interval vector** (`IntervalVector`). Every branch of `insert` and `remove` is proved to be a pointwise
  change of a total function, kept in its one canonical form.
- **Lock-free queue and array** (`LockFreeQueue`, `LockFreeQueueCalls`, `LockFreeArray`,
  `LockFreeArrayRuns`). Each atomic access is one step of a
  transition system; the theorems hold for all interleavings.
- **Encoders and decoders** (`UtfBits`, `Utf`, `UtfText`, `UtfGrammar`, `UtfStatus`, `NumberText`, `NumberForm`,
  `Multiboot2`), each pair with
  its round trip.

`Wrappers` and `Seqs` hold an option type and edits of sequences that several modules use.

Some promises turned out to have exceptions. Each has a lemma with a concrete input and one with the exact condition:

- The simple buddy computes the end of claimed memory modulo 2^64, so a claim that ends at the top of the
  address space is not added and the retry fails (`TopClaimLost`, `RetryIff`).
- The splitting buddy does the same with the end of a block, so the topmost block makes it hand back
  the wrong interval, which may even be free already (`TopBlockMisfreed`, `BothEndsFreedTwice`, `ExactIff`,
  `OverheadNotFreeIff`), and freeing what was returned does not undo the allocation (`TopPageNotRestored`,
  `RestoresIff`).
- The heap rounds a request within 15 of 2^64 to 16 bytes (`WrappedRequest`, `ServedSizeIff`).
- With `remove`, an insert into the lock-free array can fail although the array is never full, and a
  remove although its value is always stored (`FailsWithRoom`, `FailsFullIff`, `RemoveMisses`, `FailsAbsentIff`).
- The UTF-8 decoder compares the first byte of a character, not only the character, with the limit
  (`RefusesOwnOutput`, `ComesBackIff`).
- The printer keeps 32 digits, so binary numbers lose their upper half, and zero padding is put before
  a minus sign (`NumbersLost`, `UnsignedRoundTrip`, `SignedRoundTripIff`).
- The total size of a Multiboot2 image is a 32-bit word (`TotalWraps`, `TotalIff`).

Sizes and addresses are unbounded numbers; where the code computes in 64, 32 or 8 bits and it matters,
the wrap-around is written out. The heap alignment is 16. Memory claimed from elsewhere, the contents of fresh memory and
the arguments of variadic calls are parameters. Assertions of the code are preconditions or proved facts.

## Model

| member | source | states |
|---|---|---|
| FreeBlocks.Canonical | src/lib/toyos/include/toyos/memory/buddy.hpp:59-160 | canonicity: two well-formed states with the same free addresses have identical per-order sets |
| FreeBlocks.BlockIffMaximal | src/lib/toyos/include/toyos/memory/buddy.hpp:59-116 | a range is a free block exactly when it is a largest aligned range all of whose addresses are free |
| FreeBlocks.RangeInBlock | src/lib/toyos/include/toyos/memory/buddy.hpp:38-51 | every fully free aligned range lies inside one free block of at least its order |
| FreeBlocks.SplitsSameFree | src/lib/toyos/include/toyos/memory/buddy.hpp:59-80 | splitting or merging a block leaves the set of free addresses as it was |
| FreeBlocks.SplitStructured | src/lib/toyos/include/toyos/memory/buddy.hpp:59-80 | after a split the blocks are still aligned and disjoint |
| FreeBlocks.MergeStructured | src/lib/toyos/include/toyos/memory/buddy.hpp:84-116 | after a merge the blocks are still aligned and disjoint |
| FreeBlocks.MergeBuddies | src/lib/toyos/include/toyos/memory/buddy.hpp:84-116 | after a merge only the merged block can still have a free buddy |
| FreeBlocks.AddBlock | src/lib/toyos/include/toyos/memory/buddy.hpp:134-150 | adding an aligned range that is not free keeps blocks aligned and disjoint and adds exactly its addresses |
| FreeBlocks.RemoveBlock | src/lib/toyos/include/toyos/memory/buddy.hpp:123-130 | taking a block out removes exactly its addresses and leaves no free buddies |
| Buddy.BuddyAddrMeaning | src/lib/toyos/include/toyos/memory/buddy.hpp:155-160 | the exclusive or moves an aligned address to the other half of the enclosing aligned range |
| Buddy.HeapBlockManager.constructor | src/lib/toyos/include/toyos/memory/buddy.hpp:23-30 | a new manager holds no block of any order |
| Buddy.HeapBlockManager.GetFree | src/lib/toyos/include/toyos/memory/buddy.hpp:38-51 | returns the lowest block of the smallest sufficient order, and nothing exactly when no such block exists |
| Buddy.HeapBlockManager.SplitFree | src/lib/toyos/include/toyos/memory/buddy.hpp:59-76 | replaces a block by its two halves and returns the lower one |
| Buddy.HeapBlockManager.MergeFree | src/lib/toyos/include/toyos/memory/buddy.hpp:84-116 | replaces a block and its free buddy by the enclosing block, and changes nothing when the buddy is not free or the order is the largest |
| Buddy.HeapBlockManager.MarkUsed | src/lib/toyos/include/toyos/memory/buddy.hpp:123-128 | removes exactly the given block |
| Buddy.HeapBlockManager.AddFree | src/lib/toyos/include/toyos/memory/buddy.hpp:134-141 | adds exactly the given block |
| Buddy.AllocComplete | src/lib/toyos/include/toyos/memory/buddy.hpp:38-51 | some aligned range of the order is entirely free if and only if there is a free block of at least that order |
| Buddy.TakesBestBlock | src/lib/toyos/include/toyos/memory/buddy.hpp:38-51 | the allocated range begins the block that precedes all other sufficient ones, by order and then by address |
| Buddy.AllocDetermined | src/lib/toyos/include/toyos/memory/buddy.hpp:213-240 | the result of `alloc` and the state after it are determined by the state before it |
| Buddy.FreeUndoesAlloc | src/lib/toyos/include/toyos/memory/buddy.hpp:213-262 | freeing a fresh allocation restores every per-order set |
| Buddy.RunConserves | src/lib/toyos/include/toyos/memory/buddy.hpp:213-262 | in every state reached from an empty allocator the blocks are canonical and hold exactly the addresses freed and not allocated since |
| Buddy.HistoriesAgree | src/lib/toyos/include/toyos/memory/buddy.hpp:213-262 | any two histories that leave the same addresses free end in identical per-order sets |
| Buddy.BuddyAllocator.constructor | src/lib/toyos/include/toyos/memory/buddy.hpp:201-205 | a new allocator is canonical and owns no address |
| Buddy.BuddyAllocator.Alloc | src/lib/toyos/include/toyos/memory/buddy.hpp:213-240 | succeeds if and only if an aligned range of the order is entirely free, returns an aligned range and removes exactly it |
| Buddy.BuddyAllocator.Free | src/lib/toyos/include/toyos/memory/buddy.hpp:250-262 | adds exactly the given range and merges until no free buddies are left |
| Buddy.BuddyAllocator.ReclaimRange | src/lib/toyos/include/toyos/memory/buddy.hpp:276-286 | adds exactly the addresses of the interval, for intervals of any alignment |
| SimpleBuddy.ClaimOrderIsLeast | src/lib/toyos/include/toyos/memory/simple_buddy.hpp:57-59 | the claim is the least order above the requested one that holds at least two pages |
| SimpleBuddy.ClaimSuffices | src/lib/toyos/include/toyos/memory/simple_buddy.hpp:52-70 | a claim of the computed order holds an aligned range of the requested order wherever it lies |
| SimpleBuddy.RetryIff | src/lib/toyos/include/toyos/memory/simple_buddy.hpp:52-75 | for an order below 63 and no free range, the claim supplies one if and only if it does not end at 2^64, where its interval wraps and becomes empty |
| SimpleBuddy.TopClaimLost | src/lib/toyos/include/toyos/memory/simple_buddy.hpp:55-75 | a concrete failing input: the two topmost pages are claimed, nothing is added, and a request for one page still finds nothing |
| SimpleBuddy.AllocKeepsLive | src/lib/toyos/include/toyos/memory/simple_buddy.hpp:72-82 | a new allocation is none of the remembered ones, so the trap for duplicate addresses is unreachable, and all stay disjoint from each other and from free memory |
| SimpleBuddy.ClaimKeepsLive | src/lib/toyos/include/toyos/memory/simple_buddy.hpp:55-70 | adding claimed memory keeps remembered allocations apart from free memory |
| SimpleBuddy.FreeKeepsLive | src/lib/toyos/include/toyos/memory/simple_buddy.hpp:88-96 | freeing a remembered allocation keeps the others disjoint |
| SimpleBuddy.LiveApart | src/lib/toyos/include/toyos/memory/simple_buddy.hpp:77-82 | an address belongs to at most one remembered allocation |
| SimpleBuddy.AvailableIff | src/lib/toyos/include/toyos/memory/simple_buddy.hpp:52-75 | after a claim the retry succeeds exactly if free memory and claim together hold an aligned range |
| SimpleBuddy.SimpleBuddyAllocator.constructor | src/lib/toyos/include/toyos/memory/simple_buddy.hpp:36-45 | a new allocator remembers nothing and owns nothing |
| SimpleBuddy.SimpleBuddyAllocator.Alloc | src/lib/toyos/include/toyos/memory/simple_buddy.hpp:52-84 | memory is claimed exactly when no range is free; a claim granted for an order below 63 and at most the largest leads to success if and only if it ends below 2^64; map and free memory change by exactly the returned range and the claim |
| SimpleBuddy.SimpleBuddyAllocator.Free | src/lib/toyos/include/toyos/memory/simple_buddy.hpp:88-96 | returns exactly the remembered range to the free memory and forgets it; an unknown address changes nothing |
| SimpleBuddy.SimpleBuddyAllocator.AddMemory | src/lib/toyos/include/toyos/memory/simple_buddy.hpp:100-103 | adds exactly the given range |
| SplittingBuddy.OverheadBelowTop | src/lib/toyos/include/toyos/memory/splitting_buddy.hpp:46-52 | below the top of the address space the interval handed back is the unused rest of the block |
| SplittingBuddy.OverheadExactIff | src/lib/toyos/include/toyos/memory/splitting_buddy.hpp:46-52 | the interval handed back is the unused rest if and only if the block does not end at the top of the address space |
| SplittingBuddy.TopBlockMisfreed | src/lib/toyos/include/toyos/memory/splitting_buddy.hpp:35-55 | a concrete failing call: with the topmost page as the only free memory, allocating it makes all memory below it free, address 0 included |
| SplittingBuddy.TakesTopIff | src/lib/toyos/include/toyos/memory/splitting_buddy.hpp:35-45 | the condition on the state before the call says whether the block will end at the top |
| SplittingBuddy.ReturnsOverhead | src/lib/toyos/include/toyos/memory/splitting_buddy.hpp:35-55 | a block minus its overhead leaves exactly the requested interval taken |
| SplittingBuddy.OverheadNotFreeIff | src/lib/toyos/include/toyos/memory/splitting_buddy.hpp:46-52 | nothing of the interval handed back is free already if and only if the request does not fill the topmost block while lower memory is free |
| SplittingBuddy.BothEndsFreedTwice | src/lib/toyos/include/toyos/memory/splitting_buddy.hpp:35-55 | a concrete state in which a request for one page frees memory that is free already |
| SplittingBuddy.ExactIff | src/lib/toyos/include/toyos/memory/splitting_buddy.hpp:35-55 | in every state, exactly [start, start + size) leaves the free memory if and only if the block taken does not end at the top of the address space |
| SplittingBuddy.RestoresIff | src/lib/toyos/include/toyos/memory/splitting_buddy.hpp:35-65 | freeing the interval `alloc` returned restores every per-order set if and only if the block taken does not end at the top of the address space |
| SplittingBuddy.TopPageNotRestored | src/lib/toyos/include/toyos/memory/splitting_buddy.hpp:35-65 | a concrete failing call: after the topmost page is allocated and freed again it is still missing, and address 0 is free |
| SplittingBuddy.FreeUndoesSplit | src/lib/toyos/include/toyos/memory/splitting_buddy.hpp:60-65 | freeing an interval that was taken exactly restores every per-order set |
| SplittingBuddy.SplittingBuddyAllocator.constructor | src/lib/toyos/include/toyos/memory/splitting_buddy.hpp:24-27 | a new allocator owns no address |
| SplittingBuddy.SplittingBuddyAllocator.Alloc | src/lib/toyos/include/toyos/memory/splitting_buddy.hpp:35-55 | for every state and size: no memory exactly if no aligned range of the enveloping order is free; memory is freed twice exactly if `NoDoubleFree` fails; otherwise the block less the interval handed back is taken, which is exactly [start, start + size) if and only if the block is not the topmost one |
| SplittingBuddy.SplittingBuddyAllocator.Free | src/lib/toyos/include/toyos/memory/splitting_buddy.hpp:60-65 | adds exactly the addresses of the interval |
| OrderRange.ChunkOrderIsLargest | src/lib/toyos/include/toyos/util/order_range.hpp:42-58 | the step is the largest order that fits, is permitted and is aligned at every base |
| OrderRange.ChunkFits | src/lib/toyos/include/toyos/util/order_range.hpp:42-58 | the step fits the rest, is permitted and is aligned at every base |
| OrderRange.Chunks | src/lib/toyos/include/toyos/util/order_range.hpp:67-121 | the chunks tile the interval in order |
| OrderRange.TilesAddUp | src/lib/toyos/include/toyos/util/order_range.hpp:67-121 | the chunks of a tiling add up to the interval |
| OrderRange.TilePlaced | src/lib/toyos/include/toyos/util/order_range.hpp:42-121 | each chunk has a permitted order and begins at a multiple of its size at every base |
| OrderRange.CoarsestPartition | src/lib/toyos/include/toyos/util/order_range.hpp:42-121 | every aligned sub-range of permitted order lies inside one chunk, for any number of bases |
| OrderRange.FewestChunks | src/lib/toyos/include/toyos/util/order_range.hpp:42-121 | no other permitted aligned tiling has fewer chunks |
| OrderRange.Iterator.constructor | src/lib/toyos/include/toyos/util/order_range.hpp:67-70 | the iterator starts at offset 0 with the right step |
| OrderRange.Iterator.UpdateStep | src/lib/toyos/include/toyos/util/order_range.hpp:51-58 | the step becomes the chunk order at the current offset |
| OrderRange.Iterator.Advance | src/lib/toyos/include/toyos/util/order_range.hpp:88-96 | moves every base past the current chunk, modulo 2^64 |
| OrderRange.Iterator.AtEnd | src/lib/toyos/include/toyos/util/order_range.hpp:98-121 | equality with the end iterator means that the whole size has been passed |
| OrderMath.OrderMin | src/lib/toyos/include/toyos/util/math.hpp:43-52 | the loop finds the lowest set bit: the largest power of two that divides the number |
| OrderMath.OrderMax | src/lib/toyos/include/toyos/util/math.hpp:59-68 | the loop finds the highest set bit |
| OrderMath.EnvelopeIsSmallest | src/lib/toyos/include/toyos/util/math.hpp:78-81 | the envelope is the smallest order whose power of two is at least the number |
| OrderMath.ComputeEnvelope | src/lib/toyos/include/toyos/util/math.hpp:78-81 | computes the envelope, which is 64 at most |
| OrderMath.AlignDownMeaning | src/lib/toyos/include/toyos/util/math.hpp:103-127 | masking is rounding down to a multiple, and the mask test is divisibility |
| OrderMath.AlignUpMeaning | src/lib/toyos/include/toyos/util/math.hpp:115-118 | masking rounds up to the least multiple, and yields 0 exactly when the addition wraps |
| HeapHeader.DecodeEncoded | src/contrib/lib/first-fit-heap/include/first-fit-heap/heap.hpp:115-161 | size and both flags of a header word are read back as they were stored |
| HeapHeader.SetEncodedSize | src/contrib/lib/first-fit-heap/include/first-fit-heap/heap.hpp:140-145 | setting the size keeps both flags |
| HeapHeader.SetEncodedPrevFree | src/contrib/lib/first-fit-heap/include/first-fit-heap/heap.hpp:152-156 | setting `prev_free` keeps size and the other flag |
| HeapHeader.SetEncodedIsFree | src/contrib/lib/first-fit-heap/include/first-fit-heap/heap.hpp:163-167 | setting `is_free` keeps size and the other flag |
| HeapMemory.StoreHolds | src/contrib/lib/first-fit-heap/include/first-fit-heap/heap.hpp:222-231 | a store inside one block leaves header, link, footer and payload of every other block alone |
| HeapLayout.FlagMeansFree | src/contrib/lib/first-fit-heap/include/first-fit-heap/heap.hpp:184-195 | a set `prev_free` flag has a free left neighbour behind it, so its footer may be read |
| HeapSteps.MergeConsistent | src/contrib/lib/first-fit-heap/include/first-fit-heap/heap.hpp:345-372 | merging two free neighbours keeps tiling, flags, footers and the ascending free list |
| HeapSteps.SplitConsistent | src/contrib/lib/first-fit-heap/include/first-fit-heap/heap.hpp:428-440 | splitting a free block keeps tiling, flags, footers and the ascending free list |
| HeapSteps.TakeConsistent | src/contrib/lib/first-fit-heap/include/first-fit-heap/heap.hpp:441-456 | unlinking a block keeps tiling, flags, footers and the ascending free list |
| HeapSteps.PutConsistent | src/contrib/lib/first-fit-heap/include/first-fit-heap/heap.hpp:304-343 | enlisting a block keeps tiling, flags, footers and the ascending free list |
| HeapTheory.KeepsPayloads | src/contrib/lib/first-fit-heap/include/first-fit-heap/heap.hpp:414-495 | allocations that stay live with the same contents have not been written to: every word of their payloads is in memory as before |
| HeapTheory.Covered | src/contrib/lib/first-fit-heap/include/first-fit-heap/heap.hpp:293-457 | every address of the region lies in exactly one block |
| HeapTheory.LayoutCanonical | src/contrib/lib/first-fit-heap/include/first-fit-heap/heap.hpp:345-372 | addresses, sizes and kinds of all blocks follow from the live allocations alone |
| HeapTheory.StateCanonical | src/contrib/lib/first-fit-heap/include/first-fit-heap/heap.hpp:293-457 | the whole state, headers, links, flags and free list, follows from the live allocations |
| HeapTheory.AllFreed | src/contrib/lib/first-fit-heap/include/first-fit-heap/heap.hpp:407-411 | with nothing live the region is one free block |
| HeapTheory.LiveApart | src/contrib/lib/first-fit-heap/include/first-fit-heap/heap.hpp:414-457 | live allocations are aligned, inside the region and disjoint |
| FirstFitHeap.RequestFacts | src/contrib/lib/first-fit-heap/include/first-fit-heap/heap.hpp:379-383 | rounding keeps a request at least as large as asked for if and only if it does not wrap |
| FirstFitHeap.WrappedRequest | src/contrib/lib/first-fit-heap/include/first-fit-heap/heap.hpp:379-383 | requests within 15 of 2^64 are rounded to 16 bytes, for example 2^64 - 1 |
| FirstFitHeap.ServedSizeIff | src/contrib/lib/first-fit-heap/include/first-fit-heap/heap.hpp:414-457 | an allocation is at least as large as requested if and only if the request does not wrap |
| FirstFitHeap.FreeUndoesAlloc | src/contrib/lib/first-fit-heap/include/first-fit-heap/heap.hpp:414-495 | freeing a fresh allocation restores blocks, flags and free list |
| HeapRuns.RunConserves | src/contrib/lib/first-fit-heap/include/first-fit-heap/heap.hpp:414-495 | in every state reached by allocations, writes and frees the invariant holds and exactly what was served and not freed since is live |
| HeapRuns.HistoriesAgree | src/contrib/lib/first-fit-heap/include/first-fit-heap/heap.hpp:414-495 | two histories that leave the same allocations with the same contents end in the same state |
| HeapRuns.AllReturned | src/contrib/lib/first-fit-heap/include/first-fit-heap/heap.hpp:407-495 | once everything is freed, in whatever order and between whatever other calls, the heap is in its first state: one free block of the region's size less a header |
| HeapRuns.FreeingAll | src/contrib/lib/first-fit-heap/include/first-fit-heap/heap.hpp:407-495 | from any reachable state, freeing the live allocations in any order leads back to the first state |
| HeapRuns.RecordedHeap.constructor | src/contrib/lib/first-fit-heap/include/first-fit-heap/heap.hpp:473-477 | a new heap is a run without events |
| HeapRuns.RecordedHeap.Alloc | src/contrib/lib/first-fit-heap/include/first-fit-heap/heap.hpp:478-481 | a successful allocation extends the run by one step, a failed one leaves it |
| HeapRuns.RecordedHeap.Free | src/contrib/lib/first-fit-heap/include/first-fit-heap/heap.hpp:483-495 | freeing a live allocation extends the run by one step; null and outside addresses leave it |
| HeapRuns.RecordedHeap.Write | src/contrib/lib/first-fit-heap/include/first-fit-heap/heap.hpp:222-231 | a write by an owner extends the run by one step |
| FirstFitHeap.Heap.constructor | src/contrib/lib/first-fit-heap/include/first-fit-heap/heap.hpp:473-477 | a region with any contents becomes one free block, with nothing live |
| FirstFitHeap.Heap.Alloc | src/contrib/lib/first-fit-heap/include/first-fit-heap/heap.hpp:414-481 | takes the lowest block that fits and fails exactly when none fits; the invariant holds, and no other live allocation changes in address or size, nor any word of its payload in memory |
| FirstFitHeap.Heap.Free | src/contrib/lib/first-fit-heap/include/first-fit-heap/heap.hpp:483-495 | removes exactly the given live allocation; null and addresses outside change neither memory nor list; no payload of another allocation is written and no two free blocks stay adjacent |
| FirstFitHeap.Heap.FreeMem | src/contrib/lib/first-fit-heap/include/first-fit-heap/heap.hpp:508-517 | sums the listed blocks; with nothing live that is the region without one header |
| FirstFitHeap.BytesAddUp | src/contrib/lib/first-fit-heap/include/first-fit-heap/heap.hpp:508-517 | free payloads, live payloads and headers make up the region |
| FirstFitHeap.Heap.Write | src/contrib/lib/first-fit-heap/include/first-fit-heap/heap.hpp:222-231 | an owner may write any payload word, even where a footer would be, without touching the invariant |
| FirstFitHeap.Heap.Release | src/contrib/lib/first-fit-heap/include/first-fit-heap/heap.hpp:407-411 | insertion with merging on both sides restores the invariant and removes only the given allocation |
| FirstFitHeap.Heap.TryMergeBack | src/contrib/lib/first-fit-heap/include/first-fit-heap/heap.hpp:345-357 | merges with the block behind exactly if that is free |
| FirstFitHeap.Heap.TryMergeFront | src/contrib/lib/first-fit-heap/include/first-fit-heap/heap.hpp:359-372 | merges with the block in front exactly if that is free |
| FirstFitHeap.Heap.InsertAfter | src/contrib/lib/first-fit-heap/include/first-fit-heap/heap.hpp:304-343 | links a block at its place in the ascending list and updates the flag behind it |
| FirstFitHeap.Heap.PositionFor | src/contrib/lib/first-fit-heap/include/first-fit-heap/heap.hpp:293-302 | finds the place that keeps the list ascending |
| FirstFitHeap.Heap.FirstFree | src/contrib/lib/first-fit-heap/include/first-fit-heap/heap.hpp:391-405 | finds the first list element that fits together with its predecessor, or that there is none |
| FirstFitHeap.Heap.PrecedingBlock | src/contrib/lib/first-fit-heap/include/first-fit-heap/heap.hpp:184-195 | reads a footer only when a free block put it there, and so finds the left neighbour |
| FirstFitHeap.Heap.FollowingBlock | src/contrib/lib/first-fit-heap/include/first-fit-heap/heap.hpp:174-182 | finds the block behind, or none at the end of the region |
| FirstFitHeap.Heap.SplitBlock | src/contrib/lib/first-fit-heap/include/first-fit-heap/heap.hpp:428-440 | cuts a free block in two and enlists the rest |
| FirstFitHeap.Heap.TakeBlock | src/contrib/lib/first-fit-heap/include/first-fit-heap/heap.hpp:441-456 | unlinks a block, clears the flag behind it and hands out its payload |
| IntervalVector.CanonicalUnique | src/lib/toyos/include/toyos/util/interval_map.hpp:65-86 | the vector is determined by the function it represents |
| IntervalVector.MergeCanonical | src/lib/toyos/include/toyos/util/interval_map.hpp:65-86 | merging around the only place with equal neighbours gives the canonical form and keeps the function |
| IntervalVector.OverrideAt | src/lib/toyos/include/toyos/util/interval_map.hpp:162-237 | overriding [a, b) changes exactly the keys of [a, b) |
| IntervalVector.InsertedMeaning | src/lib/toyos/include/toyos/util/interval_map.hpp:162-237 | the vector after `insert` is canonical and is the pointwise override |
| IntervalVector.EntryIsMaximal | src/lib/toyos/include/toyos/util/interval_map.hpp:101-109 | each entry is a longest interval with its value |
| IntervalVector.RemoveOne | src/lib/toyos/include/toyos/util/interval_map.hpp:241-265 | removing an interval between different neighbours gives its keys to the predecessor |
| IntervalVector.RemoveTwo | src/lib/toyos/include/toyos/util/interval_map.hpp:252-257 | removing an interval between equal neighbours joins all three |
| IntervalVector.RemoveFirst | src/lib/toyos/include/toyos/util/interval_map.hpp:246-251 | removing the first interval gives its keys to the successor |
| IntervalVector.RemoveOnly | src/lib/toyos/include/toyos/util/interval_map.hpp:241-265 | removing the only interval resets everything to the default |
| IntervalVector.FitInEntry | src/lib/toyos/include/toyos/util/interval_map.hpp:294-316 | in canonical form a range with one value lies inside one entry |
| IntervalVector.IntervalVec.constructor | src/lib/toyos/include/toyos/util/interval_map.hpp:92-96 | a new map has the given value everywhere |
| IntervalVector.IntervalVec.Merge | src/lib/toyos/include/toyos/util/interval_map.hpp:65-86 | joins an entry with an equal predecessor and an equal successor |
| IntervalVector.IntervalVec.Insert | src/lib/toyos/include/toyos/util/interval_map.hpp:162-237 | in every branch: keys of [a, b) read the new value, all others are unchanged, and the canonical form is kept |
| IntervalVector.IntervalVec.Find | src/lib/toyos/include/toyos/util/interval_map.hpp:101-109 | returns the longest interval with one value that holds the point |
| IntervalVector.IntervalVec.Remove | src/lib/toyos/include/toyos/util/interval_map.hpp:241-265 | changes only the keys of the interval that holds the point, to the predecessor's value, the successor's if it was first, the default if it was the only one |
| IntervalVector.IntervalVec.FindLastFit | src/lib/toyos/include/toyos/util/interval_map.hpp:294-316 | returns the highest range of the size below the limit that has the value, and the empty interval exactly when there is none; for size 0, the empty interval at the highest place where an entry with the value ends or meets the limit |
| LockFreeQueue.NextKeepsInv | src/lib/toyos/include/toyos/util/lock_free_queue.hpp:94-148 | every atomic step of producer and consumer keeps the invariant between positions, slots and history |
| LockFreeQueue.FullMeans | src/lib/toyos/include/toyos/util/lock_free_queue.hpp:102-107 | `full` holds exactly if all entries were taken when read_position was loaded |
| LockFreeQueue.EmptyMeans | src/lib/toyos/include/toyos/util/lock_free_queue.hpp:94-100 | `empty` holds exactly if nothing was queued when write_position was loaded |
| LockFreeQueue.StepRefines | src/lib/toyos/include/toyos/util/lock_free_queue.hpp:111-148 | each step acts on the contents like a bounded first-in first-out queue: a push appends, a get takes off the oldest element and returns it, a pop takes it off |
| LockFreeQueue.FailureJustified | src/lib/toyos/include/toyos/util/lock_free_queue.hpp:111-148 | push and pop fail only if the queue was full or empty at their load of the other position |
| LockFreeQueue.NoRace | src/lib/toyos/include/toyos/util/lock_free_queue.hpp:111-136 | the producer never writes the slot the consumer may be reading |
| LockFreeQueue.NeverStuck | src/lib/toyos/include/toyos/util/lock_free_queue.hpp:120-148 | slots are always in range and the assertion of `front` never fails |
| LockFreeQueueCalls.CallsAnswered | src/lib/toyos/include/toyos/util/lock_free_queue.hpp:111-148 | in every interleaving a push is answered by true or false with its own element, a get by a value or by nothing and a pop by true or false; a context is idle exactly when none of its calls waits |
| LockFreeQueue.GetsOldest | src/lib/toyos/include/toyos/util/lock_free_queue.hpp:300-330 | the value a get returns is the oldest one that was pushed and not removed before |
| LockFreeQueue.FirstInFirstOut | src/lib/toyos/include/toyos/util/lock_free_queue.hpp:300-330 | in every interleaving the k-th element removed is the k-th one pushed, and at most entry_num are queued |
| LockFreeQueueCalls.WaitFree | src/lib/toyos/include/toyos/util/lock_free_queue.hpp:94-148 | neither context is ever blocked: a push ends within six steps of its own and a get within thirteen, whatever the other does |
| LockFreeQueue.RunInv | src/lib/toyos/include/toyos/util/lock_free_queue_def.h:39-71 | the invariant holds in every reachable state |
| LockFreeQueue.SlotsDiffer | src/lib/toyos/include/toyos/util/lock_free_queue.hpp:67-70 | elements at most entry_num apart share a slot only if they are the same |
| LockFreeArray.InsertOnlyKept | src/lib/toyos/include/toyos/util/array_lock_free.hpp:79-95 | with any number of inserting threads occupied slots form a prefix and hold the values placed there |
| LockFreeArray.FailsOnlyWhenFull | src/lib/toyos/include/toyos/util/array_lock_free.hpp:79-95 | an insert fails only when the array is full |
| LockFreeArray.FreshIndex | src/lib/toyos/include/toyos/util/array_lock_free.hpp:79-95 | a successful insert gets an index that no other insert has had |
| LockFreeArray.SlotsFilledInOrder | src/lib/toyos/include/toyos/util/array_lock_free.hpp:79-95 | over a whole run the slots hold the successful inserts in the order of their success |
| LockFreeArray.BalancedKept | src/lib/toyos/include/toyos/util/array_lock_free.hpp:139-153 | every step of insert and remove keeps stored values equal to inserts minus removes |
| LockFreeArray.StoredIsBalance | src/lib/toyos/include/toyos/util/array_lock_free.hpp:139-153 | over every run the stored multiset is that of the successful inserts minus the successful removes |
| LockFreeArray.CallsAnswered | src/lib/toyos/include/toyos/util/array_lock_free.hpp:79-153 | in every run each thread's calls and answers alternate, and every success or failure carries the value with which its call began |
| LockFreeArray.WaitFree | src/lib/toyos/include/toyos/util/array_lock_free.hpp:79-153 | a call is never blocked and passes each slot at most once, whatever other threads do |
| LockFreeArray.SlotHistory | src/lib/toyos/include/toyos/util/array_lock_free.hpp:79-153 | between any two states, a taken slot has become free if and only if it was vacated and not filled since, and a slot has come to hold a value if and only if it was filled with it and not vacated since |
| LockFreeArray.FailsAbsentIff | src/lib/toyos/include/toyos/util/array_lock_free.hpp:139-153 | when a remove fails, a slot holds the value if and only if it was filled with it after the remove had passed it and not vacated since, so the value is absent if and only if no such slot exists |
| LockFreeArray.FailsFullIff | src/lib/toyos/include/toyos/util/array_lock_free.hpp:79-153 | when an insert fails beside removals, a slot is free if and only if it was vacated after the insert had passed it and not filled since, so the array is full if and only if no such slot stands vacated |
| LockFreeArray.FailsOnlyWhenFullOrVacated | src/lib/toyos/include/toyos/util/array_lock_free.hpp:79-153 | in particular, an insert during which nothing is removed fails only when the array is full |
| LockFreeArrayRuns.RemoveMisses | src/lib/toyos/include/toyos/util/array_lock_free.hpp:139-153 | a concrete run in which a remove fails although its value is stored from before the call to after it |
| LockFreeArrayRuns.FailsWithRoom | src/lib/toyos/include/toyos/util/array_lock_free.hpp:79-153 | a concrete run in which an insert fails although the array is never full, because a slot it had passed was vacated |
| UtfBits.PairAgrees | src/contrib/lib/libcxx/src/locale.cpp:1774-1788 | the four bytes made from a surrogate pair are those of the code point it stands for, and decode to the pair |
| UtfBits.BytesAgree | src/contrib/lib/libcxx/src/locale.cpp:1924-1955 | a surrogate pair made from four well-formed bytes encodes to the same bytes and code point |
| Utf.Utf16ToUtf8 | src/contrib/lib/libcxx/src/locale.cpp:1740-1802 | status, consumed units and written bytes are those of the specified conversion for every buffer, limit and header mode; the rest of the buffer is untouched |
| Utf.Utf8ToUtf16 | src/contrib/lib/libcxx/src/locale.cpp:1868-1962 | the same for the other direction |
| Utf.Utf8ToUtf16Length | src/contrib/lib/libcxx/src/locale.cpp:2060-2142 | returns the bytes the decoder consumes into a buffer of mx units, however the decoder stops, narrowed to 32 bits as the code does |
| UtfText.EncodeMeaning | src/contrib/lib/libcxx/src/locale.cpp:1740-1802 | however the encoder stops, it has read whole characters within the limit and written the UTF-8 of the same text |
| UtfText.DecodeMeaning | src/contrib/lib/libcxx/src/locale.cpp:1868-1962 | however the decoder stops, it has read whole characters within its limits and written the UTF-16 of the same text |
| UtfText.EncodeSucceedsIff | src/contrib/lib/libcxx/src/locale.cpp:1740-1802 | succeeds exactly on UTF-16 of a text within the limit whose UTF-8 fits |
| UtfText.DecodeSucceedsIff | src/contrib/lib/libcxx/src/locale.cpp:1868-1962 | succeeds exactly on UTF-8 of a text within its limits whose UTF-16 fits |
| UtfText.DecodeEncoded | src/contrib/lib/libcxx/src/locale.cpp:1740-1962 | decoding what the encoder has written gives back what it has read |
| UtfText.EncodeDecoded | src/contrib/lib/libcxx/src/locale.cpp:1740-1962 | encoding what the decoder has written gives back what it has read, for every limit |
| UtfText.ComesBackIff | src/contrib/lib/libcxx/src/locale.cpp:1868-1885 | every encoded text comes back if and only if the limit is below 0x80 or at least 0xC3 |
| UtfText.RefusesOwnOutput | src/contrib/lib/libcxx/src/locale.cpp:1876-1879 | for each other limit, a character within the limit that the decoder refuses because its first byte is above it |
| UtfText.HeaderRoundTrip | src/contrib/lib/libcxx/src/locale.cpp:1744-1750 | for limits that admit the byte order mark, what comes back for each combination of generating and consuming it |
| UtfText.HeaderWithoutMark | src/contrib/lib/libcxx/src/locale.cpp:1744-1750 | for all other limits, a mark that is generated and not consumed is refused, and otherwise the header modes make no difference to the text |
| UtfText.ComesBackWithHeader | src/contrib/lib/libcxx/src/locale.cpp:1744-1750 | under such a limit, if it is exact, the text comes back from every combination but the refused one |
| UtfGrammar.AcceptsIff | src/contrib/lib/libcxx/src/locale.cpp:1868-1962 | the decoder accepts exactly the octets of the grammar in section 4 of RFC 3629 |
| UtfStatus.DecodeStatus | src/contrib/lib/libcxx/src/locale.cpp:1868-1962 | which stop is partial and which is an error, in terms of the input left unread and the room left, for every input, limit and header mode; the decoder never stops in front of a character it could take |
| UtfStatus.EncodeStatus | src/contrib/lib/libcxx/src/locale.cpp:1740-1802 | the same for the encoder |
| NumberText.DigitIff | src/contrib/lib/libcxx/src/c_string.cpp:152-170 | a character has the value d if and only if it is the digit d, in either case, and the base has that digit |
| NumberText.StrToULL | src/contrib/lib/libcxx/src/c_string.cpp:172-219 | returns the value of the digits modulo 2^64; the end is reported only for an empty string or where a character that is not the terminator stops the digits |
| NumberText.StrToLL | src/contrib/lib/libcxx/src/c_string.cpp:270-291 | value and reported end are those of the unsigned text behind white space and one minus sign; no value where the negation overflows |
| NumberText.OverflowIff | src/contrib/lib/libcxx/src/c_string.cpp:270-291 | the negation overflows if and only if the digits behind a minus sign stand for 2^63 |
| NumberText.FillDigits | src/lib/toyos/src/printf/xprintf.c:233-240 | the buffer of 32 characters is never overrun and holds the digits in reverse |
| NumberText.PrintNumber | src/lib/toyos/src/printf/xprintf.c:228-259 | puts out sign, digits and padding as specified, including the wrapped counter at the largest width |
| NumberText.PutDigits | src/lib/toyos/src/printf/xprintf.c:228-254 | puts out sign and digits; the sign never overruns the buffer either |
| NumberText.NumbersLost | src/lib/toyos/src/printf/xprintf.c:228-259 | concrete inputs that do not come back: 2^32 in binary and -5 with zero padding |
| NumberText.NumeralValue | src/lib/toyos/src/printf/xprintf.c:233-240 | the digits stand for the value modulo the power of the radix that 32 digits allow |
| NumberText.PaddedParse | src/contrib/lib/libcxx/src/c_string.cpp:172-219 | digits are parsed back from any padding |
| NumberForm.ParseWritten | src/contrib/lib/libcxx/src/c_string.cpp:172-219 | white space, a plus sign and the prefix 0x do not change the value of the digits behind them, and what follows the digits does not either; the end is reported unless the text ends there |
| NumberForm.ParseSignedWritten | src/contrib/lib/libcxx/src/c_string.cpp:270-291 | white space and one minus sign in front of any unsigned text |
| NumberForm.PrintedBases | src/lib/toyos/src/printf/xprintf.c:190-212 | each conversion letter prints in its base: 16 for x and X, 8 for o, 10 for u, and the low 32 bits in base 2 for b |
| NumberForm.LetterCase | src/lib/toyos/src/printf/xprintf.c:236-239 | %x puts out no capital, every other conversion no small letter |
| NumberForm.PrintedShape | src/lib/toyos/src/printf/xprintf.c:246-259 | the output is as long as the width or the text, with the text at its end or, left-justified, at its start, and all else the padding character |
| NumberForm.ShortestText | src/lib/toyos/src/printf/xprintf.c:233-240 | numbers come without leading zeros |
| NumberForm.SignedText | src/lib/toyos/src/printf/xprintf.c:228-245 | a signed decimal is the text of its magnitude behind a minus sign exactly if it is negative |
| NumberText.UnsignedRoundTrip | src/lib/toyos/src/printf/xprintf.c:228-259 | `strtoull` returns every unsigned value printed in radix 8, 10 and 16, for all widths and paddings, and in radix 2 if and only if it is below 2^32 |
| NumberText.SignedRoundTripIff | src/lib/toyos/src/printf/xprintf.c:228-259 | `strtoll` returns a printed signed decimal above the minimum if and only if it is not a negative one padded with zeros |
| Multiboot2.Builder.constructor | src/lib/toyos/include/toyos/multiboot2/multiboot2_builder.hpp:25-26 | a new builder has no tags |
| Multiboot2.Builder.AddTag | src/lib/toyos/include/toyos/multiboot2/multiboot2_builder.hpp:108-130 | appends the tag with its size filled in and zeros up to a multiple of eight |
| Multiboot2.Builder.Build | src/lib/toyos/include/toyos/multiboot2/multiboot2_builder.hpp:77-97 | yields the fixed part, the tags in order and the null tag |
| Multiboot2.TotalIff | src/lib/toyos/include/toyos/multiboot2/multiboot2_builder.hpp:81-84 | the total size is the number of bytes if and only if that fits 32 bits |
| Multiboot2.TotalWraps | src/lib/toyos/include/toyos/multiboot2/multiboot2_builder.hpp:81-84 | a concrete input: an image of 2^32 bytes claims a total size of 0 |
| Multiboot2.TagIterator.Advance | src/lib/toyos/include/toyos/multiboot2/multiboot2.hpp:307-311 | moves to the next tag: the walk loses its first item |
| Multiboot2.FindTag | src/lib/toyos/include/toyos/multiboot2/multiboot2.hpp:326-337 | returns the first tag of the type, or nothing exactly when there is none |
| Multiboot2.ReadsBack | src/lib/toyos/include/toyos/multiboot2/multiboot2.hpp:252-324 | walking over a built image that fits yields the added tags in order, then the null tag, and ends exactly at the end of the bytes |
| Multiboot2.PayloadReadBack | src/lib/toyos/include/toyos/multiboot2/multiboot2.hpp:268-276 | for every n up to the size of a tag, the first n bytes of its type, size, members and payload are read, and zeros pad it to the next tag |
| Multiboot2.FixedPart | src/lib/toyos/include/toyos/multiboot2/multiboot2_builder.hpp:77-97 | the reserved word of an image is zero and the null tag ends it |
| Multiboot2.FindsFirstAdded | src/lib/toyos/include/toyos/multiboot2/multiboot2.hpp:326-337 | a search for a type other than 0 in a built image finds the first added tag of that type, or nothing exactly when none was added |

## Left out

- SplittingBuddy.SplittingBuddyAllocator.Alloc: ends where the code frees memory that is free already, because what the inner `free` then does depends on assertions that may be compiled out; `DoubleFree` marks that point.
- Multiboot2.ReadsBack: covers images whose total size fits its 32-bit word; `TotalIff` shows that the total size is wrong for all others.
- LockFreeQueue.FirstInFirstOut: assumes sequential consistency; weaker memory orders are not modelled.
- The heap's canary words, `num_blocks` and tracing.
- The limit of the UTF converters as a 64-bit word: all limits from 0x10FFFF on behave alike, so 32 bits hold it.
- The uint32_t variants of the UTF converters, the UCS converters and the codecvt wrappers in `locale.cpp`: they repeat the same loops.
- The '#' flag, `%p`, `%s`, `%c` and format parsing in `xprintf.c`, and the output limit of `vsnprintf`.
- `strtoul` and `strtol`, which repeat `strtoull` and `strtoll`.
- `find`, `find_if` and `clear` of the lock-free array.
- `iterate_range` of the interval vector, which dereferences a bound without checking it against the end.
- The Multiboot2 header reader and `locate_header`, and the layout of the individual tag types.
- Intersection, ordering and iteration of intervals.
- Hardware access, paging, interrupt controllers, timers, PCI, the xHCI debug device and the hypervisor tests.
- The `operator new` wrappers, the option parser, `map.hpp`, ring buffer, string utilities and statistics: they would only add easy members.
