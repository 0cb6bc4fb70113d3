# Allocator core of memory-engine-diagnostics, in Dafny

This project models the allocator family of memory-engine-diagnostics.
Each allocator serves byte blocks out of one region, one call at a time,
and keeps shared allocation statistics and an allocation history.

- **Free-list allocator.** An address-ordered list of free blocks, with
  first-, best- and worst-fit selection, splitting, headers in front of
  each allocation, sorted reinsertion, coalescing and a fragmentation
  estimate.
- **Stack allocator.** A bump offset, with a chain of "previous top"
  offsets threaded through the headers. Markers and rollback move the top.
- **Pool allocator.** Fixed-size slots on an intrusive LIFO free list, plus
  an occupancy grid.
- **Standard allocator.** A table from address to `{size, alignment}` over
  the platform's `operator new` / `operator delete`.
- **Base allocator.** The statistics counters, the history, `align_size`
  and `is_power_of_two`.
- **Memory utilities.** `align_forward`, `is_power_of_two`,
  `next_power_of_two` and the unit multipliers, as 64-bit bit-vector code.

Modelling choices:

- Each allocator is a class whose fields the methods update. A `BaseAllocator`
  object holds the base-class state and is shared by composition.
- A region is its start address `memory` (0 when the platform allocation
  failed) plus offsets. The headers written into it are a map from offset to
  header.
- The free list and the pool list are sequences in list order; the `next`
  links are that order.
- Every loop of the source is a `while` loop proved against a specification
  function: the three fit searches, the sorted insertion, coalescing, the
  sums over the list, building the pool list, the occupancy grid, and the
  release loop of the standard allocator's reset.
- Offsets and sizes inside the allocators are unbounded integers. The
  allocators' invariants keep them below 2^64. Where the C++ arithmetic can
  wrap, the wrap is written out with `Wrap`, and the cases where it changes
  the outcome are listed under Findings.

The free-list region is tracked as an `Arena`: the free list plus the live
headers. `Arena.Valid` states that the list is sorted and that blocks and
headers lie apart. It also states that the free bytes plus the live bytes
make up the whole region. Every operation of the allocator is proved to
keep this invariant. `scenarios.dfy` works through concrete runs of each
allocator from the contracts alone.

## Model

| member | source | states |
|---|---|---|
| Words.AndClearsLowBits | src/core/allocators/base_allocator.hpp:207 | masking with `~(2^k - 1)` within n bits rounds down to a multiple of 2^k |
| Words.AndComplement | src/core/allocators/base_allocator.hpp:207 | a value ANDed with a mask and with the mask's complement splits into two parts that sum to it |
| Base.AlignSize | src/core/allocators/base_allocator.hpp:206-208 | `align_size` never exceeds the wrapped `size + alignment - 1` it masks |
| Base.AlignUp | src/core/allocators/base_allocator.hpp:206-208 | reference rounding: a multiple of the alignment, at least the size and less than size + alignment |
| Base.AlignSizeRounds | src/core/allocators/base_allocator.hpp:206-208 | for a power-of-two alignment and no overflow, `align_size` equals the reference rounding: a multiple of a, at least s, below s + a |
| Base.AlignSizeClearsLowBits | src/core/allocators/base_allocator.hpp:206-208 | for a power-of-two alignment, `align_size` is the padded size minus its remainder |
| Base.AlignSizeAtLeast | src/core/allocators/base_allocator.hpp:206-208 | for any non-zero alignment without overflow, `align_size` is at least the size |
| Base.AlignSizeWraps | src/core/allocators/base_allocator.hpp:206-208 | `align_size(SIZE_MAX, 16)` wraps to 0 |
| Base.PowerOfTwoLog | src/core/allocators/base_allocator.hpp:215-217 | every value accepted by `is_power_of_two` is 2^k for some k < 64 |
| Base.PowerOfTwoOfPow2 | src/core/allocators/base_allocator.hpp:215-217 | every 2^k with k < 64 is accepted by `is_power_of_two` (the converse of PowerOfTwoLog) |
| Base.Log2 | src/core/allocators/base_allocator.hpp:216 | a positive v with `v & (v - 1) == 0` is a power of two |
| Base.Pow2AndPredecessor | src/core/allocators/base_allocator.hpp:216 | `2^k & (2^k - 1) == 0` |
| Base.Stats.Allocated | src/core/allocators/base_allocator.hpp:162-170 | record_allocation's counter update: peak is at least current; `current_allocations == total - deallocations` is kept; bytes ordering is kept without overflow; deallocation count untouched |
| Base.Stats.Deallocated | src/core/allocators/base_allocator.hpp:190-193 | record_deallocation's counter update keeps the count identity, and keeps the bytes ordering when the size does not underflow; the allocation totals and peak are untouched |
| Base.AllocatedThenDeallocated | src/core/allocators/base_allocator.hpp:162-193 | recording an allocation and a deallocation of the same size restores the current counters and advances both totals by one |
| Base.WrapSum | src/core/allocators/base_allocator.hpp:162-193 | adding then subtracting a size on `size_t` gives the value back |
| Base.BaseAllocator.constructor | src/core/allocators/base_allocator.hpp:60-61 | the total size is kept; statistics zero and history empty |
| Base.BaseAllocator.RecordAllocation | src/core/allocators/base_allocator.hpp:162-183 | the stats become Allocated(size) and exactly one active history entry with the address, size and alignment is appended |
| Base.BaseAllocator.RecordDeallocation | src/core/allocators/base_allocator.hpp:190-198 | the stats become Deallocated(size); the history is unchanged |
| Base.BaseAllocator.SetBytesUsed | src/core/allocators/stack_allocator.hpp:208-210 | only the bytes-in-use counter changes |
| Base.BaseAllocator.SetFragmentationBytes | src/core/allocators/freelist_allocator.hpp:427-436 | only the fragmentation counter changes |
| Base.BaseAllocator.ClearRecords | src/core/allocators/stack_allocator.hpp:219-220 | statistics zero and history empty |
| Base.BaseAllocator.Available | src/core/allocators/base_allocator.hpp:145-147 | available plus bytes in use is the total whenever the bytes in use do not exceed it |
| MemoryUtils.PowerOfTwoOneBit | src/core/utils/memory_utils.hpp:20-22 | `is_power_of_two(v)` holds exactly when v is a word with a single bit set; 0 is rejected |
| MemoryUtils.PowerOfTwoIsBit | src/core/utils/memory_utils.hpp:20-22 | an accepted value is the single bit at its highest set position |
| MemoryUtils.AlignForwardRounds | src/core/utils/memory_utils.hpp:16-18 | for a power-of-two alignment and no overflow, `align_forward` has clear low bits and lies in `[x, x + a - 1]` |
| MemoryUtils.AlignForwardKeepsAligned | src/core/utils/memory_utils.hpp:16-18 | an already aligned address is returned unchanged |
| MemoryUtils.AlignForwardIdempotent | src/core/utils/memory_utils.hpp:16-18 | aligning twice is aligning once |
| MemoryUtils.MaskSplit | src/core/utils/memory_utils.hpp:17 | `(y & ~m) + (y & m) == y` and `y & m <= m` on 64 bits |
| MemoryUtils.Smear | src/core/utils/memory_utils.hpp:26-31 | the shift-OR cascade never decreases the value |
| MemoryUtils.SmearBelow | src/core/utils/memory_utils.hpp:26-31 | the cascade stays below any power of two the value is below |
| MemoryUtils.NextPowerOfTwoIsLeast | src/core/utils/memory_utils.hpp:24-33 | for `1 <= v <= 2^63`, the result is a power of two, at least v, and no larger than any power of two at least v |
| MemoryUtils.NextPowerOfTwoFixesPowers | src/core/utils/memory_utils.hpp:24-33 | a power of two is its own next power of two |
| MemoryUtils.NextPowerOfTwoWraps | src/core/utils/memory_utils.hpp:24-33 | 0 and values above 2^63 wrap round to 0 |
| MemoryUtils.PageSizeIsPowerOfTwo | src/core/utils/memory_utils.hpp:35-41 | the page size 4096 is a power of two |
| MemoryUtils.UnitsNest | src/core/utils/memory_utils.hpp:43-45 | `MB(n) == KB(KB(n))` and `GB(n) == KB(MB(n))` modulo 2^64 |
| MemoryUtils.UnitsRoundTrip | src/core/utils/memory_utils.hpp:43 | `KB(n) / 1024 == n` when `KB(n)` does not wrap |
| FreeBlocks.Largest | src/core/allocators/freelist_allocator.hpp:277-287 | bounds every block, is attained by a block when the list is non-empty, is 0 when it is empty, and never exceeds the free bytes |
| FreeBlocks.Fragmentation | src/core/allocators/freelist_allocator.hpp:427-436 | fragmentation plus the largest block is the free bytes |
| FreeBlocks.OneBlockNotFragmented | src/core/allocators/freelist_allocator.hpp:427-436 | a single free block means no fragmentation |
| FreeBlocks.FreeBytesAppend | src/core/allocators/freelist_allocator.hpp:233-241 | the free bytes of two lists joined are their sum |
| FreeBlocks.InsertSorted | src/core/allocators/freelist_allocator.hpp:388-402 | the multiset of blocks gains exactly the inserted block |
| FreeBlocks.InsertAfter | src/core/allocators/freelist_allocator.hpp:394-401 | the walk past the head also gains exactly the inserted block |
| FreeBlocks.InsertBytes | src/core/allocators/freelist_allocator.hpp:388-402 | insertion adds exactly the block's size to the free bytes |
| FreeBlocks.InsertKeepsSorted | src/core/allocators/freelist_allocator.hpp:388-402 | inserting a block that overlaps no listed block keeps the list strictly address-sorted |
| FreeBlocks.Coalesced | src/core/allocators/freelist_allocator.hpp:407-422 | coalescing never lengthens the list and keeps its first offset |
| FreeBlocks.CoalescedBytes | src/core/allocators/freelist_allocator.hpp:407-422 | coalescing preserves the free bytes |
| FreeBlocks.CoalescedSorted | src/core/allocators/freelist_allocator.hpp:407-422 | coalescing a sorted list gives a sorted list in which no block ends where the next starts |
| FreeBlocks.CoalescedPlaced | src/core/allocators/freelist_allocator.hpp:407-422 | the merged blocks stay inside the region and apart from every live header |
| FreeBlocks.Carve | src/core/allocators/freelist_allocator.hpp:129-153 | the consumed size is the request (split) or the whole block; the free bytes drop by exactly the consumed size |
| FreeBlocks.NoChoiceMeansNoFit | src/core/allocators/freelist_allocator.hpp:112-126 | under every policy, no block is chosen exactly when every block is smaller than the request |
| FreeBlocks.LiveBytesAdd | src/core/allocators/freelist_allocator.hpp:156-158 | writing a new header adds its size to the live bytes |
| FreeBlocks.LiveBytesRemove | src/core/allocators/freelist_allocator.hpp:182-196 | removing a header takes its size off the live bytes |
| FreeBlocks.WholeValid | src/core/allocators/freelist_allocator.hpp:66-71 | one free block spanning the region satisfies the tiling invariant |
| FreeBlocks.SmallRegionOverruns | src/core/allocators/freelist_allocator.hpp:66-71 | as written, for a region below 16 bytes the record written at its start runs past its end, and the spanning block is not a placed block |
| FreeBlocks.CarvedValid | src/core/allocators/freelist_allocator.hpp:129-158 | allocate's carving keeps the region tiled: sorted, apart, free plus live bytes equal to the region |
| FreeBlocks.CarvedSorted | src/core/allocators/freelist_allocator.hpp:129-153 | carving keeps the list sorted |
| FreeBlocks.CarvedPlaced | src/core/allocators/freelist_allocator.hpp:129-158 | after carving, every free block lies apart from every header, the new one included |
| FreeBlocks.FreedValid | src/core/allocators/freelist_allocator.hpp:182-196 | deallocate's reinsertion and coalescing keep the region tiled |
| FreeBlocks.InsertedPlaced | src/core/allocators/freelist_allocator.hpp:186-193 | the returned block lies apart from the remaining headers |
| FreeBlocks.WholeRoundTrip | src/core/allocators/freelist_allocator.hpp:66-196 | on a fresh region, carving any request and freeing it gives back the single free block of the whole region |
| FreeBlocks.RequestSize | src/core/allocators/freelist_allocator.hpp:105-106 | without overflow, the requested length is `align_size(size + 16, alignment)`, at least size + 16, and for powers of two the reference rounding |
| FreeBlocks.RequestSizeWraps | src/core/allocators/freelist_allocator.hpp:105-106 | as written, size `SIZE_MAX - 15` or alignment 0 yields a requested length of 0 |
| FreeBlocks.CarvedAsWrittenAgrees | src/core/allocators/freelist_allocator.hpp:129-158 | on a tiled region, for any request above 0 the header never lands on a listed record, so allocate's effect with the header and record overlaid is exactly the offset-keyed carve |
| FreeBlocks.ZeroRequestCutsList | src/core/allocators/freelist_allocator.hpp:129-158 | as written, a total of 0 carved from a splittable block leaves that block's record in place; the header write sets its size to 0 and its `next` to null, and every free byte from that block on is lost to the list |
| FreeBlocks.ZeroRequestBreaksTiling | src/core/allocators/freelist_allocator.hpp:105-158 | as written, a total of 0 passes first fit on a fresh region; the spanning block's record becomes an empty block with a null `next`, no free byte is left on the list, and the region is no longer tiled |
| FreeList.FreeListAllocator.constructor | src/core/allocators/freelist_allocator.hpp:53-72 | with a region of at least 16 bytes, one free block spanning it; without a region, nothing; zero stats; invariant established (the corrected side of the small-region finding) |
| FreeList.FreeListAllocator.Owns | src/core/allocators/freelist_allocator.hpp:222-227 | every live pointer is owned; an owned pointer lies in a present region |
| FreeList.FreeListAllocator.FindFirstFit | src/core/allocators/freelist_allocator.hpp:317-333 | the index of the first block of at least the request, or the list length when there is none |
| FreeList.FreeListAllocator.FindBestFit | src/core/allocators/freelist_allocator.hpp:338-358 | the first of the smallest sufficient blocks (strict `<`), or the list length |
| FreeList.FreeListAllocator.FindWorstFit | src/core/allocators/freelist_allocator.hpp:363-383 | the first of the largest sufficient blocks (strict `>`), or the list length |
| FreeList.FreeListAllocator.InsertFreeBlock | src/core/allocators/freelist_allocator.hpp:388-402 | the list becomes InsertSorted of the old list; headers and policy untouched |
| FreeList.FreeListAllocator.Coalesce | src/core/allocators/freelist_allocator.hpp:407-422 | the list becomes Coalesced of the old list; headers and policy untouched |
| FreeList.FreeListAllocator.Available | src/core/allocators/freelist_allocator.hpp:233-241 | the sum of the free block sizes |
| FreeList.FreeListAllocator.FreeBlockCount | src/core/allocators/freelist_allocator.hpp:263-271 | the walk from the head to the null `next` counts exactly the blocks on the list |
| FreeList.FreeListAllocator.LargestFreeBlock | src/core/allocators/freelist_allocator.hpp:277-287 | the largest free block size, 0 for an empty list |
| FreeList.FreeListAllocator.UpdateFragmentation | src/core/allocators/freelist_allocator.hpp:427-436 | the fragmentation counter becomes free bytes minus the largest block, all else unchanged |
| FreeList.FreeListAllocator.Choose | src/core/allocators/freelist_allocator.hpp:112-122 | dispatches on the policy; the choice is the policy's, and it is the list length exactly when no block is large enough |
| FreeList.FreeListAllocator.Allocate | src/core/allocators/freelist_allocator.hpp:98-169 | null exactly for no region, size 0, an overflowing request or no block large enough, and then nothing changes; otherwise the policy's block is carved, the pointer is just past its header, the pointer is live, the invariant holds and the stats and history record it |
| FreeList.FreeListAllocator.Deallocate | src/core/allocators/freelist_allocator.hpp:175-202 | a pointer not owned changes nothing; an owned one has its block reinserted and coalesced, its header dropped, `header.size - 16` recorded and the fragmentation updated |
| FreeList.FreeListAllocator.Reset | src/core/allocators/freelist_allocator.hpp:207-215 | back to one free block spanning the region, zero stats, empty history |
| FreeList.FreeListAllocator.SetPolicy | src/core/allocators/freelist_allocator.hpp:247-257 | only the policy changes |
| Stack.Below | src/core/allocators/stack_allocator.hpp:162-196 | the headers left are exactly those ending at or below the new top |
| Stack.AdjustmentAligns | src/core/allocators/stack_allocator.hpp:107-109 | for a power-of-two alignment the padding is below the alignment and brings the address to a multiple of it |
| Stack.CapacityCheckAgrees | src/core/allocators/stack_allocator.hpp:112-113 | when nothing wraps, the written capacity check is the unbounded Fits |
| Stack.CapacityCheckWraps | src/core/allocators/stack_allocator.hpp:112-113 | as written, a size of `SIZE_MAX - 23` passes the check on an empty 4096-byte stack |
| Stack.PushChained | src/core/allocators/stack_allocator.hpp:118-126 | a push keeps the header chain intact |
| Stack.PopChained | src/core/allocators/stack_allocator.hpp:162-170 | popping the top keeps the chain intact, and the old previous offset is the top block's start |
| Stack.PushFits | src/core/allocators/stack_allocator.hpp:112-126 | a push that passes the check keeps the top within the region and puts its header at the top |
| Stack.PushThenPop | src/core/allocators/stack_allocator.hpp:118-170 | popping the block just pushed restores both offsets and the headers |
| Stack.RolledBackChained | src/core/allocators/stack_allocator.hpp:190-205 | rolling back to a marker at or below the top keeps the chain intact |
| Stack.StackAllocator.constructor | src/core/allocators/stack_allocator.hpp:48-61 | empty stack, zero stats, invariant established |
| Stack.StackAllocator.Allocate | src/core/allocators/stack_allocator.hpp:100-134 | null exactly for no region, size 0 or not fitting, with no change; otherwise the state is the push, the pointer is just past the padded header, and the stats and history record it |
| Stack.StackAllocator.Deallocate | src/core/allocators/stack_allocator.hpp:140-174 | a block not at the top changes nothing; the top block is popped and its size recorded |
| Stack.StackAllocator.GetMarker | src/core/allocators/stack_allocator.hpp:180-182 | the marker is within the region |
| Stack.StackAllocator.RollbackToMarker | src/core/allocators/stack_allocator.hpp:190-211 | a marker above the top changes nothing; otherwise the top is the marker, previous offset 0, available is total minus marker, and the bytes counter is overwritten when anything was freed |
| Stack.StackAllocator.Reset | src/core/allocators/stack_allocator.hpp:216-221 | both offsets 0, no headers, zero stats, empty history |
| Stack.StackAllocator.Owns | src/core/allocators/stack_allocator.hpp:228-233 | every live pointer is owned; an owned pointer is non-null in a present region |
| Stack.StackAllocator.Available | src/core/allocators/stack_allocator.hpp:239-241 | the bytes above the top |
| Stack.StackAllocator.Used | src/core/allocators/stack_allocator.hpp:247-249 | used plus available is the region size |
| Pool.Slots | src/core/allocators/pool_allocator.hpp:263-272 | the list of slots lo, lo + 1, …, hi - 1, without repeats |
| Pool.PoolTotalSizeWraps | src/core/allocators/pool_allocator.hpp:55 | 2^32 blocks of 2^32 bytes give a total size of 0 |
| Pool.PoolAllocator.Owns | src/core/allocators/pool_allocator.hpp:169-174 | an owned pointer is non-null in a present region and falls in one of the blocks |
| Pool.PoolAllocator.constructor | src/core/allocators/pool_allocator.hpp:45-67 | block size is `align_size(requested, alignment)`; with a region the list is slots 0..count-1 in order; nothing allocated; zero stats |
| Pool.PoolAllocator.InitializeFreeList | src/core/allocators/pool_allocator.hpp:263-272 | the countdown loop leaves slots 0, 1, …, count-1 in that order |
| Pool.PoolAllocator.Allocate | src/core/allocators/pool_allocator.hpp:108-129 | null exactly for no region, an empty list or a size above the block size, with no change; otherwise the head slot's block, the list loses its head, the counter grows and a whole block is recorded |
| Pool.PoolAllocator.Deallocate | src/core/allocators/pool_allocator.hpp:135-150 | null or a pointer outside the region changes nothing; otherwise its slot goes on the front of the list and a block is deallocated |
| Pool.PoolAllocator.Reset | src/core/allocators/pool_allocator.hpp:155-162 | the initial list again, nothing allocated, zero stats, empty history |
| Pool.PoolAllocator.FreeBlocks | src/core/allocators/pool_allocator.hpp:180-182 | with a region, the length of the free list |
| Pool.PoolAllocator.AllocatedBlocks | src/core/allocators/pool_allocator.hpp:188-190 | allocated plus free blocks is the block count |
| Pool.PoolAllocator.Available | src/core/allocators/pool_allocator.hpp:212-214 | free blocks times block size, and with the bytes in use it makes up the region |
| Pool.PoolAllocator.GetAllocationGrid | src/core/allocators/pool_allocator.hpp:228-242 | one flag per block, false exactly for the slots on the free list |
| Pool.StatsAfterAllocation | src/core/allocators/pool_allocator.hpp:119-126 | a whole block allocated adds one block to both counters without wrapping |
| Pool.StatsAfterDeallocation | src/core/allocators/pool_allocator.hpp:144-149 | a whole block freed removes one block from both counters |
| Standard.EffectiveAlignment | src/core/allocators/standard_allocator.hpp:49-51 | always a power of two, and the request itself when that is one |
| Standard.ReleaseAll | src/core/allocators/standard_allocator.hpp:115-125 | every tracked address is released exactly once, with the form of delete its alignment calls for |
| Standard.StandardAllocator.constructor | src/core/allocators/standard_allocator.hpp:31-32 | empty table, zero stats |
| Standard.StandardAllocator.Allocate | src/core/allocators/standard_allocator.hpp:47-78 | null for size 0; a platform failure changes nothing; a success enters `{size, effective alignment}` in the table and records it |
| Standard.StandardAllocator.Deallocate | src/core/allocators/standard_allocator.hpp:84-110 | an untracked pointer changes nothing; a tracked one is released with the matching form, erased, and its tracked size deallocated |
| Standard.StandardAllocator.Reset | src/core/allocators/standard_allocator.hpp:115-130 | everything tracked is released once with the matching form; table, stats and history are cleared |
| Standard.StandardAllocator.Owns | src/core/allocators/standard_allocator.hpp:137-139 | a tracked pointer is never null |
| Standard.StandardAllocator.Available | src/core/allocators/standard_allocator.hpp:145-147 | always SIZE_MAX, never below the base default |
| Scenarios.FreeListRoundTrip | src/core/allocators/freelist_allocator.hpp:66-202 | under every policy, 100 bytes from a fresh 4096-byte region come back just past the first header, and freeing them restores one 4096-byte block with no fragmentation |
| Scenarios.FitPoliciesDiffer | src/core/allocators/freelist_allocator.hpp:317-383 | on blocks of 50, 200 and 120 bytes and a request of 100, first fit and worst fit take the second block and best fit the third |
| Scenarios.StackLifo | src/core/allocators/stack_allocator.hpp:100-174 | two pushes on a fresh stack; freeing the lower block first is ignored; freeing in LIFO order empties the stack |
| Scenarios.PoolReuse | src/core/allocators/pool_allocator.hpp:108-272 | a fresh pool hands out slots 0 and 1, and a freed slot is the next one handed out |

## Left out

- FreeList.FreeListAllocator.constructor: requires a non-null region to hold at least 16 bytes. For a smaller region the source writes the 16-byte record out of bounds, which the model cannot represent; FreeBlocks.SmallRegionOverruns records the overrun, as Findings says.
- FreeBlocks.ZeroRequestBreaksTiling: the header overlaying a free block's record is modelled only by `Arena.CarvedAsWritten`. The allocator itself keeps headers and records apart by offset, and FreeBlocks.CarvedAsWrittenAgrees shows that the two agree for every request it lets through.
- Timing, the average-time fields of the statistics and every `double` percentage: wall-clock reads and floating point.
- Allocator names, move constructors and the `Timer`, benchmark, statistics, engine, binding and console code.
- The platform calls (`aligned_alloc`, `_aligned_malloc`, `operator new/delete`, `free`). A region start or a platform address is a parameter, with 0 for failure. Releases are returned as values.
- The bytes of the region. Headers and free-block records are offset-keyed values, so a pointer that was never handed out cannot be modelled.
- FreeList.FreeListAllocator.Deallocate: requires that an owned pointer be live, because the source reads its header. Its statistics are stated as the update the source performs; the statistics invariants are not claimed, because allocate records `size` while deallocate records `header.size - 16`.
- Stack.StackAllocator.Deallocate: requires that a non-null pointer be live, for the same reason.
- Pool.PoolAllocator.Deallocate: requires that an owned pointer be an allocated block's start. A pointer into the middle of a block, or one freed twice, is not modelled.
- Stack.StackAllocator.RollbackToMarker: the statistics invariants are not claimed after a rollback, which overwrites the bytes counter with an offset and leaves the counts alone. The previous-offset chain is dropped, as in the source.
- Alignment of returned addresses is not claimed for the free-list and stack allocators. The free-list allocator never offsets the pointer, and the stack aligns the header rather than the payload.
- FreeList.FreeListAllocator.Available: returns the unbounded sum. The allocator's invariant keeps it below the region size, so the `size_t` sum cannot wrap.
- FreeList.FreeListAllocator.LargestFreeBlock: returns an unbounded value, for the same reason.
- Stack.StackAllocator.Used: returns an unbounded value, for the same reason.
- Standard.StandardAllocator.Owns: states only that a tracked pointer is non-null. Its body is the table lookup itself.
- Pool: a block size below 8 bytes, too small for the intrusive `next` pointer, is not ruled out. The list is a sequence of slot numbers, so such a pool behaves as if the link were stored elsewhere.

## Findings

| source | as written | input that shows it | evidently intended | confidence | as-written member | corrected member |
|---|---|---|---|---|---|---|
| src/core/allocators/freelist_allocator.hpp:66-71 | the constructor writes a `FreeBlock` record at the start of any region `aligned_alloc` returns | a region of 8 bytes: the 16-byte record is written past its end | accept only regions that can hold a free-block record | not executed | FreeBlocks.SmallRegionOverruns | FreeList.FreeListAllocator.constructor |
| src/core/allocators/freelist_allocator.hpp:105-106 | `total = align_size(size + sizeof(AllocationHeader), alignment)` wraps on `size_t` | size `SIZE_MAX - 15` (or alignment 0) gives total 0. A 0-byte block is then "found" and split at its own address, so the header write overwrites its record with size 0 and a null `next`: that block and every block after it are lost to the list | reject a request whose padded length overflows | not executed | FreeBlocks.RequestSizeWraps, FreeBlocks.ZeroRequestBreaksTiling, FreeBlocks.ZeroRequestCutsList | FreeBlocks.RequestSize, FreeList.FreeListAllocator.Allocate |
| src/core/allocators/stack_allocator.hpp:112-113 | `m_current_offset + adjustment + sizeof(header) + size > m_total_size` computed on `size_t` | size `SIZE_MAX - 23` on an empty 4096-byte stack: the sum wraps to 0 and the check passes | the block must fit in the region | not executed | Stack.CapacityCheckWraps | Stack.StackAllocator.Allocate |
| src/core/allocators/pool_allocator.hpp:55 | `m_total_size = m_block_size * m_block_count` wraps on `size_t` | 2^32 blocks of 2^32 bytes: total size 0, yet 2^32 blocks are threaded onto the list | the region must hold every block | not executed | Pool.PoolTotalSizeWraps | Pool.PoolAllocator.constructor |
