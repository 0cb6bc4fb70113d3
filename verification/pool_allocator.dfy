/**
 * PoolAllocator: one region cut into `blockCount` equal blocks of
 * `blockSize` bytes; a free list threaded through the free blocks hands them
 * out and takes them back in constant time, last freed first reused.
 *
 * The intrusive list of the C++ code (a `next` pointer stored in each free
 * block) is the sequence `freeList` of the free blocks' slot numbers, head
 * first: the block of slot i starts at `memory + i * blockSize`.
 */
module Pool {
  import opened Words
  import opened Base

  /** No slot number occurs twice. */
  predicate Distinct(s: seq<nat>)
  {
    forall i, j :: 0 <= i < j < |s| ==> s[i] != s[j]
  }

  /** The slots lo, lo + 1, ..., hi - 1 in order. */
  function Slots(lo: nat, hi: nat): (s: seq<nat>)
    ensures |s| == if lo <= hi then hi - lo else 0
    ensures forall i :: 0 <= i < |s| ==> s[i] == lo + i
    ensures Distinct(s)
    decreases hi - lo
  {
    if lo >= hi then [] else [lo] + Slots(lo + 1, hi)
  }

  /** m_total_size as the constructor computes it: the product wraps modulo 2^64. */
  function PoolTotalSize(blockSize: u64, blockCount: u64): u64
  {
    Wrap(blockSize * blockCount)
  }

  /**
   * The wrapped product loses the region: 2^32 blocks of 2^32 bytes give a
   * total size of 0, while initialize_free_list still threads 2^32 blocks.
   */
  lemma PoolTotalSizeWraps()
    ensures PoolTotalSize(0x1_0000_0000, 0x1_0000_0000) == 0
    ensures 0x1_0000_0000 * 0x1_0000_0000 == WORD
  {}

  /** A distinct list of slots below n that misses slot x has fewer than n entries. */
  lemma DistinctMissing(s: seq<nat>, n: nat, x: nat)
    requires Distinct(s) && x < n && x !in s
    requires forall i :: 0 <= i < |s| ==> s[i] < n
    ensures |s| < n
  {
    DistinctCard(s);
    RangeCard(n);
    assert Elements(s) <= SlotSet(n) - {x};
    SubsetCard(Elements(s), SlotSet(n) - {x});
  }

  function Elements(s: seq<nat>): set<nat>
  {
    set x | x in s
  }

  /** The set {0, ..., n - 1}. */
  function SlotSet(n: nat): (r: set<nat>)
    ensures forall x: nat :: x in r <==> x < n
  {
    if n == 0 then {} else SlotSet(n - 1) + {n - 1}
  }

  lemma {:induction false} DistinctCard(s: seq<nat>)
    requires Distinct(s)
    ensures |Elements(s)| == |s|
  {
    if s != [] {
      DistinctCard(s[1..]);
      assert Elements(s) == Elements(s[1..]) + {s[0]};
      assert s[0] !in Elements(s[1..]);
    }
  }

  lemma {:induction false} RangeCard(n: nat)
    ensures |SlotSet(n)| == n
  {
    if n > 0 {
      RangeCard(n - 1);
    }
  }

  lemma {:induction false} SubsetCard(a: set<nat>, b: set<nat>)
    requires a <= b
    ensures |a| <= |b|
    decreases |a|
  {
    if a != {} {
      var x :| x in a;
      SubsetCard(a - {x}, b - {x});
    }
  }

  lemma MulDivCancel(i: nat, b: nat)
    requires b > 0
    ensures i * b / b == i
  {
    DivModUnique(i * b, b, i, 0);
  }

  class PoolAllocator {
    /** align_size(block_size, alignment). */
    const blockSize: u64
    const blockCount: u64
    const alignment: u64
    /** Start of the region from aligned_alloc; 0 when it failed. */
    const memory: nat
    const base: BaseAllocator
    var freeList: seq<nat>
    var allocatedBlocks: nat

    /**
     * With a region, every block is either on the free list (once) or
     * allocated, and the statistics count exactly the allocated blocks.
     * Without one, nothing is free and nothing is allocated.
     */
    predicate Valid()
      reads this, base
    {
      && base as object != this
      && base.totalSize == PoolTotalSize(blockSize, blockCount)
      && BlocksValid()
      && StatsMatch()
    }

    /** The free list and the allocated count account for every block of the region. */
    predicate BlocksValid()
      reads this
    {
      && (memory == 0 ==> freeList == [] && allocatedBlocks == 0)
      && (memory != 0 ==>
            && memory + blockSize * blockCount <= WORD
            && |freeList| + allocatedBlocks == blockCount
            && Distinct(freeList)
            && (forall i :: 0 <= i < |freeList| ==> freeList[i] < blockCount))
    }

    /** The statistics count the allocated blocks and their bytes. */
    predicate StatsMatch()
      reads this, base
    {
      && base.stats.currentAllocations == allocatedBlocks
      && base.stats.currentBytesUsed == allocatedBlocks * blockSize
    }

    /** The block of a slot. */
    function BlockAddress(slot: nat): (r: nat)
      ensures r >= memory
    {
      memory + slot * blockSize
    }

    /** owns: the pointer lies inside the region. */
    function Owns(ptr: nat): (r: bool)
      reads base
      ensures r ==> memory != 0 && ptr != 0
      ensures r && base.totalSize == blockSize * blockCount ==> blockSize > 0 && (ptr - memory) / blockSize < blockCount
    {
      var r := memory != 0 && ptr != 0 && memory <= ptr < memory + base.totalSize;
      if r && base.totalSize == blockSize * blockCount then
        assert blockSize > 0;
        DivBelow(ptr - memory, blockSize, blockCount);
        r
      else
        r
    }

    /** A pointer the pool handed out and has not taken back: the start of an allocated block. */
    predicate Live(ptr: nat)
      reads this
    {
      && memory != 0 && blockSize > 0
      && memory <= ptr
      && (ptr - memory) % blockSize == 0
      && (ptr - memory) / blockSize < blockCount
      && (ptr - memory) / blockSize !in freeList
    }

    constructor(blockSizeRequest: u64, blockCount: u64, alignment: u64, region: nat)
      requires region == 0 || region + AlignSize(blockSizeRequest, alignment) * blockCount <= WORD
      ensures Valid() && fresh(base)
      ensures blockSize == AlignSize(blockSizeRequest, alignment)
      ensures this.blockCount == blockCount && this.alignment == alignment && memory == region
      ensures freeList == (if region == 0 then [] else Slots(0, blockCount))
      ensures allocatedBlocks == 0
      ensures base.stats == NO_STATS && base.history == []
    {
      blockSize := AlignSize(blockSizeRequest, alignment);
      this.blockCount := blockCount;
      this.alignment := alignment;
      memory := region;
      allocatedBlocks := 0;
      freeList := [];
      base := new BaseAllocator(PoolTotalSize(AlignSize(blockSizeRequest, alignment), blockCount));
      new;
      if region != 0 {
        InitializeFreeList();
      }
    }

    /** initialize_free_list: thread every block, from the last to the first, so that slot 0 is the head. */
    method InitializeFreeList()
      modifies this
      ensures freeList == Slots(0, blockCount)
      ensures allocatedBlocks == old(allocatedBlocks) && unchanged(base)
    {
      assert base as object != this;
      freeList := [];
      var i: nat := blockCount;
      while i > 0
        invariant i <= blockCount
        invariant freeList == Slots(i, blockCount)
        invariant allocatedBlocks == old(allocatedBlocks)
      {
        freeList := [i - 1] + freeList;
        i := i - 1;
      }
    }

    /**
     * allocate: pop the head block when there is a region, a free block, and
     * the request fits in a block; the statistics record a whole block.
     */
    method Allocate(size: u64, alignment: u64) returns (ptr: nat)
      requires Valid()
      modifies this, base
      ensures Valid()
      ensures ptr == 0 <==> memory == 0 || old(freeList) == [] || size > blockSize
      ensures ptr == 0 ==> freeList == old(freeList) && allocatedBlocks == old(allocatedBlocks)
      ensures ptr == 0 ==> base.stats == old(base.stats) && base.history == old(base.history)
      ensures ptr != 0 ==>
        && ptr == BlockAddress(old(freeList)[0])
        && freeList == old(freeList)[1..]
        && allocatedBlocks == old(allocatedBlocks) + 1
        && base.stats == old(base.stats).Allocated(blockSize)
        && base.history == old(base.history) + [AllocationInfo(ptr, blockSize, this.alignment, 0, true)]
      ensures ptr != 0 && blockSize > 0 ==> Live(ptr)
    {
      if memory == 0 || freeList == [] || size > blockSize {
        return 0;
      }
      var slot := freeList[0];
      StatsAfterAllocation(base.stats, allocatedBlocks, blockSize, blockCount, memory);
      freeList := freeList[1..];
      allocatedBlocks := allocatedBlocks + 1;
      ptr := BlockAddress(slot);
      base.RecordAllocation(ptr, blockSize, this.alignment);
      if blockSize > 0 {
        BlockSlot(memory, slot, blockSize);
      }
    }

    /**
     * deallocate: a pointer the pool owns goes back on the front of the free
     * list; anything else (null, or outside the region) is ignored. The
     * pointer must be one the pool handed out and has not taken back.
     */
    method Deallocate(ptr: nat)
      requires Valid()
      requires ptr == 0 || !Owns(ptr) || Live(ptr)
      modifies this, base
      ensures Valid()
      ensures ptr == 0 || !old(Owns(ptr)) ==>
        freeList == old(freeList) && allocatedBlocks == old(allocatedBlocks) && base.stats == old(base.stats)
      ensures ptr != 0 && old(Owns(ptr)) ==>
        && freeList == [(ptr - memory) / blockSize] + old(freeList)
        && allocatedBlocks == old(allocatedBlocks) - 1
        && base.stats == old(base.stats).Deallocated(blockSize)
      ensures base.history == old(base.history)
    {
      if ptr == 0 || !Owns(ptr) {
        return;
      }
      var slot := (ptr - memory) / blockSize;
      DistinctMissing(freeList, blockCount, slot);
      StatsAfterDeallocation(base.stats, allocatedBlocks, blockSize);
      freeList := [slot] + freeList;
      allocatedBlocks := allocatedBlocks - 1;
      base.RecordDeallocation(blockSize);
    }

    /** reset: rebuild the free list when there is a region; nothing is allocated and the records are cleared. */
    method Reset()
      requires Valid()
      modifies this, base
      ensures Valid()
      ensures freeList == (if memory == 0 then [] else Slots(0, blockCount))
      ensures allocatedBlocks == 0
      ensures base.stats == NO_STATS && base.history == []
    {
      if memory != 0 {
        InitializeFreeList();
        assert |freeList| == blockCount && Distinct(freeList);
        assert forall i :: 0 <= i < |freeList| ==> freeList[i] < blockCount;
      }
      allocatedBlocks := 0;
      base.ClearRecords();
    }

    /** free_blocks: the blocks not handed out, which are exactly the blocks on the free list when there is a region. */
    function FreeBlocks(): (r: u64)
      reads this, base
      ensures Valid() && memory != 0 ==> r == |freeList|
      ensures Valid() && memory == 0 ==> r == blockCount
    {
      Wrap(blockCount - allocatedBlocks)
    }

    /** allocated_blocks: the counter; with free_blocks it makes up the block count. */
    function AllocatedBlocks(): (r: nat)
      reads this, base
      ensures Valid() ==> r <= blockCount && r + FreeBlocks() == blockCount
    {
      allocatedBlocks
    }

    /**
     * available: the bytes of the free blocks. With a region, they and the
     * bytes in use make up the whole region.
     */
    function Available(): (r: u64)
      reads this, base
      ensures Valid() && memory != 0 ==> r == |freeList| * blockSize
      ensures Valid() && memory != 0 ==> r + base.stats.currentBytesUsed == blockSize * blockCount
    {
      var free := FreeBlocks();
      if Valid() && memory != 0 then
        assert free + allocatedBlocks == blockCount;
        assert free * blockSize + allocatedBlocks * blockSize == blockCount * blockSize;
        MulMonotone(free, blockCount, blockSize);
        Wrap(free * blockSize)
      else
        Wrap(free * blockSize)
    }

    /**
     * get_allocation_grid: one flag per block, true for allocated, false for
     * a block found on the free list. The block of a list entry is located by
     * dividing its offset by the block size.
     */
    method GetAllocationGrid() returns (grid: seq<bool>)
      requires Valid()
      requires blockSize > 0 || freeList == []
      ensures |grid| == blockCount
      ensures forall i :: 0 <= i < blockCount ==> (grid[i] <==> i !in freeList)
    {
      grid := seq(blockCount, i => true);
      var k := 0;
      while k < |freeList|
        invariant 0 <= k <= |freeList|
        invariant |grid| == blockCount
        invariant forall i :: 0 <= i < blockCount ==> (grid[i] <==> i !in freeList[..k])
      {
        var address := BlockAddress(freeList[k]);
        MulDivCancel(freeList[k], blockSize);
        var index := (address - memory) / blockSize;
        if index < blockCount {
          grid := grid[index := false];
        }
        assert freeList[..k + 1] == freeList[..k] + [freeList[k]];
        k := k + 1;
      }
      assert freeList[..k] == freeList;
    }
  }

  /** One more block in use: the counters of record_allocation do not wrap while the blocks fit in the region. */
  lemma StatsAfterAllocation(s: Stats, n: nat, blockSize: u64, blockCount: u64, memory: nat)
    requires s.currentAllocations == n && s.currentBytesUsed == n * blockSize
    requires n < blockCount && memory > 0 && memory + blockSize * blockCount <= WORD
    ensures s.Allocated(blockSize).currentAllocations == n + 1
    ensures s.Allocated(blockSize).currentBytesUsed == (n + 1) * blockSize
  {
    MulMonotone(n + 1, blockCount, blockSize);
    MulSucc(n, blockSize);
  }

  /** One block fewer in use. */
  lemma StatsAfterDeallocation(s: Stats, n: nat, blockSize: u64)
    requires s.currentAllocations == n && s.currentBytesUsed == n * blockSize && n > 0
    ensures s.Deallocated(blockSize).currentAllocations == n - 1
    ensures s.Deallocated(blockSize).currentBytesUsed == (n - 1) * blockSize
  {
    MulSucc(n - 1, blockSize);
  }

  /** The block of a slot starts a whole number of blocks into the region, and dividing gives the slot back. */
  lemma BlockSlot(memory: nat, slot: nat, blockSize: nat)
    requires blockSize > 0
    ensures (memory + slot * blockSize - memory) % blockSize == 0
    ensures (memory + slot * blockSize - memory) / blockSize == slot
  {
    DivModUnique(slot * blockSize, blockSize, slot, 0);
  }

  lemma MulSucc(n: nat, b: nat)
    ensures (n + 1) * b == n * b + b
  {}

  lemma MulMonotone(a: nat, b: nat, c: nat)
    requires a <= b
    ensures a * c <= b * c
  {}

  lemma DivBelow(d: nat, b: nat, n: nat)
    requires b > 0 && d < b * n
    ensures d / b < n
  {}
}
