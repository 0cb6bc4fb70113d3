/**
 * FreeListAllocator: a region carved into variable-size allocations, each
 * behind a 16-byte header, with the unused bytes kept on a free list in
 * address order. A fit policy chooses the block for each request; freeing
 * puts the bytes back on the list and merges neighbours.
 *
 * The region itself comes from the platform: its address (0 when the
 * platform allocation failed) is a parameter of the constructor. Offsets in
 * the free list and the headers are relative to it.
 */
module FreeList {
  import opened Words
  import opened Base
  import opened FreeBlocks

  class FreeListAllocator {
    /** m_memory: the region's address, 0 when the platform allocation failed. */
    const memory: nat
    const base: BaseAllocator
    /** m_policy. */
    var policy: FitPolicy
    /** m_free_list, head first. */
    var freeList: seq<FreeBlock>
    /** The headers of the live allocations, by offset. */
    var headers: Headers

    function State(): Arena
      reads this
    {
      Arena(freeList, headers)
    }

    /**
     * Without a region there is nothing on the list and nothing live; with
     * one, the region fits in the address space and is tiled by the free
     * blocks and the live allocations.
     */
    ghost predicate Valid()
      reads this
    {
      && base as object != this
      && (memory == 0 ==> freeList == [] && headers == map[])
      && (memory != 0 ==>
            && FREE_BLOCK_SIZE <= base.totalSize && memory + base.totalSize < WORD
            && State().Valid(base.totalSize))
    }

    /**
     * The constructor: one free block spanning the region, when there is one.
     * The block's record is written at the start of the region, so a region
     * must have room for it.
     */
    constructor(size: u64, policy: FitPolicy, region: nat)
      requires region == 0 || (FREE_BLOCK_SIZE <= size && region + size < WORD)
      ensures Valid() && fresh(base)
      ensures base.totalSize == size && this.policy == policy && memory == region
      ensures State() == (if region == 0 then Arena([], map[]) else Whole(size))
      ensures base.stats == NO_STATS && base.history == []
    {
      base := new BaseAllocator(size);
      this.policy := policy;
      memory := region;
      if region == 0 {
        freeList := [];
      } else {
        freeList := [FreeBlock(0, size)];
      }
      headers := map[];
      new;
      if region != 0 {
        WholeValid(size);
      }
    }

    /** A pointer this allocator handed out and has not taken back: its header is live. */
    predicate Live(ptr: nat)
      reads this
    {
      memory != 0 && ptr >= memory + HEADER_SIZE && ptr - memory - HEADER_SIZE in headers
    }

    /** owns: a non-null address inside the region. Every live pointer is owned. */
    function Owns(ptr: nat): (r: bool)
      reads this
      ensures Valid() && Live(ptr) ==> r
      ensures r ==> memory != 0 && memory <= ptr
    {
      memory != 0 && ptr != 0 && memory <= ptr < memory + base.totalSize
    }

    /** find_first_fit: the first block of at least `request` bytes. */
    method FindFirstFit(request: nat) returns (k: nat)
      ensures FirstFitAt(freeList, request, k)
    {
      k := 0;
      while k < |freeList| && freeList[k].size < request
        invariant k <= |freeList|
        invariant forall i :: 0 <= i < k ==> freeList[i].size < request
      {
        k := k + 1;
      }
    }

    /** find_best_fit: keep the first block seen that fits and is smaller than every earlier pick. */
    method FindBestFit(request: nat) returns (k: nat)
      ensures BestFitAt(freeList, request, k)
    {
      k := |freeList|;
      var bestSize: nat := SIZE_MAX;
      var i := 0;
      while i < |freeList|
        invariant i <= |freeList| && k <= |freeList|
        invariant k == |freeList| ==>
          bestSize == SIZE_MAX && forall j :: 0 <= j < i ==> !BestCandidate(freeList[j], request)
        invariant k < |freeList| ==>
          && k < i && bestSize == freeList[k].size && BestCandidate(freeList[k], request)
          && (forall j :: 0 <= j < i && BestCandidate(freeList[j], request) ==> freeList[k].size <= freeList[j].size)
          && (forall j :: 0 <= j < k && BestCandidate(freeList[j], request) ==> freeList[k].size < freeList[j].size)
      {
        if freeList[i].size >= request && freeList[i].size < bestSize {
          k := i;
          bestSize := freeList[i].size;
        }
        i := i + 1;
      }
    }

    /** find_worst_fit: keep the first block seen that fits and is larger than every earlier pick. */
    method FindWorstFit(request: nat) returns (k: nat)
      ensures WorstFitAt(freeList, request, k)
    {
      k := |freeList|;
      var worstSize: nat := 0;
      var i := 0;
      while i < |freeList|
        invariant i <= |freeList| && k <= |freeList|
        invariant k == |freeList| ==>
          worstSize == 0 && forall j :: 0 <= j < i ==> !WorstCandidate(freeList[j], request)
        invariant k < |freeList| ==>
          && k < i && worstSize == freeList[k].size && WorstCandidate(freeList[k], request)
          && (forall j :: 0 <= j < i && WorstCandidate(freeList[j], request) ==> freeList[j].size <= freeList[k].size)
          && (forall j :: 0 <= j < k && WorstCandidate(freeList[j], request) ==> freeList[j].size < freeList[k].size)
      {
        if freeList[i].size >= request && freeList[i].size > worstSize {
          k := i;
          worstSize := freeList[i].size;
        }
        i := i + 1;
      }
    }

    /** insert_free_block: link the block in at its place in address order. */
    method InsertFreeBlock(b: FreeBlock)
      modifies this
      ensures freeList == InsertSorted(old(freeList), b)
      ensures headers == old(headers) && policy == old(policy)
    {
      var fl := freeList;
      if fl == [] || b.offset < fl[0].offset {
        freeList := [b] + fl;
        return;
      }
      var i := 0;
      assert fl[..1] == [fl[0]];
      while i + 1 < |fl| && fl[i + 1].offset < b.offset
        invariant unchanged(this) && i < |fl|
        invariant InsertSorted(fl, b) == fl[..i + 1] + InsertAfter(fl[i + 1..], b)
      {
        InsertWalkStep(fl, i, b);
        i := i + 1;
      }
      InsertWalkDone(fl, i, b);
      freeList := fl[..i + 1] + [b] + fl[i + 1..];
    }

    /** coalesce: merge every block with the blocks that follow it directly. */
    method Coalesce()
      modifies this
      ensures freeList == Coalesced(old(freeList))
      ensures headers == old(headers) && policy == old(policy)
    {
      var fl := freeList;
      var i := 0;
      assert fl[..0] + fl[0..] == fl;
      while i + 1 < |fl|
        invariant unchanged(this) && i <= |fl| && (fl != [] ==> i < |fl|)
        invariant Coalesced(freeList) == fl[..i] + Coalesced(fl[i..])
        decreases |fl|, |fl| - i
      {
        if fl[i].End() == fl[i + 1].offset {
          CoalesceMergeStep(fl, i);
          fl := fl[..i] + [Merge(fl[i], fl[i + 1])] + fl[i + 2..];
        } else {
          CoalesceSkipStep(fl, i);
          i := i + 1;
        }
      }
      assert fl[..i] + fl[i..] == fl;
      freeList := fl;
    }

    /** available: the sum of the free block sizes. */
    method Available() returns (total: nat)
      ensures total == FreeBytes(freeList)
    {
      total := 0;
      var i := 0;
      while i < |freeList|
        invariant i <= |freeList|
        invariant total + FreeBytes(freeList[i..]) == FreeBytes(freeList)
      {
        assert freeList[i..][1..] == freeList[i + 1..];
        total := total + freeList[i].size;
        i := i + 1;
      }
    }

    /** free_block_count: one step per link, from the head until `next` is null. */
    method FreeBlockCount() returns (count: nat)
      ensures count == |freeList|
    {
      count := 0;
      var current := freeList;
      while current != []
        invariant count <= |freeList| && current == freeList[count..]
      {
        count := count + 1;
        current := current[1..];
      }
    }

    /** largest_free_block: the size of the largest block, 0 for an empty list. */
    method LargestFreeBlock() returns (largest: nat)
      ensures largest == Largest(freeList)
    {
      largest := 0;
      var i := 0;
      while i < |freeList|
        invariant i <= |freeList|
        invariant Max(largest, Largest(freeList[i..])) == Largest(freeList)
      {
        assert freeList[i..][1..] == freeList[i + 1..];
        if freeList[i].size > largest {
          largest := freeList[i].size;
        }
        i := i + 1;
      }
    }

    /** update_fragmentation: record the free bytes outside the largest block. */
    method UpdateFragmentation()
      requires Valid()
      modifies base
      ensures base.stats == old(base.stats).(fragmentationBytes := Fragmentation(freeList))
      ensures base.history == old(base.history)
    {
      var free := Available();
      var largest := LargestFreeBlock();
      assert free <= base.totalSize by {
        if memory != 0 {
          assert State().Valid(base.totalSize);
        }
      }
      if free > 0 && largest < free {
        base.SetFragmentationBytes(free - largest);
      } else {
        base.SetFragmentationBytes(0);
      }
    }

    /** Every block of a valid region is below SIZE_MAX. */
    lemma BlocksBelowSizeMax()
      requires Valid()
      ensures forall i :: 0 <= i < |freeList| ==> freeList[i].size < SIZE_MAX
    {
      forall i | 0 <= i < |freeList|
        ensures freeList[i].size < SIZE_MAX
      {
        assert Placed(freeList[i], base.totalSize, headers);
      }
    }

    /** The block the current policy picks for a request, |freeList| for none. */
    method Choose(request: nat) returns (k: nat)
      requires Valid() && request > 0
      ensures ChosenAt(policy, freeList, request, k)
      ensures k == |freeList| <==> forall i :: 0 <= i < |freeList| ==> freeList[i].size < request
    {
      match policy {
        case FirstFit => k := FindFirstFit(request);
        case BestFit => k := FindBestFit(request);
        case WorstFit => k := FindWorstFit(request);
      }
      BlocksBelowSizeMax();
      NoChoiceMeansNoFit(policy, freeList, request, k);
    }

    /** The split-or-take step of allocate and the header write, on the chosen block. */
    method CarveBlock(k: nat, request: nat)
      requires Valid() && memory != 0 && k < |freeList| && HEADER_SIZE < request <= freeList[k].size
      modifies this
      ensures Valid() && policy == old(policy)
      ensures State() == old(State()).Carved(k, request)
      ensures old(freeList)[k].offset in headers
    {
      CarvedValid(State(), base.totalSize, k, request);
      var block := freeList[k];
      var remaining := block.size - request;
      var consumed := request;
      if remaining >= FREE_BLOCK_SIZE + MIN_BLOCK_SIZE {
        freeList := freeList[..k] + [FreeBlock(block.offset + request, remaining)] + freeList[k + 1..];
      } else {
        consumed := block.size;
        freeList := freeList[..k] + freeList[k + 1..];
      }
      headers := headers[block.offset := AllocationHeader(consumed, 0)];
    }

    /**
     * allocate: null without a region, for a zero size, when the size
     * computation would overflow, or when the policy finds no block large
     * enough; otherwise the chosen block is carved, the header written, and
     * the address just past the header returned and recorded.
     */
    method Allocate(size: u64, alignment: u64) returns (ptr: nat)
      requires Valid()
      modifies this, base
      ensures Valid() && policy == old(policy)
      ensures ptr == 0 <==>
        || memory == 0 || size == 0 || RequestOverflows(size, alignment)
        || forall i :: 0 <= i < |old(freeList)| ==> old(freeList)[i].size < RequestSize(size, alignment)
      ensures ptr == 0 ==>
        State() == old(State()) && base.stats == old(base.stats) && base.history == old(base.history)
      ensures ptr != 0 ==>
        exists k: nat ::
          && ChosenAt(policy, old(freeList), RequestSize(size, alignment), k) && k < |old(freeList)|
          && State() == old(State()).Carved(k, RequestSize(size, alignment))
          && ptr == memory + old(freeList)[k].offset + HEADER_SIZE
      ensures ptr != 0 ==>
        && Live(ptr)
        && base.stats == old(base.stats).Allocated(size).(fragmentationBytes := Fragmentation(freeList))
        && base.history == old(base.history) + [AllocationInfo(ptr, size, alignment, 0, true)]
    {
      if memory == 0 || size == 0 || RequestOverflows(size, alignment) {
        return 0;
      }
      var request := RequestSize(size, alignment);
      var k := Choose(request);
      if k == |freeList| {
        return 0;
      }
      ghost var before := State();
      var offset := freeList[k].offset;
      CarveBlock(k, request);
      ptr := memory + offset + HEADER_SIZE;
      assert Live(ptr);
      assert State() == before.Carved(k, request);
      base.RecordAllocation(ptr, size, alignment);
      UpdateFragmentation();
    }

    /** The list work of deallocate: the header's bytes become a free block, inserted and coalesced. */
    method ReleaseBlock(h: nat)
      requires Valid() && memory != 0 && h in headers
      modifies this
      ensures Valid() && policy == old(policy)
      ensures State() == old(State()).Freed(h)
    {
      FreedValid(State(), base.totalSize, h);
      var size := headers[h].size;
      headers := headers - {h};
      InsertFreeBlock(FreeBlock(h, size));
      Coalesce();
    }

    /**
     * deallocate: null and addresses outside the region are ignored;
     * otherwise the allocation's bytes go back on the list, in address order,
     * the list is coalesced, and the payload size is recorded as freed.
     */
    method Deallocate(ptr: nat)
      requires Valid()
      requires !Owns(ptr) || Live(ptr)
      modifies this, base
      ensures Valid() && policy == old(policy)
      ensures !old(Owns(ptr)) ==>
        State() == old(State()) && base.stats == old(base.stats) && base.history == old(base.history)
      ensures old(Owns(ptr)) ==>
        && State() == old(State()).Freed(ptr - memory - HEADER_SIZE)
        && base.stats == old(base.stats)
             .Deallocated(Wrap(old(headers)[ptr - memory - HEADER_SIZE].size - HEADER_SIZE))
             .(fragmentationBytes := Fragmentation(freeList))
        && base.history == old(base.history)
    {
      if ptr == 0 || !Owns(ptr) {
        return;
      }
      assert Live(ptr);
      var h := ptr - memory - HEADER_SIZE;
      var size := headers[h].size;
      ReleaseBlock(h);
      base.RecordDeallocation(Wrap(size - HEADER_SIZE));
      UpdateFragmentation();
    }

    /** reset: one free block spanning the region again; statistics and history cleared. */
    method Reset()
      requires Valid()
      modifies this, base
      ensures Valid() && policy == old(policy)
      ensures State() == (if memory == 0 then Arena([], map[]) else Whole(base.totalSize))
      ensures base.stats == NO_STATS && base.history == []
    {
      if memory != 0 {
        freeList := [FreeBlock(0, base.totalSize)];
        headers := map[];
        WholeValid(base.totalSize);
      }
      base.ClearRecords();
    }

    /** set_policy. */
    method SetPolicy(p: FitPolicy)
      requires Valid()
      modifies this
      ensures Valid() && policy == p && State() == old(State())
    {
      policy := p;
    }
  }
}
