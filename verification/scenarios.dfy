/**
 * Concrete runs of the allocators, worked out from their contracts alone:
 * the usage the allocators' own examples walk through.
 */
module Scenarios {
  import opened Words
  import opened Base
  import FB = FreeBlocks
  import FL = FreeList
  import Stack
  import Pool

  /** 16 is a power of two. */
  lemma SixteenIsPowerOfTwo()
    ensures IsPowerOfTwo(16)
  {
    PowerOfTwoOfPow2(4);
    assert Pow2(4) == 16;
  }

  /**
   * A 4 KiB free-list region: a 100-byte request (116 with its header,
   * rounded to 128) is served at the start of the region, and freeing it
   * leaves one free block spanning the region again, under every policy.
   */
  method FreeListRoundTrip(policy: FB.FitPolicy) returns (ptr: nat, free: seq<FB.FreeBlock>, fragmentation: u64)
    ensures ptr == 0x1_0000 + 16
    ensures free == [FB.FreeBlock(0, 4096)]
    ensures fragmentation == 0
  {
    var a := new FL.FreeListAllocator(4096, policy, 0x1_0000);
    ptr := AllocateFirst(a);
    a.Deallocate(ptr);
    FB.WholeRoundTrip(4096, 128);
    free := a.freeList;
    FB.OneBlockNotFragmented(free);
    fragmentation := a.base.stats.fragmentationBytes;
  }

  /** The 100-byte request of the free-list scenario, served from the fresh region's one block. */
  method AllocateFirst(a: FL.FreeListAllocator) returns (ptr: nat)
    requires a.Valid() && a.memory == 0x1_0000 && a.base.totalSize == 4096
    requires a.State() == FB.Whole(4096)
    modifies a, a.base
    ensures a.Valid() && a.memory == 0x1_0000 && a.base.totalSize == 4096
    ensures a.State() == FB.Whole(4096).Carved(0, 128)
    ensures ptr == 0x1_0000 + 16 && a.Live(ptr)
  {
    SixteenIsPowerOfTwo();
    assert !FB.RequestOverflows(100, 16);
    assert FB.RequestSize(100, 16) == 128;
    assert a.freeList[0].size >= 128;
    ptr := a.Allocate(100, 16);
    var k: nat :| FB.ChosenAt(a.policy, FB.Whole(4096).free, 128, k) && k < 1
      && a.State() == FB.Whole(4096).Carved(k, 128) && ptr == 0x1_0000 + FB.Whole(4096).free[k].offset + 16;
    assert k == 0;
  }

  /**
   * The three policies on free blocks of 50, 200 and 120 bytes and a request
   * of 100: first fit takes the 200-byte block, best fit the 120-byte one,
   * worst fit the 200-byte one.
   */
  lemma FitPoliciesDiffer(first: nat, best: nat, worst: nat)
    requires
      var fl := [FB.FreeBlock(0, 50), FB.FreeBlock(64, 200), FB.FreeBlock(512, 120)];
      && FB.ChosenAt(FB.FirstFit, fl, 100, first)
      && FB.ChosenAt(FB.BestFit, fl, 100, best)
      && FB.ChosenAt(FB.WorstFit, fl, 100, worst)
    ensures first == 1 && best == 2 && worst == 1
  {
    var fl := [FB.FreeBlock(0, 50), FB.FreeBlock(64, 200), FB.FreeBlock(512, 120)];
    assert FB.FirstFitAt(fl, 100, 1);
    FB.ChoiceUnique(FB.FirstFit, fl, 100, first, 1);
    assert FB.BestFitAt(fl, 100, 2);
    FB.ChoiceUnique(FB.BestFit, fl, 100, best, 2);
    assert FB.WorstFitAt(fl, 100, 1);
    FB.ChoiceUnique(FB.WorstFit, fl, 100, worst, 1);
  }

  /** The padding up to a 16-byte boundary is the distance to the next multiple of 16. */
  lemma PaddingTo16(address: u64, padding: nat)
    requires address + 15 < WORD && padding < 16 && (address + padding) % 16 == 0
    ensures Stack.Adjustment(address, 16) == padding
  {
    SixteenIsPowerOfTwo();
    Stack.AdjustmentAligns(address, 16);
    var a := Stack.Adjustment(address, 16);
    SamePadding(address, a, padding);
  }

  /** Two paddings below 16 that both reach a multiple of 16 are the same. */
  lemma SamePadding(address: int, a: int, b: int)
    requires 0 <= a < 16 && 0 <= b < 16
    requires (address + a) % 16 == 0 && (address + b) % 16 == 0
    ensures a == b
  {
    var q, r := (address + a) / 16, (address + b) / 16;
    assert address + a == 16 * q;
    assert address + b == 16 * r;
    assert a - b == 16 * (q - r);
  }

  /** The stack states of the scenario: one block of 100 bytes, then one of 50 above it. */
  lemma StackStates()
    ensures Stack.EMPTY.Push(100, 0).currentOffset == 124
    ensures Stack.EMPTY.Push(100, 0).Chained()
    ensures Stack.EMPTY.Push(100, 0).Push(50, 4).currentOffset == 202
    ensures Stack.EMPTY.Push(100, 0).Push(50, 4).Chained()
    ensures 0 in Stack.EMPTY.Push(100, 0).Push(50, 4).headers
    ensures Stack.End(Stack.EMPTY.Push(100, 0).Push(50, 4).headers, 0) == 124
    ensures 128 in Stack.EMPTY.Push(100, 0).Push(50, 4).headers
    ensures Stack.EMPTY.Push(100, 0).Push(50, 4).Pop(128) == Stack.EMPTY.Push(100, 0)
    ensures 0 in Stack.EMPTY.Push(100, 0).headers
    ensures Stack.EMPTY.Push(100, 0).Pop(0) == Stack.EMPTY
  {
    var s1 := Stack.EMPTY.Push(100, 0);
    Stack.PushFits(Stack.EMPTY, 100, 0, 1024);
    Stack.PushFits(s1, 50, 4, 1024);
    Stack.PushThenPop(s1, 50, 4);
    Stack.PushThenPop(Stack.EMPTY, 100, 0);
  }

  /** The two pushes of the stack scenario. */
  method PushTwo(s: Stack.StackAllocator) returns (first: nat, second: nat)
    requires s.Valid() && s.State() == Stack.EMPTY && s.base.totalSize == 1024
    requires s.memory != 0 && s.memory % 16 == 0
    modifies s, s.base
    ensures s.Valid() && s.State() == Stack.EMPTY.Push(100, 0).Push(50, 4)
    ensures first == s.memory + 24 && second == s.memory + 128 + 24
  {
    PaddingTo16(s.memory, 0);
    PaddingTo16(s.memory + 124, 4);
    StackStates();
    first := s.Allocate(100, 16);
    assert s.State() == Stack.EMPTY.Push(100, 0);
    second := s.Allocate(50, 16);
  }

  /** The three frees of the stack scenario: the lower block first, which stays, then LIFO order. */
  method PopInOrder(s: Stack.StackAllocator)
    requires s.Valid() && s.State() == Stack.EMPTY.Push(100, 0).Push(50, 4) && s.memory != 0
    modifies s, s.base
    ensures s.Valid() && s.State() == Stack.EMPTY
  {
    StackStates();
    var first, second := s.memory + 24, s.memory + 128 + 24;
    assert !s.IsTop(first);
    s.Deallocate(first);
    assert s.Live(second);
    s.Deallocate(second);
    assert s.State() == Stack.EMPTY.Push(100, 0);
    s.Deallocate(first);
  }

  /**
   * A 1 KiB stack at a 16-byte aligned address: two blocks pushed, the lower
   * one is not freed while the upper one is live, and freeing them in LIFO
   * order empties the stack.
   */
  method StackLifo(region: nat) returns (used: nat, first: nat, second: nat)
    requires region != 0 && region % 16 == 0 && region + 1024 < WORD
    ensures first == region + 24 && second == region + 128 + 24
    ensures used == 0
  {
    var s := new Stack.StackAllocator(1024, 16, region);
    first, second := PushTwo(s);
    PopInOrder(s);
    used := s.Used();
  }

  /** The first two allocations of a fresh pool take slots 0 and 1. */
  method TakeTwo(p: Pool.PoolAllocator) returns (first: nat, second: nat)
    requires p.Valid() && p.memory != 0 && p.blockSize > 0 && p.blockCount >= 2
    requires p.freeList == Pool.Slots(0, p.blockCount)
    modifies p, p.base
    ensures p.Valid() && p.freeList == Pool.Slots(2, p.blockCount)
    ensures first == p.memory && second == p.memory + p.blockSize
  {
    first := p.Allocate(p.blockSize, 16);
    assert p.freeList == Pool.Slots(1, p.blockCount);
    second := p.Allocate(p.blockSize, 16);
  }

  /**
   * A fresh pool of at least two blocks hands out slot 0 and then slot 1;
   * slot 0 given back is the next one handed out again.
   */
  method PoolReuse(p: Pool.PoolAllocator) returns (first: nat, second: nat, third: nat)
    requires p.Valid() && p.memory != 0 && p.blockSize > 0 && p.blockCount >= 2
    requires p.freeList == Pool.Slots(0, p.blockCount)
    modifies p, p.base
    ensures first == p.memory && second == p.memory + p.blockSize
    ensures third == first
  {
    first, second := TakeTwo(p);
    assert p.Live(first);
    Pool.MulMonotone(1, p.blockCount, p.blockSize);
    assert p.base.totalSize == p.blockSize * p.blockCount;
    assert p.Owns(first);
    p.Deallocate(first);
    assert p.freeList[0] == 0;
    third := p.Allocate(p.blockSize, 16);
  }
}
