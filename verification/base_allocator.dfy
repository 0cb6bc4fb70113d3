/**
 * The common part of every allocator (BaseAllocator): the allocation
 * statistics, the allocation history, the default `available`, and the two
 * alignment helpers all allocators share.
 *
 * The C++ class is abstract and the concrete allocators inherit from it; here
 * each allocator object holds one `BaseAllocator` object and updates it
 * through `RecordAllocation`, `RecordDeallocation` and `ClearRecords`, the
 * protected members the subclasses call.
 */
module Base {
  import opened Words

  /** `alignof(std::max_align_t)` on the 64-bit targets: the default alignment of `allocate`. */
  const MAX_ALIGN: u64 := 16

  /** is_power_of_two: `alignment > 0 && (alignment & (alignment - 1)) == 0`. */
  predicate IsPowerOfTwo(alignment: u64)
  {
    alignment > 0 && BitAnd(alignment, alignment - 1) == 0
  }

  /**
   * align_size: `(size + alignment - 1) & ~(alignment - 1)` on `size_t`.
   * The sum wraps modulo 2^64, and `~(alignment - 1)` is SIZE_MAX minus the
   * wrapped `alignment - 1`.
   */
  function AlignSize(size: u64, alignment: u64): (r: u64)
    ensures r <= Wrap(size + alignment - 1)
  {
    BitAnd(Wrap(size + alignment - 1), SIZE_MAX - Wrap(alignment - 1))
  }

  /**
   * The rounding align_size is meant to compute, on unbounded integers: the
   * least multiple of `alignment` that is at least `size`.
   */
  function AlignUp(size: nat, alignment: nat): (r: nat)
    requires alignment > 0
    ensures r % alignment == 0
    ensures size <= r < size + alignment
  {
    var y := size + alignment - 1;
    RoundDown(y, alignment);
    y / alignment * alignment
  }

  /**
   * For any non-zero alignment, power of two or not, align_size never rounds
   * below the size as long as the sum does not wrap: the mask only clears
   * bits of alignment - 1.
   */
  lemma AlignSizeAtLeast(size: u64, alignment: u64)
    requires alignment > 0 && size + alignment - 1 < WORD
    ensures size <= AlignSize(size, alignment)
  {
    var y, m := size + alignment - 1, alignment - 1;
    Pow2Values();
    AndComplement(y, m, 64);
  }

  /** Rounding down to a multiple: y / m * m is a multiple of m, at most y, and above y - m. */
  lemma RoundDown(y: nat, m: nat)
    requires m > 0
    ensures (y / m * m) % m == 0
    ensures y - m < y / m * m <= y
  {
    var q, r := y / m, y % m;
    assert y == m * q + r;
    assert q * m == m * q;
    DivModUnique(q * m, m, q, 0);
  }

  /** A power of two in the sense of is_power_of_two is 2^k for some k < 64. */
  lemma PowerOfTwoLog(v: u64) returns (k: nat)
    requires IsPowerOfTwo(v)
    ensures k < 64 && Pow2(k) == v
  {
    k := Log2(v);
    if k >= 64 {
      Pow2Monotone(64, k);
      Pow2Word(64);
    }
  }

  /** The exponent of a non-negative integer whose AND with its predecessor is zero. */
  lemma {:induction false} Log2(v: nat) returns (k: nat)
    requires v > 0 && BitAnd(v, v - 1) == 0
    ensures Pow2(k) == v
    decreases v
  {
    if v == 1 {
      k := 0;
    } else if v % 2 == 1 {
      OddAndPredecessor(v);
      assert false;
    } else {
      EvenAndPredecessor(v);
      var j := Log2(v / 2);
      k := j + 1;
    }
  }

  /** An odd v > 1 shares every bit but the lowest with v - 1. */
  lemma OddAndPredecessor(v: nat)
    requires v > 1 && v % 2 == 1
    ensures BitAnd(v, v - 1) == v - 1
  {
    assert (v - 1) / 2 == v / 2;
    AndSelf(v / 2);
  }

  /** For an even v, v & (v - 1) is twice (v / 2) & (v / 2 - 1). */
  lemma EvenAndPredecessor(v: nat)
    requires v > 0 && v % 2 == 0
    ensures v / 2 > 0 && BitAnd(v, v - 1) == 2 * BitAnd(v / 2, v / 2 - 1)
  {
    var h := v / 2;
    DivModUnique(v, 2, h, 0);
    DoubleAndPredecessor(h);
  }

  lemma DoubleAndPredecessor(h: nat)
    requires h > 0
    ensures BitAnd(2 * h, 2 * h - 1) == 2 * BitAnd(h, h - 1)
  {
    DivModUnique(2 * h, 2, h, 0);
    DivModUnique(2 * h - 1, 2, h - 1, 1);
  }

  /** Every 2^k below 2^64 passes is_power_of_two. */
  lemma PowerOfTwoOfPow2(k: nat)
    requires k < 64
    ensures Pow2(k) < WORD && IsPowerOfTwo(Pow2(k))
  {
    Pow2Word(k);
    Pow2AndPredecessor(k);
  }

  lemma {:induction false} Pow2AndPredecessor(k: nat)
    ensures BitAnd(Pow2(k), Pow2(k) - 1) == 0
  {
    if k > 0 {
      Pow2AndPredecessor(k - 1);
      assert (Pow2(k) - 1) / 2 == Pow2(k - 1) - 1;
    }
  }

  /**
   * For a power-of-two alignment, when `size + alignment - 1` does not wrap,
   * align_size is the rounding up to the next multiple of the alignment.
   */
  lemma AlignSizeRounds(size: u64, alignment: u64)
    requires IsPowerOfTwo(alignment)
    requires size + alignment - 1 < WORD
    ensures AlignSize(size, alignment) == AlignUp(size, alignment)
    ensures AlignSize(size, alignment) % alignment == 0
    ensures size <= AlignSize(size, alignment) < size + alignment
  {
    AlignSizeClearsLowBits(size, alignment);
    SubtractRemainder(size + alignment - 1, alignment);
  }

  lemma SubtractRemainder(y: nat, m: nat)
    requires m > 0
    ensures y - y % m == y / m * m
  {
    assert y == m * (y / m) + y % m;
  }

  /** Without wrap-around the mask of align_size subtracts the remainder modulo the alignment. */
  lemma AlignSizeClearsLowBits(size: u64, alignment: u64)
    requires IsPowerOfTwo(alignment)
    requires size + alignment - 1 < WORD
    ensures AlignSize(size, alignment) == (size + alignment - 1) - (size + alignment - 1) % alignment
  {
    var k := PowerOfTwoLog(alignment);
    Pow2Word(64);
    assert SIZE_MAX - Wrap(alignment - 1) == Pow2(64) - Pow2(k);
    AndClearsLowBits(size + alignment - 1, 64, k);
  }

  /** align_size wraps to 0 when the rounded size does not fit: SIZE_MAX rounded to 16 gives 0. */
  lemma AlignSizeWraps()
    ensures AlignSize(SIZE_MAX, 16) == 0
  {
    Pow2Word(64);
    assert Pow2(4) == 16;
    assert Wrap(SIZE_MAX + 16 - 1) == 14;
    AndClearsLowBits(14, 64, 4);
  }

  /** AllocationStats without the two floating-point timing averages. */
  datatype Stats = Stats(
    totalAllocations: u64,
    totalDeallocations: u64,
    currentAllocations: u64,
    totalBytesAllocated: u64,
    currentBytesUsed: u64,
    peakBytesUsed: u64,
    fragmentationBytes: u64)
  {
    /** The live count is the difference of the two totals (modulo 2^64). */
    predicate CountsAgree()
    {
      currentAllocations == Wrap(totalAllocations - totalDeallocations)
    }

    /** Bytes in use never exceed the peak, and the peak never exceeds the bytes ever handed out. */
    predicate BytesOrdered()
    {
      currentBytesUsed <= peakBytesUsed <= totalBytesAllocated
    }

    /**
     * The counters after record_allocation of `size` bytes. The peak is at
     * least the bytes in use afterwards, whatever wraps; the count invariant
     * is kept; and when the byte total does not wrap, so is the byte order.
     */
    function Allocated(size: u64): (s: Stats)
      ensures s.peakBytesUsed >= s.currentBytesUsed
      ensures CountsAgree() ==> s.CountsAgree()
      ensures BytesOrdered() && totalBytesAllocated + size < WORD ==> s.BytesOrdered()
      ensures s.totalDeallocations == totalDeallocations && s.fragmentationBytes == fragmentationBytes
    {
      var used := Wrap(currentBytesUsed + size);
      this.(totalAllocations := Wrap(totalAllocations + 1),
            currentAllocations := Wrap(currentAllocations + 1),
            totalBytesAllocated := Wrap(totalBytesAllocated + size),
            currentBytesUsed := used,
            peakBytesUsed := if used > peakBytesUsed then used else peakBytesUsed)
    }

    /**
     * The counters after record_deallocation of `size` bytes: the count
     * invariant is kept, and when no more bytes are released than are in use,
     * so is the byte order.
     */
    function Deallocated(size: u64): (s: Stats)
      ensures CountsAgree() ==> s.CountsAgree()
      ensures BytesOrdered() && size <= currentBytesUsed ==> s.BytesOrdered()
      ensures s.totalAllocations == totalAllocations && s.totalBytesAllocated == totalBytesAllocated
      ensures s.peakBytesUsed == peakBytesUsed && s.fragmentationBytes == fragmentationBytes
    {
      this.(totalDeallocations := Wrap(totalDeallocations + 1),
            currentAllocations := Wrap(currentAllocations - 1),
            currentBytesUsed := Wrap(currentBytesUsed - size))
    }
  }

  /** `AllocationStats{}`: every counter zero. */
  const NO_STATS: Stats := Stats(0, 0, 0, 0, 0, 0, 0)

  /**
   * Recording an allocation and then a deallocation of the same size gives
   * back the live count and the bytes in use, even where the counters wrap;
   * only the totals move.
   */
  lemma AllocatedThenDeallocated(s: Stats, size: u64)
    ensures s.Allocated(size).Deallocated(size).currentAllocations == s.currentAllocations
    ensures s.Allocated(size).Deallocated(size).currentBytesUsed == s.currentBytesUsed
    ensures s.Allocated(size).Deallocated(size).totalAllocations == Wrap(s.totalAllocations + 1)
    ensures s.Allocated(size).Deallocated(size).totalDeallocations == Wrap(s.totalDeallocations + 1)
  {
    var t := s.Allocated(size);
    WrapSum(s.currentAllocations, 1);
    WrapSum(s.currentBytesUsed, size);
  }

  /** Adding then subtracting the same amount modulo 2^64 is the identity on a u64. */
  lemma WrapSum(x: u64, d: u64)
    ensures Wrap(Wrap(x + d) - d) == x
  {
    if x + d >= WORD {
      assert Wrap(x + d) == x + d - WORD;
      assert Wrap(x + d) - d == x - WORD;
    }
  }

  /** AllocationInfo as record_allocation builds it: the timestamp is never set. */
  datatype AllocationInfo = AllocationInfo(address: nat, size: u64, alignment: u64, timestamp: u64, isActive: bool)

  /** The state every allocator shares: total size, statistics and allocation history. */
  class BaseAllocator {
    const totalSize: u64
    var stats: Stats
    var history: seq<AllocationInfo>

    constructor(totalSize: u64)
      ensures this.totalSize == totalSize
      ensures stats == NO_STATS && history == []
    {
      this.totalSize := totalSize;
      stats := NO_STATS;
      history := [];
    }

    /** record_allocation: update the counters and append an active history entry. */
    method RecordAllocation(ptr: nat, size: u64, alignment: u64)
      modifies this
      ensures stats == old(stats).Allocated(size)
      ensures history == old(history) + [AllocationInfo(ptr, size, alignment, 0, true)]
    {
      stats := stats.Allocated(size);
      history := history + [AllocationInfo(ptr, size, alignment, 0, true)];
    }

    /** record_deallocation: update the counters; the history keeps the entry. */
    method RecordDeallocation(size: u64)
      modifies this
      ensures stats == old(stats).Deallocated(size)
      ensures history == old(history)
    {
      stats := stats.Deallocated(size);
    }

    /** A subclass writing `m_stats.current_bytes_used` directly, as the stack's rollback does. */
    method SetBytesUsed(bytes: u64)
      modifies this
      ensures stats == old(stats).(currentBytesUsed := bytes)
      ensures history == old(history)
    {
      stats := stats.(currentBytesUsed := bytes);
    }

    /** A subclass writing `m_stats.fragmentation_bytes` directly, as the free list does. */
    method SetFragmentationBytes(bytes: u64)
      modifies this
      ensures stats == old(stats).(fragmentationBytes := bytes)
      ensures history == old(history)
    {
      stats := stats.(fragmentationBytes := bytes);
    }

    /** `m_stats = AllocationStats{}; m_allocation_history.clear();`, as the resets do. */
    method ClearRecords()
      modifies this
      ensures stats == NO_STATS && history == []
    {
      stats := NO_STATS;
      history := [];
    }

    /**
     * The default available(): the total size less the bytes in use. It is
     * the exact difference whenever no more bytes are in use than the total.
     */
    function Available(): (r: u64)
      reads this
      ensures stats.currentBytesUsed <= totalSize ==> r + stats.currentBytesUsed == totalSize
    {
      Wrap(totalSize - stats.currentBytesUsed)
    }
  }
}
