/**
 * StackAllocator: a bump offset into one region. Each allocation writes a
 * three-word header just below the returned pointer; the header remembers the
 * payload size, the alignment padding in front of it and the previous top, so
 * that the most recent allocation can be popped.
 *
 * Offsets are unbounded integers here; the one place where the 64-bit
 * arithmetic of the C++ code changes the outcome, the capacity check, is
 * modelled separately as written (CapacityCheckAsWritten).
 */
module Stack {
  import opened Words
  import opened Base

  /** sizeof(AllocationHeader): three size_t words. */
  const HEADER_SIZE: nat := 24

  /** The header stored in the region in front of every payload. */
  datatype StackHeader = StackHeader(size: u64, adjustment: u64, previousOffset: nat)

  /** The headers of the live allocations, keyed by their offset in the region. */
  type Headers = map<nat, StackHeader>

  /** The offset one past the payload of the allocation whose header is at h. */
  function End(hs: Headers, h: nat): nat
    requires h in hs
  {
    h + HEADER_SIZE + hs[h].size
  }

  /** The offset the allocation started from: the top before it, ahead of its alignment padding. */
  function Start(hs: Headers, h: nat): int
    requires h in hs
  {
    h - hs[h].adjustment
  }

  /** The allocations that end at or below offset m. */
  function Below(hs: Headers, m: nat): (r: Headers)
    ensures forall h :: h in r <==> h in hs && End(hs, h) <= m
    ensures forall h :: h in r ==> r[h] == hs[h]
  {
    map h | h in hs && End(hs, h) <= m :: hs[h]
  }

  /** adjustment = align_size(current_addr, alignment) - current_addr, on size_t. */
  function Adjustment(address: u64, alignment: u64): u64
  {
    Wrap(AlignSize(address, alignment) - address)
  }

  /**
   * The capacity check with unbounded integers: the padding, the header and
   * the payload fit between the current offset and the end of the region.
   */
  predicate Fits(current: nat, adjustment: nat, size: nat, totalSize: nat)
  {
    current + adjustment + HEADER_SIZE + size <= totalSize
  }

  /** The capacity check as the C++ code computes it: both sums wrap modulo 2^64. */
  predicate CapacityCheckAsWritten(current: u64, adjustment: u64, size: u64, totalSize: u64)
  {
    !(Wrap(current + Wrap(adjustment + HEADER_SIZE + size)) > totalSize)
  }

  /** When neither sum wraps, the check as written is the unbounded check. */
  lemma CapacityCheckAgrees(current: u64, adjustment: u64, size: u64, totalSize: u64)
    requires current + adjustment + HEADER_SIZE + size < WORD
    ensures CapacityCheckAsWritten(current, adjustment, size, totalSize) <==> Fits(current, adjustment, size, totalSize)
  {
  }

  /**
   * A request of SIZE_MAX - 23 bytes makes the total wrap to 0: the check as
   * written lets it through on a 4096-byte stack, and the new top offset
   * (header offset + 24 + size, modulo 2^64) is the old one.
   */
  lemma CapacityCheckWraps()
    ensures CapacityCheckAsWritten(0, 0, SIZE_MAX - 23, 4096)
    ensures Wrap(0 + HEADER_SIZE + (SIZE_MAX - 23)) == 0
    ensures !Fits(0, 0, SIZE_MAX - 23, 4096)
  {
  }

  /**
   * For a power-of-two alignment and an address whose rounding does not wrap,
   * the padding is less than the alignment and the header lands on a
   * multiple of it.
   */
  lemma AdjustmentAligns(address: u64, alignment: u64)
    requires IsPowerOfTwo(alignment)
    requires address + alignment - 1 < WORD
    ensures Adjustment(address, alignment) < alignment
    ensures (address + Adjustment(address, alignment)) % alignment == 0
  {
    AlignSizeRounds(address, alignment);
  }

  /** The two offsets and the live headers: the part of the stack the operations change. */
  datatype StackState = StackState(currentOffset: nat, previousOffset: nat, headers: Headers)
  {
    /** Every live allocation has a payload, starts after its padding and ends at or below the top. */
    predicate Placed()
    {
      forall h :: h in headers ==>
        headers[h].size > 0 && headers[h].adjustment <= h && End(headers, h) <= currentOffset
    }

    /** Live allocations do not overlap: one ends at or before the next one starts. */
    predicate Disjoint()
    {
      forall g, h :: g in headers && h in headers && g < h ==> End(headers, g) <= Start(headers, h)
    }

    /** A non-zero previous offset is the start of the top allocation. */
    predicate TopLinked()
    {
      previousOffset == 0 ||
      exists h :: h in headers && End(headers, h) == currentOffset && Start(headers, h) == previousOffset
    }

    /**
     * Every header's non-zero previous offset is the start of the allocation
     * that ends where this one starts: the chain the pops walk.
     */
    predicate Linked()
    {
      forall h :: h in headers && headers[h].previousOffset != 0 ==>
        exists g :: g in headers && End(headers, g) == Start(headers, h) && Start(headers, g) == headers[h].previousOffset
    }

    /** The header chain is intact: what makes popping the top restore the state before it was pushed. */
    predicate Chained()
    {
      Placed() && Disjoint() && TopLinked() && Linked() && previousOffset <= currentOffset
    }

    /** A successful allocate: the header at current + adjustment, the top moves past the payload. */
    function Push(size: u64, adjustment: u64): StackState
    {
      var h := currentOffset + adjustment;
      StackState(h + HEADER_SIZE + size, currentOffset,
                 headers[h := StackHeader(size, adjustment, previousOffset)])
    }

    /**
     * A successful deallocate of the allocation with header h: the top falls
     * back to the previous offset, the previous offset is read from the header
     * (or is 0 when the top is 0), and what lies above the new top is gone.
     */
    function Pop(h: nat): StackState
      requires h in headers
    {
      StackState(previousOffset,
                 if previousOffset > 0 then headers[h].previousOffset else 0,
                 Below(headers, previousOffset))
    }

    /** rollback_to_marker(m) for m at most the top: the top is m and the chain is dropped. */
    function RolledBack(marker: nat): StackState
    {
      StackState(marker, 0, Below(headers, marker))
    }
  }

  /** The empty stack of the constructor and of reset. */
  const EMPTY: StackState := StackState(0, 0, map[])

  /** At most one live allocation ends at a given offset. */
  lemma TopUnique(st: StackState, g: nat, h: nat)
    requires st.Placed() && st.Disjoint()
    requires g in st.headers && h in st.headers
    requires End(st.headers, g) == End(st.headers, h)
    ensures g == h
  {
  }

  /** Keeping only the allocations below m keeps the placement, the disjointness and the chain. */
  lemma BelowKeepsLinks(st: StackState, m: nat)
    requires st.Chained()
    ensures StackState(m, 0, Below(st.headers, m)).Chained()
  {
    var hs := st.headers;
    var r := Below(hs, m);
    var s := StackState(m, 0, r);
    forall h | h in r
      ensures End(r, h) == End(hs, h) && Start(r, h) == Start(hs, h)
    {
    }
    assert s.Placed();
    assert s.Disjoint();
    forall h | h in r && r[h].previousOffset != 0
      ensures exists g :: g in r && End(r, g) == Start(r, h) && Start(r, g) == r[h].previousOffset
    {
      var g :| g in hs && End(hs, g) == Start(hs, h) && Start(hs, g) == hs[h].previousOffset;
      assert g in r;
    }
    assert s.Linked();
  }

  /** Pushing a block keeps the chain intact. */
  lemma PushChained(st: StackState, size: u64, adjustment: u64)
    requires st.Chained() && size > 0
    ensures st.Push(size, adjustment).Chained()
  {
    var hs := st.headers;
    var h := st.currentOffset + adjustment;
    var t := st.Push(size, adjustment);
    var hs' := t.headers;
    assert h !in hs;
    forall g | g in hs
      ensures g in hs' && End(hs', g) == End(hs, g) && Start(hs', g) == Start(hs, g)
    {
    }
    assert t.Placed();
    assert t.Disjoint();
    assert End(hs', h) == t.currentOffset && Start(hs', h) == t.previousOffset;
    assert t.TopLinked();
    forall k | k in hs' && hs'[k].previousOffset != 0
      ensures exists g :: g in hs' && End(hs', g) == Start(hs', k) && Start(hs', g) == hs'[k].previousOffset
    {
      if k == h {
        var g :| g in hs && End(hs, g) == st.currentOffset && Start(hs, g) == st.previousOffset;
        assert g in hs' && End(hs', g) == Start(hs', k);
      } else {
        var g :| g in hs && End(hs, g) == Start(hs, k) && Start(hs, g) == hs[k].previousOffset;
        assert g in hs';
      }
    }
    assert t.Linked();
  }

  /**
   * Popping the top allocation keeps the chain intact, and the previous
   * offset it falls back to is the start of that allocation (or 0 after a
   * rollback dropped the chain).
   */
  lemma PopChained(st: StackState, h: nat)
    requires st.Chained()
    requires h in st.headers && End(st.headers, h) == st.currentOffset
    ensures st.previousOffset == 0 || st.previousOffset == Start(st.headers, h)
    ensures st.Pop(h).Chained()
  {
    var hs := st.headers;
    var t := st.Pop(h);
    if st.previousOffset == 0 {
      BelowKeepsLinks(st, 0);
    } else {
      var k :| k in hs && End(hs, k) == st.currentOffset && Start(hs, k) == st.previousOffset;
      TopUnique(st, k, h);
      BelowKeepsLinks(st, st.previousOffset);
      var r := Below(hs, st.previousOffset);
      forall x | x in r
        ensures End(r, x) == End(hs, x) && Start(r, x) == Start(hs, x)
      {
      }
      if hs[h].previousOffset != 0 {
        var g :| g in hs && End(hs, g) == Start(hs, h) && Start(hs, g) == hs[h].previousOffset;
        assert g in r && End(r, g) == t.currentOffset && Start(r, g) == t.previousOffset;
      }
      assert t.TopLinked();
      assert t.previousOffset <= t.currentOffset by {
        if hs[h].previousOffset != 0 {
          var g :| g in r && End(r, g) == t.currentOffset && Start(r, g) == t.previousOffset;
        }
      }
    }
  }

  /** A push that passes the capacity check keeps the top within the region and makes the new block the top. */
  lemma PushFits(st: StackState, size: u64, adjustment: u64, totalSize: nat)
    requires st.Chained() && size > 0
    requires Fits(st.currentOffset, adjustment, size, totalSize)
    ensures st.Push(size, adjustment).Chained()
    ensures st.Push(size, adjustment).currentOffset <= totalSize
    ensures st.currentOffset + adjustment in st.Push(size, adjustment).headers
    ensures End(st.Push(size, adjustment).headers, st.currentOffset + adjustment) == st.Push(size, adjustment).currentOffset
  {
    PushChained(st, size, adjustment);
  }

  /** LIFO undo: popping the block just pushed gives back the state before the push. */
  lemma PushThenPop(st: StackState, size: u64, adjustment: u64)
    requires st.Chained() && size > 0
    ensures st.currentOffset + adjustment in st.Push(size, adjustment).headers
    ensures st.Push(size, adjustment).Pop(st.currentOffset + adjustment) == st
  {
    var h := st.currentOffset + adjustment;
    var t := st.Push(size, adjustment);
    assert h !in st.headers;
    assert Below(t.headers, st.currentOffset) == st.headers;
  }

  /** Rolling back keeps the chain intact, with the previous offset cleared. */
  lemma RolledBackChained(st: StackState, marker: nat)
    requires st.Chained() && marker <= st.currentOffset
    ensures st.RolledBack(marker).Chained()
  {
    BelowKeepsLinks(st, marker);
  }

  class StackAllocator {
    /** m_alignment: the alignment the region was requested with. */
    const alignment: u64
    /** Start of the region from aligned_alloc; 0 when it failed. */
    const memory: nat
    const base: BaseAllocator
    var currentOffset: nat
    var previousOffset: nat
    /** The headers of the live allocations, as written into the region. */
    var headers: Headers

    function State(): StackState
      reads this
    {
      StackState(currentOffset, previousOffset, headers)
    }

    /** The top never passes the end of the region, and the header chain is intact. */
    predicate Valid()
      reads this
    {
      && base as object != this
      && (memory == 0 ==> State() == EMPTY)
      && (memory != 0 ==> memory + base.totalSize < WORD)
      && currentOffset <= base.totalSize
      && State().Chained()
    }

    /** A pointer returned by allocate whose block has not been popped or rolled back. */
    predicate Live(ptr: nat)
      reads this
    {
      memory != 0 && ptr >= memory + HEADER_SIZE && ptr - memory - HEADER_SIZE in headers
    }

    /** A live pointer whose block ends at the top: the only one deallocate accepts. */
    predicate IsTop(ptr: nat)
      reads this
    {
      Live(ptr) && End(headers, ptr - memory - HEADER_SIZE) == currentOffset
    }

    constructor(size: u64, alignment: u64, region: nat)
      requires region == 0 || region + size < WORD
      ensures Valid() && fresh(base)
      ensures this.alignment == alignment && memory == region && base.totalSize == size
      ensures State() == EMPTY
      ensures base.stats == NO_STATS && base.history == []
    {
      this.alignment := alignment;
      memory := region;
      base := new BaseAllocator(size);
      currentOffset := 0;
      previousOffset := 0;
      headers := map[];
    }

    /**
     * allocate: pad the top up to the alignment, write the header there and
     * return the address just past it. Null, and no change, when there is no
     * region, the size is 0 or the block does not fit.
     */
    method Allocate(size: u64, alignment: u64) returns (ptr: nat)
      requires Valid()
      modifies this, base
      ensures Valid()
      ensures ptr == 0 <==>
        memory == 0 || size == 0 ||
        !Fits(old(currentOffset), Adjustment(memory + old(currentOffset), alignment), size, base.totalSize)
      ensures ptr == 0 ==> State() == old(State()) && base.stats == old(base.stats) && base.history == old(base.history)
      ensures ptr != 0 ==>
        var adjustment := Adjustment(memory + old(currentOffset), alignment);
        && State() == old(State()).Push(size, adjustment)
        && ptr == memory + old(currentOffset) + adjustment + HEADER_SIZE
        && base.stats == old(base.stats).Allocated(size)
        && base.history == old(base.history) + [AllocationInfo(ptr, size, alignment, 0, true)]
    {
      if memory == 0 || size == 0 {
        return 0;
      }
      var currentAddress := memory + currentOffset;
      var adjustment := Adjustment(currentAddress, alignment);
      if !Fits(currentOffset, adjustment, size, base.totalSize) {
        return 0;
      }
      PushFits(State(), size, adjustment, base.totalSize);
      var headerOffset := currentOffset + adjustment;
      PushHeader(size, adjustment);
      ptr := memory + headerOffset + HEADER_SIZE;
      base.RecordAllocation(ptr, size, alignment);
    }

    /**
     * The stores of a successful allocate: the header at the padded top, the
     * previous offset takes the old top, the top moves past the payload.
     */
    method PushHeader(size: u64, adjustment: u64)
      requires Valid() && size > 0 && memory != 0
      requires Fits(currentOffset, adjustment, size, base.totalSize)
      modifies this
      ensures Valid()
      ensures State() == old(State()).Push(size, adjustment)
    {
      PushFits(State(), size, adjustment, base.totalSize);
      var headerOffset := currentOffset + adjustment;
      headers := headers[headerOffset := StackHeader(size, adjustment, previousOffset)];
      previousOffset := currentOffset;
      currentOffset := headerOffset + HEADER_SIZE + size;
    }

    /**
     * deallocate: pop the block of `ptr` if it ends at the top; any other
     * live block is left alone, as are null and a stack without a region.
     * The pointer must be a live one: its header is read.
     */
    method Deallocate(ptr: nat)
      requires Valid()
      requires ptr == 0 || memory == 0 || Live(ptr)
      modifies this, base
      ensures Valid()
      ensures !old(IsTop(ptr)) ==>
        State() == old(State()) && base.stats == old(base.stats)
      ensures old(IsTop(ptr)) ==>
        var h := ptr - memory - HEADER_SIZE;
        && State() == old(State()).Pop(h)
        && (old(previousOffset) == 0 || old(previousOffset) == Start(old(headers), h))
        && base.stats == old(base.stats).Deallocated(old(headers)[h].size)
      ensures base.history == old(base.history)
    {
      if ptr == 0 || memory == 0 {
        return;
      }
      var h := ptr - memory - HEADER_SIZE;
      var header := headers[h];
      var expectedOffset := ptr - memory + header.size;
      if expectedOffset != currentOffset {
        return;
      }
      PopChained(State(), h);
      var size := header.size;
      currentOffset := previousOffset;
      if currentOffset > 0 {
        previousOffset := header.previousOffset;
      } else {
        previousOffset := 0;
      }
      headers := Below(headers, currentOffset);
      base.RecordDeallocation(size);
    }

    /** get_marker: the current top. */
    function GetMarker(): (marker: nat)
      reads this
      ensures Valid() ==> marker <= base.totalSize
    {
      currentOffset
    }

    /**
     * rollback_to_marker: a marker above the top is ignored; otherwise the
     * top becomes the marker, the previous offset 0, the blocks above the
     * marker are gone and, when anything was freed, the bytes-in-use counter
     * is overwritten with the marker.
     */
    method RollbackToMarker(marker: u64)
      requires Valid()
      modifies this, base
      ensures Valid()
      ensures marker > old(currentOffset) ==> State() == old(State()) && base.stats == old(base.stats)
      ensures marker <= old(currentOffset) ==>
        && State() == old(State()).RolledBack(marker)
        && base.stats == (if marker < old(currentOffset) then old(base.stats).(currentBytesUsed := marker) else old(base.stats))
      ensures marker <= old(currentOffset) ==> Available() == base.totalSize - marker
      ensures base.history == old(base.history)
    {
      if marker > currentOffset {
        return;
      }
      RolledBackChained(State(), marker);
      var freed := currentOffset - marker;
      currentOffset := marker;
      previousOffset := 0;
      headers := Below(headers, marker);
      if freed > 0 {
        base.SetBytesUsed(marker);
      }
    }

    /** reset: both offsets 0, no live block, statistics and history cleared. */
    method Reset()
      requires Valid()
      modifies this, base
      ensures Valid()
      ensures State() == EMPTY
      ensures base.stats == NO_STATS && base.history == []
    {
      currentOffset := 0;
      previousOffset := 0;
      headers := map[];
      base.ClearRecords();
    }

    /** owns: the pointer lies inside the region. Every live pointer does. */
    function Owns(ptr: nat): (r: bool)
      reads this
      ensures Valid() && Live(ptr) ==> r
      ensures r ==> memory != 0 && ptr != 0
    {
      memory != 0 && ptr != 0 && memory <= ptr < memory + base.totalSize
    }

    /** available: the bytes above the top. */
    function Available(): (r: u64)
      reads this
      ensures Valid() ==> r == base.totalSize - currentOffset
    {
      Wrap(base.totalSize - currentOffset)
    }

    /** used: the top offset. With available, it makes up the whole region. */
    function Used(): (r: nat)
      reads this
      ensures Valid() ==> r + Available() == base.totalSize
    {
      currentOffset
    }
  }
}
