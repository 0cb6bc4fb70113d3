/**
 * StandardAllocator: every request goes to the platform's `operator new`;
 * the allocator only keeps a table from each returned address to the size
 * and alignment it was requested with, so that it can free it again with the
 * matching form of `operator delete`.
 *
 * The platform is outside the model: the address `operator new` returned
 * (0 when it failed) is a parameter of Allocate, and the calls to
 * `operator delete` are the releases Deallocate and Reset return.
 */
module Standard {
  import opened Words
  import opened Base

  /** The value side of the table: `{size, alignment}`. */
  datatype Entry = Entry(size: u64, alignment: u64)

  /** One call of `operator delete`: the address and whether the aligned form is used. */
  datatype Release = Release(ptr: nat, alignedForm: bool)

  /** Alignments above alignof(max_align_t) take the `std::align_val_t` forms of new and delete. */
  predicate AlignedForm(alignment: u64)
  {
    alignment > MAX_ALIGN
  }

  /** The alignment allocate uses and records: the request if it is a power of two, else the default. */
  function EffectiveAlignment(alignment: u64): (r: u64)
    ensures IsPowerOfTwo(r)
    ensures IsPowerOfTwo(alignment) ==> r == alignment
  {
    if IsPowerOfTwo(alignment) then alignment
    else
      PowerOfTwoOfPow2(4);
      assert Pow2(4) == 16;
      MAX_ALIGN
  }

  /** The addresses of a sequence of releases. */
  function Released(rs: seq<Release>): set<nat>
  {
    set i | 0 <= i < |rs| :: rs[i].ptr
  }

  /** No address is released twice. */
  predicate ReleasedOnce(rs: seq<Release>)
  {
    forall i, j :: 0 <= i < j < |rs| ==> rs[i].ptr != rs[j].ptr
  }

  /** Appending one release adds its address. */
  lemma ReleasedSnoc(rs: seq<Release>, r: Release)
    ensures Released(rs + [r]) == Released(rs) + {r.ptr}
  {
    var t := rs + [r];
    assert forall i :: 0 <= i < |rs| ==> t[i] == rs[i];
    assert t[|rs|] == r;
  }

  /** Appending a release of a new address keeps every address released once. */
  lemma ReleasedOnceSnoc(rs: seq<Release>, r: Release)
    requires ReleasedOnce(rs) && r.ptr !in Released(rs)
    ensures ReleasedOnce(rs + [r])
  {
    forall i | 0 <= i < |rs|
      ensures rs[i].ptr != r.ptr
    {
      assert rs[i].ptr in Released(rs);
    }
  }

  /** Every release so far is of a tracked address, with the form of delete its alignment calls for. */
  predicate MatchingForms(table: map<nat, Entry>, rs: seq<Release>)
  {
    forall i :: 0 <= i < |rs| ==>
      rs[i].ptr in table && rs[i].alignedForm == AlignedForm(table[rs[i].ptr].alignment)
  }

  /** Part way through reset's loop: the released and the pending addresses split the table. */
  predicate Progress(table: map<nat, Entry>, rs: seq<Release>, pending: set<nat>)
  {
    && Released(rs) !! pending
    && Released(rs) + pending == table.Keys
    && ReleasedOnce(rs) && |rs| + |pending| == |table.Keys|
    && MatchingForms(table, rs)
  }

  /** Releasing one pending address makes progress. */
  lemma ReleaseStep(table: map<nat, Entry>, rs: seq<Release>, pending: set<nat>, ptr: nat)
    requires Progress(table, rs, pending) && ptr in pending
    ensures Progress(table, rs + [Release(ptr, AlignedForm(table[ptr].alignment))], pending - {ptr})
  {
    var r := Release(ptr, AlignedForm(table[ptr].alignment));
    ReleasedSnoc(rs, r);
    ReleasedOnceSnoc(rs, r);
    MatchingFormsSnoc(table, rs, r);
    assert |pending - {ptr}| == |pending| - 1;
  }

  lemma MatchingFormsSnoc(table: map<nat, Entry>, rs: seq<Release>, r: Release)
    requires MatchingForms(table, rs)
    requires r.ptr in table && r.alignedForm == AlignedForm(table[r.ptr].alignment)
    ensures MatchingForms(table, rs + [r])
  {
    var t := rs + [r];
    assert forall i :: 0 <= i < |rs| ==> t[i] == rs[i];
  }

  /**
   * The loop of reset: walk the table and release each address, with the
   * form of delete its alignment calls for.
   */
  method ReleaseAll(table: map<nat, Entry>) returns (released: seq<Release>)
    ensures Released(released) == table.Keys
    ensures ReleasedOnce(released) && |released| == |table.Keys|
    ensures MatchingForms(table, released)
  {
    released := [];
    var pending := table.Keys;
    while pending != {}
      invariant Progress(table, released, pending)
      decreases |pending|
    {
      var ptr :| ptr in pending;
      ReleaseStep(table, released, pending, ptr);
      released := released + [Release(ptr, AlignedForm(table[ptr].alignment))];
      pending := pending - {ptr};
    }
  }

  class StandardAllocator {
    const base: BaseAllocator
    /** m_allocations. */
    var allocations: map<nat, Entry>

    /**
     * Null is never tracked, every entry has a size, and the live-allocation
     * counter is the size of the table (modulo 2^64).
     */
    predicate Valid()
      reads this, base
    {
      && base as object != this
      && base.totalSize == SIZE_MAX
      && TableValid()
      && base.stats.currentAllocations == Wrap(|allocations|)
    }

    predicate TableValid()
      reads this
    {
      0 !in allocations && forall p :: p in allocations ==> allocations[p].size > 0
    }

    constructor()
      ensures Valid() && fresh(base)
      ensures allocations == map[]
      ensures base.stats == NO_STATS && base.history == []
    {
      base := new BaseAllocator(SIZE_MAX);
      allocations := map[];
    }

    /**
     * allocate: null for a zero size; otherwise the alignment falls back to
     * the default when it is not a power of two, and an address the
     * platform returned is entered in the table with the size and that
     * alignment and recorded. A failed platform call changes nothing.
     */
    method Allocate(size: u64, alignment: u64, platformPtr: nat) returns (ptr: nat)
      requires Valid()
      requires platformPtr == 0 || platformPtr !in allocations
      modifies this, base
      ensures Valid()
      ensures ptr == (if size == 0 then 0 else platformPtr)
      ensures ptr == 0 ==>
        allocations == old(allocations) && base.stats == old(base.stats) && base.history == old(base.history)
      ensures ptr != 0 ==>
        && allocations == old(allocations)[ptr := Entry(size, EffectiveAlignment(alignment))]
        && base.stats == old(base.stats).Allocated(size)
        && base.history == old(base.history) + [AllocationInfo(ptr, size, EffectiveAlignment(alignment), 0, true)]
    {
      if size == 0 {
        return 0;
      }
      var effective := alignment;
      if !IsPowerOfTwo(effective) {
        effective := MAX_ALIGN;
      }
      ptr := platformPtr;
      if ptr != 0 {
        allocations := allocations[ptr := Entry(size, effective)];
        base.RecordAllocation(ptr, size, effective);
      }
    }

    /**
     * deallocate: null and untracked addresses are ignored; a tracked one is
     * released with the form of delete matching its new, erased from the
     * table, and its recorded size is deallocated.
     */
    method Deallocate(ptr: nat) returns (released: seq<Release>)
      requires Valid()
      modifies this, base
      ensures Valid()
      ensures ptr !in old(allocations) ==>
        released == [] && allocations == old(allocations) && base.stats == old(base.stats)
      ensures ptr in old(allocations) ==>
        && released == [Release(ptr, AlignedForm(old(allocations)[ptr].alignment))]
        && allocations == old(allocations) - {ptr}
        && base.stats == old(base.stats).Deallocated(old(allocations)[ptr].size)
      ensures base.history == old(base.history)
    {
      if ptr == 0 || ptr !in allocations {
        return [];
      }
      var entry := allocations[ptr];
      released := [Release(ptr, AlignedForm(entry.alignment))];
      allocations := allocations - {ptr};
      base.RecordDeallocation(entry.size);
    }

    /**
     * reset: release every tracked address exactly once, each with the form
     * of delete matching its new; then the table, the statistics and the
     * history are cleared.
     */
    method Reset() returns (released: seq<Release>)
      requires Valid()
      modifies this, base
      ensures Valid()
      ensures allocations == map[]
      ensures base.stats == NO_STATS && base.history == []
      ensures Released(released) == old(allocations).Keys
      ensures ReleasedOnce(released) && |released| == |old(allocations).Keys|
      ensures MatchingForms(old(allocations), released)
    {
      released := ReleaseAll(allocations);
      allocations := map[];
      base.ClearRecords();
    }

    /** owns: the address is in the table. A tracked address is never null. */
    function Owns(ptr: nat): (r: bool)
      reads this, base
      ensures Valid() && r ==> ptr != 0
    {
      ptr in allocations
    }

    /**
     * available: always SIZE_MAX, whatever is in use; never less than the
     * default total-minus-used of the base class.
     */
    function Available(): (r: u64)
      reads this, base
      ensures Valid() ==> r == base.totalSize && r >= base.Available()
    {
      SIZE_MAX
    }
  }
}
