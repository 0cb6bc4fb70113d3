/**
 * The free list of FreeListAllocator as values.
 *
 * The C++ allocator threads a singly linked list of `FreeBlock {size, next}`
 * records through its region and writes an `AllocationHeader {size,
 * adjustment}` in front of every allocation. Here a block is its offset in
 * the region and its size (header included), the list is a sequence in list
 * order, and the live headers are a map from offset to header. The loops of
 * the allocator are proved against the functions of this module, and the
 * properties of those functions are the lemmas below.
 */
module FreeBlocks {
  import opened Words
  import opened Base

  /** sizeof(AllocationHeader): `size` and `adjustment`, two `size_t` words. */
  const HEADER_SIZE: nat := 16
  /** sizeof(FreeBlock): `size` and `next`, two words. */
  const FREE_BLOCK_SIZE: nat := 16
  /** MIN_BLOCK_SIZE: the least payload worth splitting a block for. */
  const MIN_BLOCK_SIZE: nat := 16

  /** The three placement policies. */
  datatype FitPolicy = FirstFit | BestFit | WorstFit

  /** A free block: where it starts in the region and its total size, its own header included. */
  datatype FreeBlock = FreeBlock(offset: nat, size: nat)
  {
    function End(): nat { offset + size }
  }

  /** The header in front of an allocation: the bytes taken from the free list, and the (always 0) adjustment. */
  datatype AllocationHeader = AllocationHeader(size: nat, adjustment: nat)

  /** The live headers, by their offset in the region. */
  type Headers = map<nat, AllocationHeader>

  /** Two byte ranges [a, a + asize) and [b, b + bsize) do not overlap. */
  predicate Apart(a: nat, asize: nat, b: nat, bsize: nat)
  {
    a + asize <= b || b + bsize <= a
  }

  /** Every block ends at or before the start of every later block. */
  predicate Sorted(fl: seq<FreeBlock>)
  {
    forall i, j :: 0 <= i < j < |fl| ==> fl[i].End() <= fl[j].offset
  }

  /** No block ends exactly where the next one in the list starts. */
  predicate NoAdjacent(fl: seq<FreeBlock>)
  {
    forall i :: 0 <= i < |fl| - 1 ==> fl[i].End() != fl[i + 1].offset
  }

  /** The bytes on the free list: what `available()` adds up. */
  function FreeBytes(fl: seq<FreeBlock>): nat
  {
    if fl == [] then 0 else fl[0].size + FreeBytes(fl[1..])
  }

  lemma {:induction false} FreeBytesAppend(a: seq<FreeBlock>, b: seq<FreeBlock>)
    ensures FreeBytes(a + b) == FreeBytes(a) + FreeBytes(b)
    decreases |a|
  {
    if a == [] {
      assert a + b == b;
    } else {
      assert (a + b)[1..] == a[1..] + b;
      FreeBytesAppend(a[1..], b);
    }
  }

  function Max(x: nat, y: nat): nat
  {
    if x > y then x else y
  }

  /** The size of the largest free block, 0 for an empty list: what `largest_free_block()` finds. */
  function Largest(fl: seq<FreeBlock>): (r: nat)
    ensures forall i :: 0 <= i < |fl| ==> fl[i].size <= r
    ensures fl == [] ==> r == 0
    ensures fl != [] ==> exists i :: 0 <= i < |fl| && fl[i].size == r
    ensures r <= FreeBytes(fl)
  {
    if fl == [] then 0
    else
      var rest := Largest(fl[1..]);
      assert forall i :: 1 <= i < |fl| ==> fl[i] == fl[1..][i - 1];
      if fl[0].size > rest then fl[0].size else rest
  }

  /**
   * update_fragmentation's estimate: the free bytes outside the largest
   * block, 0 when nothing is free or one block holds all of it.
   */
  function Fragmentation(fl: seq<FreeBlock>): (r: nat)
    ensures r + Largest(fl) == FreeBytes(fl)
    ensures r <= FreeBytes(fl)
  {
    var free := FreeBytes(fl);
    var largest := Largest(fl);
    if free > 0 && largest < free then free - largest else 0
  }

  /** A list of at most one block is never fragmented. */
  lemma OneBlockNotFragmented(fl: seq<FreeBlock>)
    requires |fl| <= 1
    ensures Fragmentation(fl) == 0
  {
    if fl != [] {
      assert fl[1..] == [];
    }
  }

  /**
   * insert_free_block: the new block becomes the head when the list is
   * empty or it lies below the head; otherwise it goes after the last block
   * below it.
   */
  function InsertSorted(fl: seq<FreeBlock>, b: FreeBlock): (r: seq<FreeBlock>)
    ensures multiset(r) == multiset(fl) + multiset{b}
  {
    if fl == [] || b.offset < fl[0].offset then [b] + fl
    else
      assert fl == [fl[0]] + fl[1..];
      [fl[0]] + InsertAfter(fl[1..], b)
  }

  /** The walk of insert_free_block past the head: stop before the first block not below the new one. */
  function InsertAfter(rest: seq<FreeBlock>, b: FreeBlock): (r: seq<FreeBlock>)
    ensures multiset(r) == multiset(rest) + multiset{b}
  {
    if rest == [] || b.offset <= rest[0].offset then [b] + rest
    else
      assert rest == [rest[0]] + rest[1..];
      [rest[0]] + InsertAfter(rest[1..], b)
  }

  /** Inserting a block adds exactly its size to the free bytes. */
  lemma InsertBytes(fl: seq<FreeBlock>, b: FreeBlock)
    ensures FreeBytes(InsertSorted(fl, b)) == FreeBytes(fl) + b.size
  {
    if !(fl == [] || b.offset < fl[0].offset) {
      InsertAfterBytes(fl[1..], b);
    }
  }

  lemma {:induction false} InsertAfterBytes(rest: seq<FreeBlock>, b: FreeBlock)
    ensures FreeBytes(InsertAfter(rest, b)) == FreeBytes(rest) + b.size
    decreases |rest|
  {
    if !(rest == [] || b.offset <= rest[0].offset) {
      InsertAfterBytes(rest[1..], b);
    }
  }

  /** A block that does not overlap any block of the list. */
  predicate ApartFromAll(fl: seq<FreeBlock>, b: FreeBlock)
  {
    forall i :: 0 <= i < |fl| ==> Apart(b.offset, b.size, fl[i].offset, fl[i].size)
  }

  /** Every block has a size. */
  predicate Positive(fl: seq<FreeBlock>)
  {
    forall i :: 0 <= i < |fl| ==> fl[i].size > 0
  }

  /** A block placed in front of a sorted list that starts at or after its end keeps the list sorted. */
  lemma SortedCons(x: FreeBlock, s: seq<FreeBlock>)
    requires Sorted(s)
    requires forall j :: 0 <= j < |s| ==> x.End() <= s[j].offset
    ensures Sorted([x] + s)
  {
    var t := [x] + s;
    forall i, j | 0 <= i < j < |t|
      ensures t[i].End() <= t[j].offset
    {
      assert t[j] == s[j - 1];
      if i > 0 {
        assert t[i] == s[i - 1];
      }
    }
  }

  /**
   * Inserting a block with a size that overlaps no block keeps a sorted list
   * of sized blocks sorted: insert_free_block keeps the list in address order.
   */
  lemma InsertKeepsSorted(fl: seq<FreeBlock>, b: FreeBlock)
    requires Sorted(fl) && Positive(fl) && b.size > 0 && ApartFromAll(fl, b)
    ensures Sorted(InsertSorted(fl, b)) && Positive(InsertSorted(fl, b))
  {
    if fl == [] || b.offset < fl[0].offset {
      InsertAtHead(fl, b);
    } else {
      var rest := fl[1..];
      assert fl[0].End() <= b.offset by {
        assert Apart(b.offset, b.size, fl[0].offset, fl[0].size);
      }
      assert Sorted(rest) && Positive(rest) && ApartFromAll(rest, b) by {
        assert forall i :: 0 <= i < |rest| ==> rest[i] == fl[i + 1];
      }
      InsertAfterKeepsSorted(rest, b);
      BoundStaysBelow(fl, b);
    }
  }

  /** A sized block below the first block of a sorted list, and overlapping none, goes in front of it. */
  lemma InsertAtHead(fl: seq<FreeBlock>, b: FreeBlock)
    requires Sorted(fl) && Positive(fl) && b.size > 0 && ApartFromAll(fl, b)
    requires fl == [] || b.offset <= fl[0].offset
    ensures Sorted([b] + fl) && Positive([b] + fl)
  {
    if fl != [] {
      assert b.End() <= fl[0].offset by {
        assert Apart(b.offset, b.size, fl[0].offset, fl[0].size);
      }
      forall j | 0 <= j < |fl|
        ensures b.End() <= fl[j].offset
      {
        if j > 0 {
          assert fl[0].End() <= fl[j].offset;
        }
      }
    }
    SortedCons(b, fl);
  }

  lemma {:induction false} InsertAfterKeepsSorted(rest: seq<FreeBlock>, b: FreeBlock)
    requires Sorted(rest) && Positive(rest) && b.size > 0 && ApartFromAll(rest, b)
    ensures Sorted(InsertAfter(rest, b)) && Positive(InsertAfter(rest, b))
    decreases |rest|
  {
    if rest == [] || b.offset <= rest[0].offset {
      InsertAtHead(rest, b);
    } else {
      var tail := rest[1..];
      assert rest[0].End() <= b.offset by {
        assert Apart(b.offset, b.size, rest[0].offset, rest[0].size);
      }
      assert Sorted(tail) && Positive(tail) && ApartFromAll(tail, b) by {
        assert forall i :: 0 <= i < |tail| ==> tail[i] == rest[i + 1];
      }
      InsertAfterKeepsSorted(tail, b);
      BoundStaysBelow(rest, b);
    }
  }

  /** Every block of the list starts at or after p. */
  predicate StartsFrom(s: seq<FreeBlock>, p: nat)
  {
    forall j :: 0 <= j < |s| ==> p <= s[j].offset
  }

  lemma {:induction false} InsertAfterStartsFrom(rest: seq<FreeBlock>, b: FreeBlock, p: nat)
    requires p <= b.offset && StartsFrom(rest, p)
    ensures StartsFrom(InsertAfter(rest, b), p)
    decreases |rest|
  {
    if rest == [] || b.offset <= rest[0].offset {
      assert forall j :: 1 <= j < |rest| + 1 ==> ([b] + rest)[j] == rest[j - 1];
    } else {
      assert StartsFrom(rest[1..], p) by {
        assert forall j :: 0 <= j < |rest| - 1 ==> rest[1..][j] == rest[j + 1];
      }
      InsertAfterStartsFrom(rest[1..], b, p);
      var r := InsertAfter(rest[1..], b);
      assert forall j :: 1 <= j < |r| + 1 ==> ([rest[0]] + r)[j] == r[j - 1];
    }
  }

  /**
   * The step shared by the two walks: when the head of a sorted list lies
   * below the new block and the walk past it gave a sorted list, the head in
   * front of that list keeps it sorted.
   */
  lemma BoundStaysBelow(fl: seq<FreeBlock>, b: FreeBlock)
    requires fl != [] && Sorted(fl) && Positive(fl) && fl[0].End() <= b.offset
    requires Sorted(InsertAfter(fl[1..], b)) && Positive(InsertAfter(fl[1..], b))
    ensures Sorted([fl[0]] + InsertAfter(fl[1..], b)) && Positive([fl[0]] + InsertAfter(fl[1..], b))
  {
    var rest := fl[1..];
    assert StartsFrom(rest, fl[0].End()) by {
      assert forall j :: 0 <= j < |rest| ==> rest[j] == fl[j + 1];
    }
    InsertAfterStartsFrom(rest, b, fl[0].End());
    var r := InsertAfter(rest, b);
    SortedCons(fl[0], r);
    PositiveCons(fl[0], r);
  }

  lemma PositiveCons(x: FreeBlock, s: seq<FreeBlock>)
    requires x.size > 0 && Positive(s)
    ensures Positive([x] + s)
  {
    var t := [x] + s;
    assert forall j :: 1 <= j < |t| ==> t[j] == s[j - 1];
  }

  /** A block and the block right after it, merged into one. */
  function Merge(a: FreeBlock, b: FreeBlock): FreeBlock
  {
    FreeBlock(a.offset, a.size + b.size)
  }

  /**
   * coalesce: walk the list; where a block ends exactly where the next one
   * starts, absorb the next one and look again from the same block,
   * otherwise move on.
   */
  function Coalesced(fl: seq<FreeBlock>): (r: seq<FreeBlock>)
    ensures |r| <= |fl|
    ensures fl != [] ==> r != [] && r[0].offset == fl[0].offset
    decreases |fl|
  {
    if |fl| < 2 then fl
    else if fl[0].End() == fl[1].offset then Coalesced([Merge(fl[0], fl[1])] + fl[2..])
    else [fl[0]] + Coalesced(fl[1..])
  }

  /** Merging keeps the free bytes: coalescing neither gains nor loses a byte. */
  lemma {:induction false} CoalescedBytes(fl: seq<FreeBlock>)
    ensures FreeBytes(Coalesced(fl)) == FreeBytes(fl)
    decreases |fl|
  {
    if |fl| >= 2 {
      assert fl[1..][1..] == fl[2..];
      if fl[0].End() == fl[1].offset {
        var s := [Merge(fl[0], fl[1])] + fl[2..];
        assert s[1..] == fl[2..];
        CoalescedBytes(s);
      } else {
        CoalescedBytes(fl[1..]);
      }
    }
  }

  lemma SortedTail(fl: seq<FreeBlock>, n: nat)
    requires Sorted(fl) && n <= |fl|
    ensures Sorted(fl[n..])
  {
    assert forall i :: 0 <= i < |fl| - n ==> fl[n..][i] == fl[n + i];
  }

  /**
   * On a sorted list, coalescing gives a sorted list in which no block ends
   * where the next begins, and every block still starts at or after the first
   * block of the input.
   */
  lemma {:induction false} CoalescedSorted(fl: seq<FreeBlock>)
    requires Sorted(fl)
    ensures Sorted(Coalesced(fl)) && NoAdjacent(Coalesced(fl))
    ensures fl != [] ==> StartsFrom(Coalesced(fl), fl[0].offset)
    decreases |fl|
  {
    if |fl| < 2 {
    } else if fl[0].End() == fl[1].offset {
      var m := Merge(fl[0], fl[1]);
      SortedTail(fl, 2);
      forall j | 0 <= j < |fl| - 2
        ensures m.End() <= fl[2..][j].offset
      {
        assert fl[2..][j] == fl[j + 2];
      }
      SortedCons(m, fl[2..]);
      CoalescedSorted([m] + fl[2..]);
    } else {
      SortedTail(fl, 1);
      CoalescedSorted(fl[1..]);
      CoalescedSortedCons(fl);
    }
  }

  /** The step of CoalescedSorted where the head is kept. */
  lemma CoalescedSortedCons(fl: seq<FreeBlock>)
    requires |fl| >= 2 && Sorted(fl) && fl[0].End() != fl[1].offset
    requires Sorted(Coalesced(fl[1..])) && NoAdjacent(Coalesced(fl[1..]))
    requires StartsFrom(Coalesced(fl[1..]), fl[1].offset)
    ensures Sorted(Coalesced(fl)) && NoAdjacent(Coalesced(fl))
    ensures StartsFrom(Coalesced(fl), fl[0].offset)
  {
    var c := Coalesced(fl[1..]);
    assert fl[0].End() <= fl[1].offset;
    SortedCons(fl[0], c);
    var t := [fl[0]] + c;
    assert Coalesced(fl) == t;
    assert forall j :: 1 <= j < |t| ==> t[j] == c[j - 1];
  }

  /**
   * Where a block may lie: it can hold its FreeBlock record, it ends inside
   * the region, and it overlaps no live allocation.
   */
  predicate Placed(b: FreeBlock, total: nat, hs: Headers)
  {
    && FREE_BLOCK_SIZE <= b.size
    && b.End() <= total
    && forall h :: h in hs ==> Apart(b.offset, b.size, h, hs[h].size)
  }

  predicate AllPlaced(fl: seq<FreeBlock>, total: nat, hs: Headers)
  {
    forall i :: 0 <= i < |fl| ==> Placed(fl[i], total, hs)
  }

  /** Two placed blocks that touch merge into a placed block. */
  lemma MergePlaced(a: FreeBlock, b: FreeBlock, total: nat, hs: Headers)
    requires Placed(a, total, hs) && Placed(b, total, hs) && a.End() == b.offset
    requires forall h :: h in hs ==> hs[h].size > 0
    ensures Placed(Merge(a, b), total, hs)
  {}

  /** Coalescing places its blocks where the input blocks were. */
  lemma {:induction false} CoalescedPlaced(fl: seq<FreeBlock>, total: nat, hs: Headers)
    requires AllPlaced(fl, total, hs)
    requires forall h :: h in hs ==> hs[h].size > 0
    ensures AllPlaced(Coalesced(fl), total, hs)
    decreases |fl|
  {
    if |fl| < 2 {
    } else if fl[0].End() == fl[1].offset {
      var s := [Merge(fl[0], fl[1])] + fl[2..];
      MergePlaced(fl[0], fl[1], total, hs);
      assert forall i :: 1 <= i < |s| ==> s[i] == fl[i + 1];
      CoalescedPlaced(s, total, hs);
    } else {
      assert forall i :: 0 <= i < |fl| - 1 ==> fl[1..][i] == fl[i + 1];
      CoalescedPlaced(fl[1..], total, hs);
      var c := Coalesced(fl[1..]);
      assert forall j :: 1 <= j < |c| + 1 ==> ([fl[0]] + c)[j] == c[j - 1];
    }
  }

  /** The outcome of taking a request out of a chosen block: the new list and the bytes the header records. */
  datatype Carving = Carving(free: seq<FreeBlock>, consumed: nat)

  /**
   * The split rule of allocate: when at least sizeof(FreeBlock) +
   * MIN_BLOCK_SIZE bytes would remain, the rest of the block becomes a new
   * free block in its place; otherwise the whole block leaves the list and
   * the allocation takes all of it. Either way the free bytes drop by exactly
   * what the header records.
   */
  function Carve(fl: seq<FreeBlock>, k: nat, request: nat): (c: Carving)
    requires k < |fl| && request <= fl[k].size
    ensures c.consumed == request || c.consumed == fl[k].size
    ensures request <= c.consumed <= fl[k].size
    ensures FreeBytes(c.free) + c.consumed == FreeBytes(fl)
  {
    var b := fl[k];
    var remaining := b.size - request;
    if remaining >= FREE_BLOCK_SIZE + MIN_BLOCK_SIZE then
      var rest := FreeBlock(b.offset + request, remaining);
      FreeBytesReplace(fl, k, [rest]);
      assert FreeBytes([rest]) == remaining by { assert [rest][1..] == []; }
      Carving(fl[..k] + [rest] + fl[k + 1..], request)
    else
      FreeBytesReplace(fl, k, []);
      assert fl[..k] + [] + fl[k + 1..] == fl[..k] + fl[k + 1..];
      Carving(fl[..k] + fl[k + 1..], b.size)
  }

  /** Replacing one block by a run of blocks changes the free bytes by the difference. */
  lemma FreeBytesReplace(fl: seq<FreeBlock>, k: nat, mid: seq<FreeBlock>)
    requires k < |fl|
    ensures FreeBytes(fl[..k] + mid + fl[k + 1..]) + fl[k].size == FreeBytes(fl) + FreeBytes(mid)
  {
    assert fl == fl[..k] + [fl[k]] + fl[k + 1..];
    FreeBytesAppend(fl[..k] + [fl[k]], fl[k + 1..]);
    FreeBytesAppend(fl[..k], [fl[k]]);
    FreeBytesAppend(fl[..k] + mid, fl[k + 1..]);
    FreeBytesAppend(fl[..k], mid);
    assert FreeBytes([fl[k]]) == fl[k].size by { assert [fl[k]][1..] == []; }
  }

  /** find_first_fit's choice: the first block of at least `request` bytes, or |fl| when there is none. */
  predicate FirstFitAt(fl: seq<FreeBlock>, request: nat, k: nat)
  {
    && k <= |fl|
    && (forall i :: 0 <= i < k ==> fl[i].size < request)
    && (k < |fl| ==> request <= fl[k].size)
  }

  /** A block find_best_fit can pick: large enough, and below its SIZE_MAX starting bound. */
  predicate BestCandidate(b: FreeBlock, request: nat)
  {
    request <= b.size < SIZE_MAX
  }

  /**
   * find_best_fit's choice: the smallest candidate, the first of them on a
   * tie (the comparison is strict), or |fl| when there is no candidate.
   */
  predicate BestFitAt(fl: seq<FreeBlock>, request: nat, k: nat)
  {
    && k <= |fl|
    && (k == |fl| ==> forall i :: 0 <= i < |fl| ==> !BestCandidate(fl[i], request))
    && (k < |fl| ==>
          && BestCandidate(fl[k], request)
          && (forall i :: 0 <= i < |fl| && BestCandidate(fl[i], request) ==> fl[k].size <= fl[i].size)
          && (forall i :: 0 <= i < k && BestCandidate(fl[i], request) ==> fl[k].size < fl[i].size))
  }

  /** A block find_worst_fit can pick: large enough, and above its 0 starting bound. */
  predicate WorstCandidate(b: FreeBlock, request: nat)
  {
    request <= b.size && 0 < b.size
  }

  /**
   * find_worst_fit's choice: the largest candidate, the first of them on a
   * tie, or |fl| when there is no candidate.
   */
  predicate WorstFitAt(fl: seq<FreeBlock>, request: nat, k: nat)
  {
    && k <= |fl|
    && (k == |fl| ==> forall i :: 0 <= i < |fl| ==> !WorstCandidate(fl[i], request))
    && (k < |fl| ==>
          && WorstCandidate(fl[k], request)
          && (forall i :: 0 <= i < |fl| && WorstCandidate(fl[i], request) ==> fl[i].size <= fl[k].size)
          && (forall i :: 0 <= i < k && WorstCandidate(fl[i], request) ==> fl[i].size < fl[k].size))
  }

  /** The block allocate's switch picks under a policy. */
  predicate ChosenAt(policy: FitPolicy, fl: seq<FreeBlock>, request: nat, k: nat)
  {
    match policy
    case FirstFit => FirstFitAt(fl, request, k)
    case BestFit => BestFitAt(fl, request, k)
    case WorstFit => WorstFitAt(fl, request, k)
  }

  /** Each policy determines its block: the characterizations leave one choice. */
  lemma ChoiceUnique(policy: FitPolicy, fl: seq<FreeBlock>, request: nat, k1: nat, k2: nat)
    requires ChosenAt(policy, fl, request, k1) && ChosenAt(policy, fl, request, k2)
    ensures k1 == k2
  {
  }

  /**
   * When every block is below SIZE_MAX (as in any region) and the request is
   * not empty, a policy finds nothing exactly when no block is large enough.
   */
  lemma NoChoiceMeansNoFit(policy: FitPolicy, fl: seq<FreeBlock>, request: nat, k: nat)
    requires ChosenAt(policy, fl, request, k)
    requires request > 0 && forall i :: 0 <= i < |fl| ==> fl[i].size < SIZE_MAX
    ensures k == |fl| <==> forall i :: 0 <= i < |fl| ==> fl[i].size < request
  {
    match policy
    case FirstFit =>
    case BestFit =>
    case WorstFit =>
  }

  /** The least key of a non-empty set of offsets. */
  ghost function MinKey(keys: set<nat>): (m: nat)
    requires keys != {}
    ensures m in keys
    ensures forall x :: x in keys ==> m <= x
    decreases |keys|
  {
    var x :| x in keys;
    if keys == {x} then x
    else
      var rest := keys - {x};
      assert rest != {} by {
        var y :| y in keys && y != x;
        assert y in rest;
      }
      var m := MinKey(rest);
      assert forall y :: y in keys ==> y == x || y in rest;
      if m < x then m else x
  }

  /** The bytes held by live allocations: the sum of their header sizes. */
  ghost function LiveBytes(hs: Headers): nat
    decreases |hs.Keys|
  {
    if hs == map[] then 0
    else
      var h := MinKey(hs.Keys);
      assert (hs - {h}).Keys == hs.Keys - {h};
      hs[h].size + LiveBytes(hs - {h})
  }

  /** Any header can be taken out of the sum first. */
  lemma {:induction false} LiveBytesRemove(hs: Headers, k: nat)
    requires k in hs
    ensures LiveBytes(hs) == hs[k].size + LiveBytes(hs - {k})
    decreases |hs.Keys|
  {
    var m := MinKey(hs.Keys);
    if m != k {
      var rest := hs - {m};
      assert rest.Keys == hs.Keys - {m};
      LiveBytesRemove(rest, k);
      var without := hs - {k};
      assert without.Keys == hs.Keys - {k};
      var m' := MinKey(without.Keys);
      assert m' <= m && m <= m';
      assert without - {m} == rest - {k};
    }
  }

  /** Adding a header at a new offset adds its size. */
  lemma LiveBytesAdd(hs: Headers, k: nat, header: AllocationHeader)
    requires k !in hs
    ensures LiveBytes(hs[k := header]) == LiveBytes(hs) + header.size
  {
    LiveBytesRemove(hs[k := header], k);
    assert hs[k := header] - {k} == hs;
  }

  /** Every allocation is larger than its header, lies inside the region, and overlaps no other. */
  predicate HeadersPlaced(hs: Headers, total: nat)
  {
    && (forall h :: h in hs ==> HEADER_SIZE < hs[h].size && h + hs[h].size <= total)
    && (forall h, g :: h in hs && g in hs && h != g ==> Apart(h, hs[h].size, g, hs[g].size))
  }

  /** A header written at the start of a placed block, no larger than the block, keeps the headers placed. */
  lemma HeaderInBlock(hs: Headers, total: nat, b: FreeBlock, size: nat)
    requires HeadersPlaced(hs, total) && Placed(b, total, hs) && HEADER_SIZE < size <= b.size
    ensures b.offset !in hs
    ensures HeadersPlaced(hs[b.offset := AllocationHeader(size, 0)], total)
  {
  }

  /** The free list and the live headers of a region. */
  datatype Arena = Arena(free: seq<FreeBlock>, headers: Headers)
  {
    /**
     * The region is tiled: the free blocks are in address order and each can
     * hold its record; every allocation is larger than its header and lies
     * inside the region; nothing overlaps; and the free bytes plus the bytes
     * of the live allocations are the whole region.
     */
    ghost predicate Valid(total: nat)
    {
      && Sorted(free)
      && AllPlaced(free, total, headers)
      && HeadersPlaced(headers, total)
      && FreeBytes(free) + LiveBytes(headers) == total
    }

    /** allocate's effect once a block is chosen: carve the request out of it and write the header at its start. */
    function Carved(k: nat, request: nat): Arena
      requires k < |free| && request <= free[k].size
    {
      var c := Carve(free, k, request);
      Arena(c.free, headers[free[k].offset := AllocationHeader(c.consumed, 0)])
    }

    /**
     * allocate's effect as the bytes see it. The header and a free block's
     * record share the first two words of a block, so when the record the
     * split leaves on the list sits where the header is written, the header's
     * `size` becomes that record's size and its zero `adjustment` becomes a
     * null `next`: the list ends there.
     */
    function CarvedAsWritten(k: nat, request: nat): Arena
      requires k < |free| && request <= free[k].size
    {
      var c := Carve(free, k, request);
      var h := free[k].offset;
      if k < |c.free| && c.free[k].offset == h then
        Arena(c.free[..k] + [FreeBlock(h, c.consumed)], headers[h := AllocationHeader(c.consumed, 0)])
      else
        Carved(k, request)
    }

    /** deallocate's effect: the allocation's bytes go back on the list, which is then coalesced. */
    function Freed(h: nat): Arena
      requires h in headers
    {
      Arena(Coalesced(InsertSorted(free, FreeBlock(h, headers[h].size))), headers - {h})
    }
  }

  /** The list the constructor and reset build: one free block spanning the region. */
  function Whole(total: nat): Arena
  {
    Arena([FreeBlock(0, total)], map[])
  }

  /** A region large enough for a FreeBlock record starts out tiled. */
  lemma WholeValid(total: nat)
    requires FREE_BLOCK_SIZE <= total
    ensures Whole(total).Valid(total)
  {
    var a := Whole(total);
    assert FreeBytes(a.free) == total by { assert a.free[1..] == []; }
  }

  /**
   * A region smaller than a FreeBlock record, as the constructor builds it:
   * the record written at offset 0 runs past the region's end, and the
   * spanning block cannot be placed.
   */
  lemma SmallRegionOverruns(total: nat)
    requires total < FREE_BLOCK_SIZE
    ensures Whole(total).free[0].offset + FREE_BLOCK_SIZE > total
    ensures !Whole(total).Valid(total)
  {
    assert !Placed(Whole(total).free[0], total, map[]);
  }

  /** Taking an allocation out of a chosen block keeps the region tiled. */
  lemma CarvedValid(a: Arena, total: nat, k: nat, request: nat)
    requires a.Valid(total) && k < |a.free| && HEADER_SIZE < request <= a.free[k].size
    ensures a.free[k].offset !in a.headers
    ensures a.Carved(k, request).Valid(total)
  {
    var b := a.free[k];
    var c := Carve(a.free, k, request);
    HeaderInBlock(a.headers, total, b, c.consumed);
    LiveBytesAdd(a.headers, b.offset, AllocationHeader(c.consumed, 0));
    CarvedSorted(a.free, k, request);
    CarvedPlaced(a.free, total, a.headers, k, request);
  }

  /** The list after carving stays in address order. */
  lemma CarvedSorted(fl: seq<FreeBlock>, k: nat, request: nat)
    requires Sorted(fl) && k < |fl| && request <= fl[k].size
    ensures Sorted(Carve(fl, k, request).free)
  {
    if fl[k].size - request >= FREE_BLOCK_SIZE + MIN_BLOCK_SIZE {
      SplitSorted(fl, k, FreeBlock(fl[k].offset + request, fl[k].size - request));
    } else {
      UnlinkSorted(fl, k);
    }
  }

  /** Replacing a block by a block inside it keeps the list in address order. */
  lemma SplitSorted(fl: seq<FreeBlock>, k: nat, rest: FreeBlock)
    requires Sorted(fl) && k < |fl|
    requires fl[k].offset <= rest.offset && rest.End() <= fl[k].End()
    ensures Sorted(fl[..k] + [rest] + fl[k + 1..])
  {
    var r := fl[..k] + [rest] + fl[k + 1..];
    forall i, j | 0 <= i < j < |r|
      ensures r[i].End() <= r[j].offset
    {
      assert r[i] == (if i == k then rest else fl[i]);
      assert r[j] == (if j == k then rest else fl[j]);
      assert fl[i].End() <= fl[j].offset;
    }
  }

  /** Dropping a block keeps the list in address order. */
  lemma UnlinkSorted(fl: seq<FreeBlock>, k: nat)
    requires Sorted(fl) && k < |fl|
    ensures Sorted(fl[..k] + fl[k + 1..])
  {
    var r := fl[..k] + fl[k + 1..];
    forall i, j | 0 <= i < j < |r|
      ensures r[i].End() <= r[j].offset
    {
      var i', j' := if i < k then i else i + 1, if j < k then j else j + 1;
      assert r[i] == fl[i'] && r[j] == fl[j'];
      assert fl[i'].End() <= fl[j'].offset;
    }
  }

  /**
   * After carving, every free block is placed with respect to the headers
   * including the new one: the new header and the remainder both lie inside
   * the chosen block, which overlapped nothing.
   */
  lemma CarvedPlaced(fl: seq<FreeBlock>, total: nat, hs: Headers, k: nat, request: nat)
    requires Sorted(fl) && AllPlaced(fl, total, hs) && k < |fl| && request <= fl[k].size
    ensures AllPlaced(Carve(fl, k, request).free, total, hs[fl[k].offset := AllocationHeader(Carve(fl, k, request).consumed, 0)])
  {
    var b := fl[k];
    var c := Carve(fl, k, request);
    var hs' := hs[b.offset := AllocationHeader(c.consumed, 0)];
    OthersPlaced(fl, total, hs, k, c.consumed);
    if b.size - request >= FREE_BLOCK_SIZE + MIN_BLOCK_SIZE {
      assert Placed(b, total, hs);
      ReplacedPlaced(fl, total, hs', k, [FreeBlock(b.offset + request, b.size - request)]);
    } else {
      ReplacedPlaced(fl, total, hs', k, []);
    }
  }

  /** Replacing one block by placed blocks, when every other block is placed, leaves all blocks placed. */
  lemma ReplacedPlaced(fl: seq<FreeBlock>, total: nat, hs: Headers, k: nat, mid: seq<FreeBlock>)
    requires k < |fl| && |mid| <= 1
    requires forall i :: 0 <= i < |fl| && i != k ==> Placed(fl[i], total, hs)
    requires forall i :: 0 <= i < |mid| ==> Placed(mid[i], total, hs)
    ensures AllPlaced(fl[..k] + mid + fl[k + 1..], total, hs)
  {
    var r := fl[..k] + mid + fl[k + 1..];
    assert forall i :: 0 <= i < k ==> r[i] == fl[i];
    assert forall i :: k <= i < k + |mid| ==> r[i] == mid[i - k];
    assert forall i :: k + |mid| <= i < |r| ==> r[i] == fl[i - |mid| + 1];
  }

  /** A header written inside one block of a sorted list lies apart from every other block. */
  lemma OthersPlaced(fl: seq<FreeBlock>, total: nat, hs: Headers, k: nat, size: nat)
    requires Sorted(fl) && AllPlaced(fl, total, hs) && k < |fl| && size <= fl[k].size
    ensures forall i :: 0 <= i < |fl| && i != k ==> Placed(fl[i], total, hs[fl[k].offset := AllocationHeader(size, 0)])
  {
    var hs' := hs[fl[k].offset := AllocationHeader(size, 0)];
    forall i | 0 <= i < |fl| && i != k
      ensures Placed(fl[i], total, hs')
    {
      assert Placed(fl[i], total, hs);
      assert Apart(fl[i].offset, fl[i].size, fl[k].offset, size);
    }
  }

  /** Giving an allocation back, inserting and coalescing keeps the region tiled. */
  lemma FreedValid(a: Arena, total: nat, h: nat)
    requires a.Valid(total) && h in a.headers
    ensures a.Freed(h).Valid(total)
  {
    var b := FreeBlock(h, a.headers[h].size);
    var hs := a.headers - {h};
    assert ApartFromAll(a.free, b) by {
      forall i | 0 <= i < |a.free|
        ensures Apart(b.offset, b.size, a.free[i].offset, a.free[i].size)
      {
        assert Placed(a.free[i], total, a.headers);
      }
    }
    assert Positive(a.free) by {
      forall i | 0 <= i < |a.free| ensures a.free[i].size > 0 {
        assert Placed(a.free[i], total, a.headers);
      }
    }
    InsertKeepsSorted(a.free, b);
    var ins := InsertSorted(a.free, b);
    InsertedPlaced(a.free, total, a.headers, h);
    InsertBytes(a.free, b);
    CoalescedSorted(ins);
    CoalescedPlaced(ins, total, hs);
    CoalescedBytes(ins);
    LiveBytesRemove(a.headers, h);
  }

  /** After inserting the freed block, every block is placed with respect to the remaining headers. */
  lemma InsertedPlaced(fl: seq<FreeBlock>, total: nat, hs: Headers, h: nat)
    requires AllPlaced(fl, total, hs) && h in hs
    requires HEADER_SIZE < hs[h].size && h + hs[h].size <= total
    requires forall g :: g in hs && g != h ==> Apart(h, hs[h].size, g, hs[g].size)
    ensures AllPlaced(InsertSorted(fl, FreeBlock(h, hs[h].size)), total, hs - {h})
  {
    var b := FreeBlock(h, hs[h].size);
    var r := InsertSorted(fl, b);
    forall i | 0 <= i < |r|
      ensures Placed(r[i], total, hs - {h})
    {
      assert r[i] in multiset(r);
      if r[i] != b {
        assert r[i] in multiset(fl);
        var m :| 0 <= m < |fl| && fl[m] == r[i];
        assert Placed(fl[m], total, hs);
      }
    }
  }

  /**
   * On a fresh region, allocating any request the block can hold and freeing
   * it again gives back the single block spanning the region, whether the
   * block was split or taken whole.
   */
  lemma WholeRoundTrip(total: nat, request: nat)
    requires HEADER_SIZE < request <= total
    ensures Whole(total).Carved(0, request).Freed(0) == Whole(total)
  {
    var a := Whole(total);
    var c := Carve(a.free, 0, request);
    var carved := a.Carved(0, request);
    assert carved.headers == map[0 := AllocationHeader(c.consumed, 0)];
    assert carved.headers - {0} == map[];
    var ins := InsertSorted(c.free, FreeBlock(0, c.consumed));
    if total - request >= FREE_BLOCK_SIZE + MIN_BLOCK_SIZE {
      assert c.free == [FreeBlock(request, total - request)];
      assert ins == [FreeBlock(0, request), FreeBlock(request, total - request)];
      assert Coalesced(ins) == Coalesced([FreeBlock(0, total)]);
    } else {
      assert c.free == [];
      assert ins == [FreeBlock(0, total)];
    }
  }

  /**
   * allocate's `total_size` overflows `size_t`: in `size + sizeof(AllocationHeader)`,
   * in align_size's sum, or in `~(alignment - 1)`, which is 0 for a zero alignment.
   */
  predicate RequestOverflows(size: u64, alignment: u64)
  {
    alignment == 0 || size + HEADER_SIZE + alignment - 1 >= WORD
  }

  /** allocate's `total_size` as written: both additions wrap modulo 2^64. */
  function RequestSizeAsWritten(size: u64, alignment: u64): u64
  {
    AlignSize(Wrap(size + HEADER_SIZE), alignment)
  }

  /**
   * `total_size` where nothing overflows: the value the code computes, at
   * least the size plus its header, and for a power-of-two alignment the
   * least multiple of the alignment that holds both.
   */
  function RequestSize(size: u64, alignment: u64): (r: nat)
    requires !RequestOverflows(size, alignment)
    ensures r == RequestSizeAsWritten(size, alignment)
    ensures size + HEADER_SIZE <= r < WORD
    ensures IsPowerOfTwo(alignment) ==> r == AlignUp(size + HEADER_SIZE, alignment)
  {
    var total := size + HEADER_SIZE;
    AlignSizeAtLeast(total, alignment);
    if IsPowerOfTwo(alignment) then
      AlignSizeRounds(total, alignment);
      AlignSize(total, alignment)
    else
      AlignSize(total, alignment)
  }

  /**
   * As written, a request of SIZE_MAX - 15 bytes wraps to a total of 0 (at
   * alignment 1), and so does every request at alignment 0.
   */
  lemma RequestSizeWraps(size: u64)
    ensures RequestSizeAsWritten(SIZE_MAX - 15, 1) == 0
    ensures RequestSizeAsWritten(size, 0) == 0
  {
  }

  /**
   * For any request that is not 0, the header never lands on a record that
   * is still listed, so the offset-keyed Carved is allocate's whole effect.
   */
  lemma CarvedAsWrittenAgrees(a: Arena, total: nat, k: nat, request: nat)
    requires a.Valid(total) && k < |a.free| && 0 < request <= a.free[k].size
    ensures a.CarvedAsWritten(k, request) == a.Carved(k, request)
  {
    var c := Carve(a.free, k, request);
    if k < |c.free| {
      if a.free[k].size - request >= FREE_BLOCK_SIZE + MIN_BLOCK_SIZE {
        assert c.free[k].offset == a.free[k].offset + request;
      } else {
        assert c.free[k] == a.free[k + 1];
        assert Placed(a.free[k], total, a.headers);
        assert a.free[k].End() <= a.free[k + 1].offset;
      }
    }
  }

  /**
   * A total of 0 carved out of a block of at least FREE_BLOCK_SIZE +
   * MIN_BLOCK_SIZE bytes: the split record lands on the block's own address,
   * the header write sets its size to 0 and its `next` to null, and every
   * free byte from that block on is lost to the list.
   */
  lemma ZeroRequestCutsList(a: Arena, k: nat)
    requires k < |a.free| && a.free[k].size >= FREE_BLOCK_SIZE + MIN_BLOCK_SIZE
    ensures a.CarvedAsWritten(k, 0).free == a.free[..k] + [FreeBlock(a.free[k].offset, 0)]
    ensures FreeBytes(a.CarvedAsWritten(k, 0).free) + FreeBytes(a.free[k..]) == FreeBytes(a.free)
    ensures a.CarvedAsWritten(k, 0).headers == a.headers[a.free[k].offset := AllocationHeader(0, 0)]
  {
    var fl := a.free;
    var b := fl[k];
    var rest := FreeBlock(b.offset + 0, b.size - 0);
    var c := Carve(fl, k, 0);
    assert c.free == fl[..k] + [rest] + fl[k + 1..];
    assert c.free[k] == rest;
    assert c.free[..k] == fl[..k];
    var cut := fl[..k] + [FreeBlock(b.offset, 0)];
    assert a.CarvedAsWritten(k, 0).free == cut;
    assert fl == fl[..k] + fl[k..];
    FreeBytesAppend(fl[..k], fl[k..]);
    FreeBytesAppend(fl[..k], [FreeBlock(b.offset, 0)]);
    assert FreeBytes([FreeBlock(b.offset, 0)]) == 0 by { assert [FreeBlock(b.offset, 0)][1..] == []; }
  }

  /**
   * On a fresh region a total of 0 passes first fit; the header of size 0
   * overwrites the spanning block's record, so the list keeps one empty
   * block, no free byte is left, and the region is no longer tiled.
   */
  lemma ZeroRequestBreaksTiling(total: nat)
    requires total >= FREE_BLOCK_SIZE + MIN_BLOCK_SIZE
    ensures FirstFitAt(Whole(total).free, 0, 0)
    ensures Whole(total).CarvedAsWritten(0, 0) == Arena([FreeBlock(0, 0)], map[0 := AllocationHeader(0, 0)])
    ensures FreeBytes(Whole(total).CarvedAsWritten(0, 0).free) == 0
    ensures !Whole(total).CarvedAsWritten(0, 0).Valid(total)
  {
    ZeroRequestCutsList(Whole(total), 0);
    var fl := Whole(total).free;
    assert fl[..0] + [FreeBlock(0, 0)] == [FreeBlock(0, 0)];
    assert fl[0..] == fl;
    assert FreeBytes(fl) == total by { assert fl[1..] == []; }
    var after := Whole(total).CarvedAsWritten(0, 0);
    assert !Placed(after.free[0], total, after.headers);
  }

  /** One step of coalesce's loop that merges the current block with the next. */
  lemma CoalesceMergeStep(fl: seq<FreeBlock>, i: nat)
    requires i + 1 < |fl| && fl[i].End() == fl[i + 1].offset
    ensures var fl' := fl[..i] + [Merge(fl[i], fl[i + 1])] + fl[i + 2..];
      fl'[..i] == fl[..i] && Coalesced(fl'[i..]) == Coalesced(fl[i..])
  {
    var fl' := fl[..i] + [Merge(fl[i], fl[i + 1])] + fl[i + 2..];
    assert fl'[i..] == [Merge(fl[i], fl[i + 1])] + fl[i + 2..];
    assert fl[i..][2..] == fl[i + 2..];
  }

  /** One step of coalesce's loop that moves past the current block. */
  lemma CoalesceSkipStep(fl: seq<FreeBlock>, i: nat)
    requires i + 1 < |fl| && fl[i].End() != fl[i + 1].offset
    ensures fl[..i] + Coalesced(fl[i..]) == fl[..i + 1] + Coalesced(fl[i + 1..])
  {
    assert fl[i..][1..] == fl[i + 1..];
    assert fl[..i + 1] == fl[..i] + [fl[i]];
  }

  /** One step of insert_free_block's walk past a block below the new one. */
  lemma InsertWalkStep(fl: seq<FreeBlock>, i: nat, b: FreeBlock)
    requires i + 1 < |fl| && fl[i + 1].offset < b.offset
    ensures fl[..i + 1] + InsertAfter(fl[i + 1..], b) == fl[..i + 2] + InsertAfter(fl[i + 2..], b)
  {
    var t := fl[i + 1..];
    assert t[0] == fl[i + 1] && t[1..] == fl[i + 2..];
    assert InsertAfter(t, b) == [fl[i + 1]] + InsertAfter(fl[i + 2..], b);
    assert fl[..i + 2] == fl[..i + 1] + [fl[i + 1]];
  }

  /** Where insert_free_block's walk stops, the new block goes right after the current one. */
  lemma InsertWalkDone(fl: seq<FreeBlock>, i: nat, b: FreeBlock)
    requires i < |fl| && (i + 1 == |fl| || b.offset <= fl[i + 1].offset)
    ensures fl[..i + 1] + InsertAfter(fl[i + 1..], b) == fl[..i + 1] + [b] + fl[i + 1..]
  {
    if i + 1 < |fl| {
      assert fl[i + 1..][0] == fl[i + 1];
    } else {
      assert fl[i + 1..] == [];
    }
  }
}
