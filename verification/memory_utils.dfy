/**
 * The pure `size_t` helpers of the allocators (MemoryUtils), on 64-bit
 * machine words. `bv64` arithmetic wraps modulo 2^64 exactly as `size_t`
 * arithmetic does, so every function here is the C++ expression itself.
 */
module MemoryUtils {

  /** The largest power of two a `size_t` holds, 2^63. */
  const TOP_BIT: bv64 := 0x8000_0000_0000_0000

  /** align_forward: round `address` up to a multiple of `alignment` with a mask. */
  function AlignForward(address: bv64, alignment: bv64): bv64
  {
    (address + alignment - 1) & !(alignment - 1)
  }

  /** is_power_of_two: exactly one bit of `value` is set. */
  predicate IsPowerOfTwo(value: bv64)
  {
    value > 0 && value & (value - 1) == 0
  }

  /** The word with only bit k set. */
  function Bit(k: bv64): bv64
    requires k < 64
  {
    1 << k
  }

  /** The position of the highest set bit, found by halving. */
  function HighBit(v: bv64): bv64
    decreases v
  {
    if v <= 1 then 0 else 1 + HighBit(v >> 1)
  }

  /** is_power_of_two accepts exactly the words with a single bit set. */
  lemma PowerOfTwoOneBit(v: bv64)
    ensures IsPowerOfTwo(v) <==> exists k: bv64 :: k < 64 && v == Bit(k)
  {
    if IsPowerOfTwo(v) {
      PowerOfTwoIsBit(v);
    }
    forall k: bv64 | k < 64 && v == Bit(k)
      ensures IsPowerOfTwo(v)
    {
      BitIsPowerOfTwo(k);
    }
  }

  /** A power of two is the single bit at its highest set position. */
  lemma {:induction false} PowerOfTwoIsBit(v: bv64)
    requires IsPowerOfTwo(v)
    ensures HighBit(v) < 64 && v == Bit(HighBit(v))
    decreases v
  {
    if v > 1 {
      HalfOfPower(v);
      var h := v >> 1;
      PowerOfTwoIsBit(h);
      BitBelowTop(HighBit(h));
      DoubleBit(HighBit(h));
    }
  }

  lemma BitIsPowerOfTwo(k: bv64)
    requires k < 64
    ensures IsPowerOfTwo(Bit(k))
  {}

  /** Halving a power of two above 1 gives a power of two below the top bit, and doubling restores it. */
  lemma HalfOfPower(v: bv64)
    requires IsPowerOfTwo(v) && v > 1
    ensures IsPowerOfTwo(v >> 1) && v == (v >> 1) << 1 && v >> 1 < TOP_BIT
  {}

  lemma DoubleBit(k: bv64)
    requires k < 63
    ensures Bit(k) << 1 == Bit(k + 1)
  {}

  lemma BitBelowTop(k: bv64)
    requires k < 64 && Bit(k) < TOP_BIT
    ensures k < 63
  {}

  /** The bit-smearing of next_power_of_two: every bit below the highest set bit is set. */
  function Smear(v: bv64): (r: bv64)
    ensures v <= r
  {
    var v1 := v | (v >> 1);
    var v2 := v1 | (v1 >> 2);
    var v3 := v2 | (v2 >> 4);
    var v4 := v3 | (v3 >> 8);
    var v5 := v4 | (v4 >> 16);
    v5 | (v5 >> 32)
  }

  /** next_power_of_two: decrement, smear the bits down, increment. */
  function NextPowerOfTwo(value: bv64): bv64
  {
    Smear(value - 1) + 1
  }

  /** get_page_size: the same constant on every platform. */
  const PAGE_SIZE: bv64 := 4096

  function KB(n: bv64): bv64 { n * 1024 }
  function MB(n: bv64): bv64 { n * 1024 * 1024 }
  function GB(n: bv64): bv64 { n * 1024 * 1024 * 1024 }

  /** A mask and its complement split a word into two parts that add up to it; the masked part is at most the mask. */
  lemma MaskSplit(y: bv64, m: bv64)
    ensures (y & !m) + (y & m) == y
    ensures y & m <= m
  {}

  /**
   * For a power-of-two alignment and an address whose rounding does not wrap,
   * align_forward returns the least multiple of the alignment at or above the address:
   * its low bits are clear, it is not below the address, and it is at most
   * alignment - 1 above it.
   */
  lemma AlignForwardRounds(address: bv64, alignment: bv64)
    requires IsPowerOfTwo(alignment)
    requires address <= address + (alignment - 1)
    ensures AlignForward(address, alignment) & (alignment - 1) == 0
    ensures address <= AlignForward(address, alignment)
    ensures AlignForward(address, alignment) <= address + (alignment - 1)
  {
    AlignedLowBits(address, alignment);
    AlignForwardAbove(address, alignment);
    AlignForwardWithin(address, alignment);
  }

  lemma AlignedLowBits(address: bv64, alignment: bv64)
    requires IsPowerOfTwo(alignment)
    ensures AlignForward(address, alignment) & (alignment - 1) == 0
  {}

  lemma AlignForwardAbove(address: bv64, alignment: bv64)
    requires IsPowerOfTwo(alignment)
    requires address <= address + (alignment - 1)
    ensures address <= AlignForward(address, alignment)
  {
    var m := alignment - 1;
    MaskSplit(address + m, m);
  }

  lemma AlignForwardWithin(address: bv64, alignment: bv64)
    requires IsPowerOfTwo(alignment)
    requires address <= address + (alignment - 1)
    ensures AlignForward(address, alignment) <= address + (alignment - 1)
  {}

  /** An address that already has the alignment is returned unchanged. */
  lemma AlignForwardKeepsAligned(address: bv64, alignment: bv64)
    requires IsPowerOfTwo(alignment)
    requires address & (alignment - 1) == 0
    ensures AlignForward(address, alignment) == address
  {}

  /** Aligning twice is aligning once. */
  lemma AlignForwardIdempotent(address: bv64, alignment: bv64)
    requires IsPowerOfTwo(alignment)
    requires address <= address + (alignment - 1)
    ensures AlignForward(AlignForward(address, alignment), alignment) == AlignForward(address, alignment)
  {
    AlignForwardRounds(address, alignment);
    AlignForwardKeepsAligned(AlignForward(address, alignment), alignment);
  }

  /** Smearing a value below a power of two stays below it. */
  lemma SmearStepBelow(s: bv64, p: bv64, k: bv64)
    requires IsPowerOfTwo(p) && s < p && k < 64
    ensures s | (s >> k) < p
  {}

  lemma SmearBelow(v: bv64, p: bv64)
    requires IsPowerOfTwo(p) && v < p
    ensures Smear(v) < p
  {
    var v1 := v | (v >> 1);
    SmearStepBelow(v, p, 1);
    var v2 := v1 | (v1 >> 2);
    SmearStepBelow(v1, p, 2);
    var v3 := v2 | (v2 >> 4);
    SmearStepBelow(v2, p, 4);
    var v4 := v3 | (v3 >> 8);
    SmearStepBelow(v3, p, 8);
    var v5 := v4 | (v4 >> 16);
    SmearStepBelow(v4, p, 16);
    SmearStepBelow(v5, p, 32);
  }

  /**
   * For 1 <= value <= 2^63, next_power_of_two returns the least power of two
   * that is at least `value`.
   */
  lemma NextPowerOfTwoIsLeast(value: bv64)
    requires 1 <= value <= TOP_BIT
    ensures IsPowerOfTwo(NextPowerOfTwo(value))
    ensures value <= NextPowerOfTwo(value)
    ensures forall p :: IsPowerOfTwo(p) && value <= p ==> NextPowerOfTwo(value) <= p
  {
    NextPowerOfTwoIsPower(value);
    NextPowerOfTwoAbove(value);
    forall p | IsPowerOfTwo(p) && value <= p
      ensures NextPowerOfTwo(value) <= p
    {
      SmearBelow(value - 1, p);
    }
  }

  lemma NextPowerOfTwoIsPower(value: bv64)
    requires 1 <= value <= TOP_BIT
    ensures IsPowerOfTwo(NextPowerOfTwo(value))
  {}

  lemma NextPowerOfTwoAbove(value: bv64)
    requires 1 <= value <= TOP_BIT
    ensures value <= NextPowerOfTwo(value)
  {
    SmearBelow(value - 1, TOP_BIT);
  }

  /** A power of two is its own next power of two. */
  lemma NextPowerOfTwoFixesPowers(value: bv64)
    requires IsPowerOfTwo(value)
    ensures NextPowerOfTwo(value) == value
  {
    NextPowerOfTwoIsLeast(value);
  }

  /** Out of range, the decrement or the increment wraps and the result is 0. */
  lemma NextPowerOfTwoWraps(value: bv64)
    requires value == 0 || value > TOP_BIT
    ensures NextPowerOfTwo(value) == 0
  {}

  lemma PageSizeIsPowerOfTwo()
    ensures IsPowerOfTwo(PAGE_SIZE)
  {}

  /** The units nest: a megabyte is a kilobyte of kilobytes, a gigabyte a kilobyte of megabytes, even when the product wraps. */
  lemma UnitsNest(n: bv64)
    ensures MB(n) == KB(KB(n))
    ensures GB(n) == KB(MB(n))
  {}

  /** Without wrap-around a unit is an exact multiple: dividing gives back the count. */
  lemma UnitsRoundTrip(n: bv64)
    requires n < 0x40_0000_0000_0000
    ensures KB(n) / 1024 == n
  {}
}
