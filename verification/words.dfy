/**
 * The machine word of the allocators: `size_t` is an unsigned 64-bit integer.
 * Arithmetic on it wraps modulo 2^64, and the bitwise AND used by the
 * alignment helpers is given here on non-negative integers so that it can be
 * reasoned about together with the integer offsets of the allocators.
 */
module Words {

  /** 2^64, the number of distinct `size_t` values. */
  const WORD: nat := 0x1_0000_0000_0000_0000

  /** An unsigned 64-bit value (`size_t`). */
  type u64 = x: int | 0 <= x < 0x1_0000_0000_0000_0000

  /** `SIZE_MAX`. */
  const SIZE_MAX: u64 := 0xFFFF_FFFF_FFFF_FFFF

  /** The `size_t` value of an integer expression: C++ unsigned arithmetic wraps. */
  function Wrap(x: int): (r: u64)
    ensures 0 <= x < WORD ==> r == x
    ensures x < 0 && 0 <= x + WORD ==> r == x + WORD
  {
    x % WORD
  }

  /** 2^k. */
  function Pow2(k: nat): (r: nat)
    ensures r >= 1
  {
    if k == 0 then 1 else 2 * Pow2(k - 1)
  }

  /** Bitwise AND of two non-negative integers, one bit at a time from the least significant. */
  function BitAnd(x: nat, y: nat): (r: nat)
    ensures r <= x && r <= y
    decreases x
  {
    if x == 0 || y == 0 then 0
    else 2 * BitAnd(x / 2, y / 2) + (if x % 2 == 1 && y % 2 == 1 then 1 else 0)
  }

  lemma {:induction false} Pow2Monotone(j: nat, k: nat)
    requires j <= k
    ensures Pow2(j) <= Pow2(k)
    ensures j < k ==> 2 * Pow2(j) <= Pow2(k)
    decreases k
  {
    if j < k {
      Pow2Monotone(j, k - 1);
    }
  }

  /** Pow2(64) is the word size, so every power of two below it is a u64. */
  lemma {:induction false} Pow2Word(k: nat)
    requires k <= 64
    ensures k == 64 ==> Pow2(k) == WORD
    ensures k < 64 ==> Pow2(k) < WORD
  {
    Pow2Values();
    if k < 64 {
      Pow2Monotone(k, 63);
    }
  }

  lemma Pow2Values()
    ensures Pow2(63) == 0x8000_0000_0000_0000
    ensures Pow2(64) == WORD
  {
    Pow2Plus16(0);
    assert Pow2(16) == 0x1_0000;
    Pow2Plus16(16);
    assert Pow2(32) == 0x1_0000_0000;
    Pow2Plus16(32);
    assert Pow2(48) == 0x1_0000_0000_0000;
    Pow2Plus8(48);
    assert Pow2(56) == 0x100_0000_0000_0000;
    Pow2Plus8(55);
    assert Pow2(55) == 0x80_0000_0000_0000;
    assert Pow2(63) == 0x8000_0000_0000_0000;
    assert Pow2(64) == 2 * Pow2(63);
  }

  lemma Pow2Plus16(k: nat)
    ensures Pow2(k + 16) == 0x1_0000 * Pow2(k)
  {
    Pow2Plus8(k);
    Pow2Plus8(k + 8);
  }

  lemma {:induction false} Pow2Plus8(k: nat)
    ensures Pow2(k + 8) == 256 * Pow2(k)
  {
    if k == 0 {
      assert Pow2(8) == 256;
    } else {
      Pow2Plus8(k - 1);
    }
  }

  /** y mod 2^k peels off the lowest bit: y % 2^k == y % 2 + 2 * ((y / 2) % 2^(k-1)). */
  lemma {:induction false} ModPow2Step(y: nat, k: nat)
    requires k >= 1
    ensures y % Pow2(k) == y % 2 + 2 * ((y / 2) % Pow2(k - 1))
    ensures y / Pow2(k) == (y / 2) / Pow2(k - 1)
  {
    var m := Pow2(k - 1);
    var q := (y / 2) / m;
    var b := (y / 2) % m;
    assert y / 2 == m * q + b;
    assert y == (2 * m) * q + (2 * b + y % 2);
    assert 0 <= 2 * b + y % 2 < 2 * m;
    DivModUnique(y, 2 * m, q, 2 * b + y % 2);
  }

  /** Division with remainder has one answer. */
  lemma DivModUnique(y: int, m: int, q: int, r: int)
    requires m > 0 && 0 <= r < m && y == m * q + r
    ensures y / m == q && y % m == r
  {
    var q0, r0 := y / m, y % m;
    assert y == m * q0 + r0;
    assert m * (q - q0) == r0 - r;
    if q > q0 {
      assert m * (q - q0) >= m by { MulAtLeast(m, q - q0); }
    } else if q < q0 {
      assert m * (q0 - q) >= m by { MulAtLeast(m, q0 - q); }
    }
  }

  lemma MulAtLeast(m: int, n: int)
    requires m > 0 && n >= 1
    ensures m * n >= m
  {}

  /** AND with an all-ones mask of n bits keeps a value of n bits. */
  lemma {:induction false} AndOnes(y: nat, n: nat)
    requires y < Pow2(n)
    ensures BitAnd(y, Pow2(n) - 1) == y
    decreases n
  {
    if y != 0 {
      assert n >= 1;
      AndOnes(y / 2, n - 1);
    }
  }

  /**
   * AND with the mask ~(2^k - 1) (restricted to n bits) clears the low k bits,
   * that is, it rounds down to a multiple of 2^k.
   */
  lemma {:induction false} AndClearsLowBits(y: nat, n: nat, k: nat)
    requires k <= n && y < Pow2(n)
    ensures Pow2(k) <= Pow2(n) && BitAnd(y, Pow2(n) - Pow2(k)) == y - y % Pow2(k)
    decreases k
  {
    Pow2Monotone(k, n);
    if k == 0 {
      AndOnes(y, n);
    } else if k == n || y == 0 {
      AndClearsNothingLeft(y, n, k);
    } else {
      AndClearsLowBitsInduction(y, n, k);
    }
  }

  lemma {:induction false} AndClearsLowBitsInduction(y: nat, n: nat, k: nat)
    requires 1 <= k < n && 0 < y < Pow2(n) && Pow2(k) < Pow2(n)
    ensures BitAnd(y, Pow2(n) - Pow2(k)) == y - y % Pow2(k)
    decreases k, 0
  {
    HalfBelow(y, n);
    AndClearsLowBits(y / 2, n - 1, k - 1);
    AndClearsLowBitsStep(y, n, k);
  }

  /** The two cases where the mask or the value is zero. */
  lemma AndClearsNothingLeft(y: nat, n: nat, k: nat)
    requires k <= n && y < Pow2(n) && Pow2(k) <= Pow2(n)
    requires k == n || y == 0
    ensures BitAnd(y, Pow2(n) - Pow2(k)) == y - y % Pow2(k)
  {
    if k == n {
      DivModUnique(y, Pow2(k), 0, y);
    } else {
      DivModUnique(y, Pow2(k), 0, 0);
    }
  }

  lemma HalfBelow(y: nat, n: nat)
    requires n >= 1 && y < Pow2(n)
    ensures y / 2 < Pow2(n - 1)
  {}

  /** The inductive step of AndClearsLowBits: both the mask and the rounding shift by one bit. */
  lemma AndClearsLowBitsStep(y: nat, n: nat, k: nat)
    requires 1 <= k <= n && y > 0 && Pow2(k) < Pow2(n)
    requires Pow2(k - 1) <= Pow2(n - 1)
    requires BitAnd(y / 2, Pow2(n - 1) - Pow2(k - 1)) == y / 2 - (y / 2) % Pow2(k - 1)
    ensures BitAnd(y, Pow2(n) - Pow2(k)) == y - y % Pow2(k)
  {
    var p, q := Pow2(n - 1), Pow2(k - 1);
    var m := Pow2(n) - Pow2(k);
    assert m == 2 * (p - q);
    var h := y / 2;
    var low := h % q;
    assert BitAnd(y, m) == 2 * BitAnd(h, p - q);
    ModPow2Step(y, k);
    assert y % Pow2(k) == y % 2 + 2 * low;
    assert y == 2 * h + y % 2;
  }

  lemma {:induction false} AndSelf(x: nat)
    ensures BitAnd(x, x) == x
    decreases x
  {
    if x != 0 {
      AndSelf(x / 2);
    }
  }

  /** A mask and its complement within n bits split a value into two parts that add up to it. */
  lemma {:induction false} AndComplement(y: nat, m: nat, n: nat)
    requires y < Pow2(n) && m < Pow2(n)
    ensures BitAnd(y, Pow2(n) - 1 - m) + BitAnd(y, m) == y
    decreases n
  {
    var c := Pow2(n) - 1 - m;
    if y == 0 {
    } else if m == 0 {
      AndOnes(y, n);
    } else if c == 0 {
      assert m == Pow2(n) - 1;
      AndOnes(y, n);
    } else {
      assert n >= 1;
      HalfBelow(y, n);
      HalfBelow(m, n);
      AndComplement(y / 2, m / 2, n - 1);
      AndComplementStep(y, m, n);
    }
  }

  /** The inductive step of AndComplement: the lowest bit goes to exactly one side. */
  lemma AndComplementStep(y: nat, m: nat, n: nat)
    requires n >= 1 && 0 < y && 0 < m < Pow2(n) - 1
    requires BitAnd(y / 2, Pow2(n - 1) - 1 - m / 2) + BitAnd(y / 2, m / 2) == y / 2
    ensures BitAnd(y, Pow2(n) - 1 - m) + BitAnd(y, m) == y
  {
    ComplementHalf(m, n);
  }

  /** Halving the complement of m within n bits gives the complement of m / 2 within n - 1 bits. */
  lemma ComplementHalf(m: nat, n: nat)
    requires n >= 1 && m < Pow2(n)
    ensures (Pow2(n) - 1 - m) / 2 == Pow2(n - 1) - 1 - m / 2
    ensures (Pow2(n) - 1 - m) % 2 == 1 - m % 2
  {
    var q := m / 2;
    var b := m % 2;
    assert m == 2 * q + b;
    assert Pow2(n) == 2 * Pow2(n - 1);
    var c := Pow2(n) - 1 - m;
    assert c == 2 * (Pow2(n - 1) - 1 - q) + (1 - b);
    DivModUnique(c, 2, Pow2(n - 1) - 1 - q, 1 - b);
  }
}
