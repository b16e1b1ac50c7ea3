/** Bitwise operations on naturals, as the source applies them to `u32` and `u64` values.

    Each operation is defined bit by bit (the way a shift or a mask acts on a binary
    numeral), and the lemmas connect them to the arithmetic the CIDR code relies on:
    clearing the low bits of an address gives the largest multiple of a power of two
    below it, and OR-ing the low bits back gives the top of that block. */
module Bits {

  const U32_LIMIT: nat := 0x1_0000_0000

  function Pow2(n: nat): (r: nat)
    ensures r >= 1
  {
    if n == 0 then 1 else 2 * Pow2(n - 1)
  }

  /** `x >> n`. */
  function Shr(x: nat, n: nat): nat {
    if n == 0 then x else Shr(x / 2, n - 1)
  }

  /** `x << n`, on a width wide enough that no bit is lost. */
  function Shl(x: nat, n: nat): nat {
    if n == 0 then x else 2 * Shl(x, n - 1)
  }

  /** Bit `i` of `x` (0 is the least significant). */
  function Bit(x: nat, i: nat): nat {
    if i == 0 then x % 2 else Bit(x / 2, i - 1)
  }

  /** `x & y`. */
  function And(x: nat, y: nat): nat
    decreases x
  {
    if x == 0 || y == 0 then 0
    else 2 * And(x / 2, y / 2) + (if x % 2 == 1 && y % 2 == 1 then 1 else 0)
  }

  /** `x | y`. */
  function Or(x: nat, y: nat): nat
    decreases x + y
  {
    if x == 0 then y
    else if y == 0 then x
    else 2 * Or(x / 2, y / 2) + (if x % 2 == 1 || y % 2 == 1 then 1 else 0)
  }

  /** `!x` on the low `k` bits of `x`. */
  function NotK(x: nat, k: nat): nat {
    if k == 0 then 0 else 2 * NotK(x / 2, k - 1) + (1 - x % 2)
  }

  /** `u32::trailing_zeros`: 32 for zero. */
  function TrailingZeros(x: nat): nat {
    if x == 0 then 32 else if x % 2 == 1 then 0 else 1 + TrailingZeros(x / 2)
  }

  // ----- powers of two -----

  lemma {:induction false} Pow2Monotonic(a: nat, b: nat)
    requires a <= b
    ensures Pow2(a) <= Pow2(b)
    decreases b
  {
    if a < b { Pow2Monotonic(a, b - 1); }
  }

  lemma {:induction false} Pow2Add(a: nat, b: nat)
    ensures Pow2(a + b) == Pow2(a) * Pow2(b)
    decreases b
  {
    if b > 0 {
      Pow2Add(a, b - 1);
      assert Pow2(a + b) == 2 * Pow2(a + b - 1);
    }
  }

  // ----- shifts -----

  /** A left shift multiplies by a power of two. */
  lemma {:induction false} ShlIsMul(x: nat, n: nat)
    ensures Shl(x, n) == x * Pow2(n)
  {
    if n > 0 { ShlIsMul(x, n - 1); }
  }

  /** Shifting right then left clears the low `n` bits: the result is at most `x` and
      within one block of size `2^n` below it. */
  lemma {:induction false} ShrShlBounds(x: nat, n: nat)
    ensures Shl(Shr(x, n), n) <= x < Shl(Shr(x, n), n) + Pow2(n)
  {
    if n > 0 {
      ShrShlBounds(x / 2, n - 1);
      ShrShlUnfold(x, n);
    }
  }

  lemma ShrShlUnfold(x: nat, n: nat)
    requires n > 0
    ensures Shl(Shr(x, n), n) == 2 * Shl(Shr(x / 2, n - 1), n - 1)
  {
  }

  /** Shifting left then right gives back the value. */
  lemma {:induction false} ShrOfShl(q: nat, n: nat)
    ensures Shr(Shl(q, n), n) == q
  {
    if n > 0 {
      ShrOfShl(q, n - 1);
      assert Shl(q, n) / 2 == Shl(q, n - 1);
    }
  }

  /** A value below `2^n` shifts right by `n` to zero, and a value at least `2^n` does not. */
  lemma {:induction false} ShrZero(x: nat, n: nat)
    ensures Shr(x, n) == 0 <==> x < Pow2(n)
  {
    if n > 0 { ShrZero(x / 2, n - 1); }
  }

  lemma {:induction false} BitOfShl(y: nat, n: nat, i: nat)
    ensures Bit(Shl(y, n), i) == if i < n then 0 else Bit(y, i - n)
    decreases n
  {
    if n > 0 {
      if i > 0 {
        BitOfShl(y, n - 1, i - 1);
        assert Shl(y, n) / 2 == Shl(y, n - 1);
      }
    }
  }

  lemma {:induction false} BitOfShr(x: nat, n: nat, i: nat)
    ensures Bit(Shr(x, n), i) == Bit(x, i + n)
    decreases n
  {
    if n > 0 {
      BitOfShr(x / 2, n - 1, i);
    }
  }

  /** `(x >> n) << n` keeps every bit of `x` at position `n` or above and clears the rest. */
  lemma BitOfClearLow(x: nat, n: nat, i: nat)
    ensures Bit(Shl(Shr(x, n), n), i) == if i < n then 0 else Bit(x, i)
  {
    BitOfShl(Shr(x, n), n, i);
    if i >= n { BitOfShr(x, n, i - n); }
  }

  /** A block boundary is its own cleared value. */
  lemma ClearLowOfShl(q: nat, n: nat)
    ensures Shl(Shr(Shl(q, n), n), n) == Shl(q, n)
  {
    ShrOfShl(q, n);
  }

  // ----- masks -----

  /** `2^k - 1` has exactly its low `k` bits set. */
  lemma {:induction false} BitOfOnes(k: nat, i: nat)
    ensures Bit(Pow2(k) - 1, i) == if i < k then 1 else 0
    decreases k
  {
    if k > 0 && i > 0 {
      BitOfOnes(k - 1, i - 1);
      assert (Pow2(k) - 1) / 2 == Pow2(k - 1) - 1;
    } else if k == 0 {
      BitOfZero(i);
    }
  }

  lemma {:induction false} BitOfZero(i: nat)
    ensures Bit(0, i) == 0
  {
    if i > 0 { BitOfZero(i - 1); }
  }

  /** Clearing the low `n` bits of `2^k - 1` leaves `2^k - 2^n`. */
  lemma {:induction false} ClearLowOfOnes(k: nat, n: nat)
    requires n <= k
    ensures Shl(Shr(Pow2(k) - 1, n), n) == Pow2(k) - Pow2(n)
    decreases n
  {
    if n > 0 {
      assert (Pow2(k) - 1) / 2 == Pow2(k - 1) - 1;
      ClearLowOfOnes(k - 1, n - 1);
      ShrShlUnfold(Pow2(k) - 1, n);
    }
  }

  lemma {:induction false} AndOnes(x: nat, k: nat)
    requires x < Pow2(k)
    ensures And(x, Pow2(k) - 1) == x
    decreases k
  {
    if k > 0 && x > 0 {
      assert (Pow2(k) - 1) / 2 == Pow2(k - 1) - 1;
      AndOnes(x / 2, k - 1);
    }
  }

  /** AND-ing with the mask `2^k - 2^n` is the same as clearing the low `n` bits. */
  lemma {:induction false} AndMaskIsClearLow(x: nat, k: nat, n: nat)
    requires n <= k && x < Pow2(k)
    ensures Pow2(n) <= Pow2(k)
    ensures And(x, Pow2(k) - Pow2(n)) == Shl(Shr(x, n), n)
    decreases n
  {
    Pow2Monotonic(n, k);
    if n == 0 {
      AndOnes(x, k);
    } else {
      var m := Pow2(k) - Pow2(n);
      assert m / 2 == Pow2(k - 1) - Pow2(n - 1);
      AndMaskIsClearLow(x / 2, k - 1, n - 1);
      ShrShlUnfold(x, n);
      assert And(x, m) == 2 * And(x / 2, m / 2);
    }
  }

  /** OR-ing the low bits into a block boundary adds them. */
  lemma {:induction false} OrLowBits(q: nat, n: nat)
    ensures Or(Shl(q, n), Pow2(n) - 1) == Shl(q, n) + Pow2(n) - 1
  {
    if n > 0 {
      OrLowBits(q, n - 1);
      assert Shl(q, n) / 2 == Shl(q, n - 1);
      assert (Pow2(n) - 1) / 2 == Pow2(n - 1) - 1;
    }
  }

  /** `!x` on `k` bits is `2^k - 1 - x`. */
  lemma {:induction false} NotKValue(x: nat, k: nat)
    requires x < Pow2(k)
    ensures NotK(x, k) == Pow2(k) - 1 - x
  {
    if k > 0 { NotKValue(x / 2, k - 1); }
  }

  // ----- trailing zeros -----

  lemma {:induction false} TrailingZerosBound(x: nat, k: nat)
    requires 0 < x < Pow2(k)
    ensures TrailingZeros(x) < k
    decreases k
  {
    if x % 2 == 0 { TrailingZerosBound(x / 2, k - 1); }
  }

  /** The lowest set bit of a non-zero value sits at its trailing-zero count. */
  lemma {:induction false} BitAtTrailingZeros(x: nat)
    requires x > 0
    ensures Bit(x, TrailingZeros(x)) == 1
    decreases x
  {
    if x % 2 == 0 { BitAtTrailingZeros(x / 2); }
  }

  /** Clearing no more low bits than there are trailing zeros changes nothing. */
  lemma {:induction false} ClearLowAligned(x: nat, n: nat)
    requires n <= TrailingZeros(x)
    ensures Shl(Shr(x, n), n) == x
    decreases n
  {
    if n > 0 {
      if x == 0 {
        ShrShlBounds(x, n);
      } else {
        ClearLowAligned(x / 2, n - 1);
        ShrShlUnfold(x, n);
      }
    }
  }

  /** Clearing more low bits than there are trailing zeros clears the lowest set bit. */
  lemma ClearLowMisaligned(x: nat, n: nat)
    requires x > 0 && TrailingZeros(x) < n
    ensures Shl(Shr(x, n), n) != x
  {
    BitAtTrailingZeros(x);
    BitOfClearLow(x, n, TrailingZeros(x));
  }
}
