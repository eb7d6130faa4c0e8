/** Bytes, and unsigned integers as bit strings: the shifts, ors and masks of the C code
    written over `nat`, where width is explicit. */
module Bits {
  type Byte = b: int | 0 <= b < 256 witness 0

  const U32: nat := 0x1_0000_0000
  const U64: nat := 0x1_0000_0000_0000_0000

  /** `x << n`, before any truncation. */
  function Shl(x: nat, n: nat): (r: nat)
    ensures r >= x
  {
    if n == 0 then x else 2 * Shl(x, n - 1)
  }

  /** `1 << n`. */
  function Pow2(n: nat): (p: nat)
    ensures p > 0
  {
    Shl(1, n)
  }

  /** `a | b`. */
  function Or(a: nat, b: nat): nat {
    if a == 0 && b == 0 then 0
    else (if a % 2 == 1 || b % 2 == 1 then 1 else 0) + 2 * Or(a / 2, b / 2)
  }

  /** Whether bit `k` of `w` is set. */
  predicate Bit(w: nat, k: nat) {
    if k == 0 then w % 2 == 1 else Bit(w / 2, k - 1)
  }

  lemma {:induction false} ShlAdd(x: nat, y: nat, n: nat)
    ensures Shl(x + y, n) == Shl(x, n) + Shl(y, n)
  {
    if n > 0 { ShlAdd(x, y, n - 1); }
  }

  lemma {:induction false} ShlDouble(x: nat, n: nat)
    ensures Shl(2 * x, n) == 2 * Shl(x, n)
  {
    if n > 0 { ShlDouble(x, n - 1); }
  }

  lemma ShlPlus7(x: nat, n: nat)
    ensures Shl(x, n + 7) == 128 * Shl(x, n) == Shl(128 * x, n)
  {
    assert Shl(x, n + 7) == 2 * Shl(x, n + 6) == 4 * Shl(x, n + 5) == 8 * Shl(x, n + 4);
    assert Shl(x, n + 4) == 2 * Shl(x, n + 3) == 4 * Shl(x, n + 2) == 8 * Shl(x, n + 1);
    ShlDouble(x, n); ShlDouble(2 * x, n); ShlDouble(4 * x, n); ShlDouble(8 * x, n);
    ShlDouble(16 * x, n); ShlDouble(32 * x, n); ShlDouble(64 * x, n);
  }

  lemma ShlMono(x: nat, y: nat, n: nat)
    requires x <= y
    ensures Shl(x, n) <= Shl(y, n)
  {
    ShlAdd(x, y - x, n);
  }

  lemma SmallMod(n: nat, m: nat)
    requires n < m
    ensures n % m == n
  {
  }

  lemma Shl28(x: nat)
    ensures Shl(x, 28) == 0x1000_0000 * x
  {
    ShlPlus7(x, 0); ShlPlus7(x, 7); ShlPlus7(x, 14); ShlPlus7(x, 21);
  }

  lemma Shl35(x: nat)
    ensures Shl(x, 35) == 0x8_0000_0000 * x
  {
    Shl28(x); ShlPlus7(x, 28);
  }

  lemma Shl63(x: nat)
    ensures Shl(x, 63) == 0x8000_0000_0000_0000 * x
  {
    Shl35(x); ShlPlus7(x, 35); ShlPlus7(x, 42); ShlPlus7(x, 49); ShlPlus7(x, 56);
  }

  lemma Pow2At64()
    ensures Pow2(64) == U64
  {
    Shl63(1);
  }

  lemma Pow2At32()
    ensures Pow2(31) == 0x8000_0000 && Pow2(32) == U32
  {
    Shl28(1);
    assert Shl(1, 31) == 2 * Shl(1, 30) == 4 * Shl(1, 29);
  }

  lemma {:induction false} OrZero(a: nat)
    ensures Or(a, 0) == a && Or(0, a) == a
  {
    if a > 0 { OrZero(a / 2); }
  }

  /** Or-ing a value into bits above all those already set is addition. */
  lemma {:induction false} OrAbove(a: nat, c: nat, k: nat)
    requires a < Pow2(k)
    ensures Or(a, Shl(c, k)) == a + Shl(c, k)
  {
    if k == 0 {
      OrZero(c);
    } else {
      OrAbove(a / 2, c, k - 1);
    }
  }

  /** `|` sets exactly the bits that either operand has. */
  lemma {:induction false} OrBits(a: nat, b: nat, k: nat)
    ensures Bit(Or(a, b), k) <==> Bit(a, k) || Bit(b, k)
  {
    if a == 0 && b == 0 {
    } else if k > 0 {
      OrBits(a / 2, b / 2, k - 1);
      assert Or(a, b) / 2 == Or(a / 2, b / 2);
    }
  }

  lemma {:induction false} OrBound(a: nat, b: nat, k: nat)
    requires a < Pow2(k) && b < Pow2(k)
    ensures Or(a, b) < Pow2(k)
  {
    if k > 0 && (a != 0 || b != 0) { OrBound(a / 2, b / 2, k - 1); }
  }

  /** Or-ing two words of at most `n` bits gives one. */
  lemma OrWidth(a: nat, b: nat, n: nat)
    requires n == 32 || n == 64
    requires a < (if n == 32 then U32 else U64) && b < (if n == 32 then U32 else U64)
    ensures Or(a, b) < if n == 32 then U32 else U64
  {
    Pow2At32(); Pow2At64();
    OrBound(a, b, n);
  }

  lemma {:induction false} Pow2Bits(j: nat, k: nat)
    ensures Bit(Pow2(j), k) <==> j == k
  {
    if j == 0 {
      if k > 0 { ZeroBits(k - 1); }
    } else if k > 0 {
      Pow2Bits(j - 1, k - 1);
    }
  }

  lemma {:induction false} ZeroBits(k: nat)
    ensures !Bit(0, k)
  {
    if k > 0 { ZeroBits(k - 1); }
  }

  lemma {:induction false} Pow2Mono(j: nat, k: nat)
    requires j < k
    ensures Pow2(j) < Pow2(k)
  {
    if j > 0 { Pow2Mono(j - 1, k - 1); }
  }

  lemma Pow2MonoOrEqual(j: nat, k: nat)
    requires j <= k
    ensures Pow2(j) <= Pow2(k)
  {
    if j < k { Pow2Mono(j, k); }
  }

  /** Bits 0 to n-1 of `w` are all set. */
  predicate LowOnes(w: nat, n: nat) {
    forall k: nat :: k < n ==> Bit(w, k)
  }

  /** A word compares equal to the mask of `n` low ones exactly when its set bits
      are bits 0 to n-1. */
  lemma {:induction false} MaskBits(w: nat, n: nat)
    requires w < Pow2(n)
    ensures w == Pow2(n) - 1 <==> LowOnes(w, n)
  {
    if n > 0 {
      MaskBits(w / 2, n - 1);
      if w == Pow2(n) - 1 {
        assert w / 2 == Pow2(n - 1) - 1;
        forall k: nat | k < n ensures Bit(w, k) {
          if k > 0 { assert Bit(w / 2, k - 1); }
        }
      }
      if LowOnes(w, n) {
        assert Bit(w, 0);
        forall k: nat | k < n - 1 ensures Bit(w / 2, k) { assert Bit(w, k + 1); }
        assert LowOnes(w / 2, n - 1);
      }
    }
  }

  /** The set bits of a word determine its bound. */
  lemma {:induction false} BitsBound(w: nat, n: nat, m: nat)
    requires w < Pow2(m)
    requires forall k: nat :: n <= k < m ==> !Bit(w, k)
    ensures w < Pow2(n)
    decreases m
  {
    if m == 0 {
    } else if n == 0 {
      assert !Bit(w, 0);
      forall k: nat | 0 <= k < m - 1 ensures !Bit(w / 2, k) { assert !Bit(w, k + 1); }
      BitsBound(w / 2, 0, m - 1);
    } else {
      forall k: nat | n - 1 <= k < m - 1 ensures !Bit(w / 2, k) { assert !Bit(w, k + 1); }
      BitsBound(w / 2, n - 1, m - 1);
    }
  }
}
