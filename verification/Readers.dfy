/** The 32-bit and the 64-bit varint reader, on any bytes. */
module Readers {
  import opened Bits
  import opened Wire
  import opened WireProofs

  // ------------------------------------------------ the low bits of a word

  lemma MulAtLeast(k: nat, d: nat)
    requires k >= 1
    ensures k * d >= d
  {
  }

  lemma MulSplit(k: nat, l: nat, d: nat)
    requires k < l
    ensures l * d >= k * d + d
  {
    assert l * d == k * d + (l - k) * d;
    MulAtLeast(l - k, d);
  }

  lemma ModIs(a: nat, d: nat, q: nat, r: nat)
    requires r < d && a == q * d + r
    ensures a % d == r
  {
    var k := a / d;
    assert a == k * d + a % d;
    if k < q { MulSplit(k, q, d); } else if q < k { MulSplit(q, k, d); }
  }

  /** The low bits of a word are its lowest one and the low bits of the others. */
  lemma LowSplit(a: nat, m: nat)
    requires m > 0
    ensures a % (2 * m) == 2 * (a / 2 % m) + a % 2
  {
    var q, r := a / 2 / m, a / 2 % m;
    assert a / 2 == q * m + r;
    assert q * (2 * m) == 2 * (q * m);
    ModIs(a, 2 * m, q, 2 * r + a % 2);
  }

  lemma OrHalves(a: nat, b: nat)
    ensures Or(a, b) / 2 == Or(a / 2, b / 2) && Or(a, b) % 2 == if a % 2 == 1 || b % 2 == 1 then 1 else 0
  {
  }

  /** The low bits of an `|` are those of its operands. */
  lemma {:induction false} OrLow(a: nat, b: nat, n: nat)
    ensures Or(a, b) % Pow2(n) == Or(a % Pow2(n), b % Pow2(n))
    decreases n
  {
    if n == 0 {
      assert Pow2(n) == 1;
    } else {
      var m := Pow2(n - 1);
      assert Pow2(n) == 2 * m;
      var x, y := a % (2 * m), b % (2 * m);
      LowSplit(a, m);
      LowSplit(b, m);
      LowSplit(Or(a, b), m);
      OrHalves(a, b);
      OrHalves(x, y);
      OrLow(a / 2, b / 2, n - 1);
      assert x / 2 == a / 2 % m && y / 2 == b / 2 % m && x % 2 == a % 2 && y % 2 == b % 2;
    }
  }

  lemma {:induction false} ShlBy32(x: nat, k: nat)
    ensures Shl(x, k + 32) == U32 * Shl(x, k)
    decreases k
  {
    if k == 0 {
      Shl28(x);
      assert Shl(x, 32) == 2 * Shl(x, 31) == 4 * Shl(x, 30) == 8 * Shl(x, 29);
    } else {
      ShlBy32(x, k - 1);
    }
  }

  lemma LowOfWord(x: nat)
    ensures x % U64 % U32 == x % U32
  {
  }

  /** What a 64-bit word keeps of a shifted group, as far as its low half goes. */
  lemma ShiftedLow(low: nat, n: nat)
    ensures Shl(low, n) % U64 % U32 == if n >= 32 then 0 else Shl(low, n) % U32
  {
    LowOfWord(Shl(low, n));
    if n >= 32 {
      ShlBy32(low, n - 32);
      ModIs(U32 * Shl(low, n - 32), U32, Shl(low, n - 32), 0);
    }
  }

  // ------------------------------------------------ the readers

  /** One byte keeps the 32-bit accumulator the low half of the 64-bit one. */
  lemma StepsAgree(result: nat, low: nat, n: nat)
    ensures Or(result, Shl(low, n) % U64) % U32
         == if n >= 32 then result % U32 else Or(result % U32, Shl(low, n) % U32)
  {
    Pow2At32();
    OrLow(result, Shl(low, n) % U64, 32);
    ShiftedLow(low, n);
    if n >= 32 { OrZero(result % U32); }
  }

  lemma VarintUnfolds(bs: seq<Byte>, n: nat, result: nat, next: nat)
    requires bs != [] && n < 64 && next == Or(result, Shl(bs[0] % 128, n) % U64)
    ensures VarintFrom(bs, n, result) == if bs[0] >= 128 then VarintFrom(bs[1..], n + 7, next) else Got(next, bs[1..])
  {
  }

  lemma Varint32Unfolds(bs: seq<Byte>, n: nat, result: nat)
    requires n < 200 && Varint32From(bs, n, result).Got?
    ensures bs != []
            && var next := if n >= 32 then result else Or(result, Shl(bs[0] % 128, n) % U32);
               if bs[0] >= 128 then
                 Varint32From(bs[1..], n + 7, next).Got?
                 && Varint32From(bs, n, result) == Varint32From(bs[1..], n + 7, next)
               else Varint32From(bs, n, result) == Got(next, bs[1..])
  {
  }

  /** From byte `j` on, at bit `n`. */
  lemma {:induction false} LoopsAgree(bs: seq<Byte>, j: nat, n: nat, result: nat)
    requires 1 <= j <= 10 && n == 7 * j
    requires Varint32From(bs, n, result % U32).Got?
    ensures var p, q := Varint32From(bs, n, result % U32), VarintFrom(bs, n, result);
            if |bs| - |p.rest| + j <= 10 then q.Got? && q.rest == p.rest && q.value % U32 == p.value else q == Fail
    decreases |bs|
  {
    if j < 10 {
      Varint32Unfolds(bs, n, result % U32);
      var next := Or(result, Shl(bs[0] % 128, n) % U64);
      StepsAgree(result, bs[0] % 128, n);
      VarintUnfolds(bs, n, result, next);
      if bs[0] >= 128 { LoopsAgree(bs[1..], j + 1, n + 7, next); }
    } else {
      Varint32Shorter(bs, n, result % U32);
    }
  }

  lemma {:induction false} Varint32Shorter(bs: seq<Byte>, bitpos: nat, result: nat)
    requires Varint32From(bs, bitpos, result).Got?
    ensures |Varint32From(bs, bitpos, result).rest| < |bs|
    decreases |bs|
  {
    if bs[0] >= 128 {
      Varint32Shorter(bs[1..], (bitpos + 7) % 256,
                      if bitpos >= 32 then result else Or(result, Shl(bs[0] % 128, bitpos) % U32));
    }
  }

  /** Whatever bytes the 32-bit reader accepts, the 64-bit reader accepts with the same low 32
      bits and the same bytes left over, if they are at most ten; of more it accepts none. */
  lemma {:induction false} ReadersAgree(bs: seq<Byte>)
    requires ParseVarint32(bs).Got?
    ensures var p, q := ParseVarint32(bs), ParseVarint(bs);
            if |bs| - |p.rest| <= 10 then q.Got? && q.rest == p.rest && q.value % U32 == p.value else q == Fail
  {
    var low: nat := bs[0] % 128;
    SmallMod(low, U64);
    SmallMod(low, U32);
    OrZero(low);
    assert Shl(low, 0) == low;
    VarintUnfolds(bs, 0, 0, low);
    if bs[0] >= 128 { LoopsAgree(bs[1..], 1, 7, low); }
  }

  // ------------------------------------------------ more than ten bytes

  /** Zero, with `n` bytes more than it needs. */
  function Padded(n: nat): seq<Byte> {
    if n == 0 then [0] else [128] + Padded(n - 1)
  }

  lemma {:induction false} PaddedFrom(n: nat, bitpos: nat)
    ensures Varint32From(Padded(n), bitpos, 0) == Got(0, [])
    decreases n
  {
    ShlZero(bitpos);
    OrZero(0);
    var bs: seq<Byte>, next := Padded(n), (bitpos + 7) % 256;
    assert bs[0] % 128 == 0 && Or(0, Shl(0, bitpos) % U32) == 0;
    if n == 0 {
      assert Varint32From(bs, bitpos, 0) == Got(0, bs[1..]);
    } else {
      assert bs[1..] == Padded(n - 1);
      assert Varint32From(bs, bitpos, 0) == Varint32From(bs[1..], next, 0);
      PaddedFrom(n - 1, next);
    }
  }

  lemma {:induction false} ShlZero(n: nat)
    ensures Shl(0, n) == 0
  {
    if n > 0 { ShlZero(n - 1); }
  }

  /** The 32-bit reader accepts a zero of any number of bytes, the 64-bit reader one of ten. */
  lemma PaddedZero(n: nat)
    ensures ParseVarint32(Padded(n)) == Got(0, [])
    ensures ParseVarint(Padded(n)).Got? <==> n + 1 <= 10
  {
    if n > 0 {
      assert Padded(n)[1..] == Padded(n - 1);
      PaddedFrom(n - 1, 7);
    }
    PaddedLength(n);
    ReadersAgree(Padded(n));
  }

  lemma {:induction false} PaddedLength(n: nat)
    ensures |Padded(n)| == n + 1
  {
    if n > 0 { PaddedLength(n - 1); }
  }
}
