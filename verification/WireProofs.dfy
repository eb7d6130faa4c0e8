/** What the wire-format loops compute: readers undo writers, whatever follows, and
    reading does not depend on what follows the part that is read. */
module WireProofs {
  import opened Bits
  import opened Wire

  /** A 64-bit value takes at most ten bytes. */
  lemma VarintLength(v: nat)
    requires v < U64
    ensures |VarintBytes(v)| <= 10
  {
    VarintLengthAt(v, 0);
  }

  lemma {:induction false} VarintLengthAt(v: nat, k: nat)
    requires k <= 9 && Shl(v, 7 * k) < U64
    ensures |VarintBytes(v)| <= 10 - k
  {
    if v >= 128 {
      ShlSplit(v, 7 * k);
      assert k < 9 by { Shl63(v); }
      VarintLengthAt(v / 128, k + 1);
    }
  }

  /** Splitting off the low seven bits of a shifted value. */
  lemma ShlSplit(v: nat, n: nat)
    ensures Shl(v, n) == Shl(v % 128, n) + Shl(v / 128, n + 7)
    ensures Shl(v % 128, n) + Pow2(n) <= Pow2(n + 7)
  {
    ShlAdd(v % 128, 128 * (v / 128), n);
    ShlPlus7(v / 128, n);
    ShlPlus7(1, n);
    ShlAdd(v % 128, 1, n);
    ShlMono(v % 128 + 1, 128, n);
  }

  /** The first byte of an encoding and what follows it. */
  lemma VarintHead(v: nat, tail: seq<Byte>)
    ensures var bs := VarintBytes(v) + tail;
            && bs[0] % 128 == v % 128 && bs[0] == (if v >= 128 then v % 128 + 128 else v)
            && bs[1..] == if v >= 128 then VarintBytes(v / 128) + tail else tail
  {
    LowSeven(v);
    if v >= 128 {
      var b: Byte := v % 128 + 128;
      assert VarintBytes(v) + tail == [b] + (VarintBytes(v / 128) + tail);
    } else {
      var b: Byte := v;
      assert VarintBytes(v) + tail == [b] + tail;
    }
  }

  lemma LowSeven(v: nat)
    ensures (v % 128 + 128) % 128 == v % 128 && (v < 128 ==> v % 128 == v) && (v >= 128 ==> 0 < v / 128 < v)
  {
  }

  lemma OrShifted64(result: nat, low: nat, n: nat)
    requires result < Pow2(n) && Shl(low, n) < U64
    ensures Or(result, Shl(low, n) % U64) == result + Shl(low, n)
  {
    SmallMod(Shl(low, n), U64);
    OrAbove(result, low, n);
  }

  /** When nothing is shifted out, a step of the loop adds the shifted group. */
  lemma VarintFromStep(bs: seq<Byte>, bitpos: nat, result: nat)
    requires bs != [] && bitpos < 64
    requires result < Pow2(bitpos) && Shl(bs[0] % 128, bitpos) < U64
    ensures VarintFrom(bs, bitpos, result)
            == var r := result + Shl(bs[0] % 128, bitpos);
               if bs[0] >= 128 then VarintFrom(bs[1..], bitpos + 7, r) else Got(r, bs[1..])
  {
    OrShifted64(result, bs[0] % 128, bitpos);
  }

  lemma {:induction false} VarintFromInverts(v: nat, bitpos: nat, result: nat, tail: seq<Byte>)
    requires result < Pow2(bitpos) && Shl(v, bitpos) < U64
    requires v > 0 || bitpos == 0
    ensures VarintFrom(VarintBytes(v) + tail, bitpos, result) == Got(result + Shl(v, bitpos), tail)
    decreases v
  {
    VarintGroup(v, bitpos, result);
    LowSeven(v);
    VarintFromHead(v, bitpos, result, tail);
    if v >= 128 {
      VarintFromInverts(v / 128, bitpos + 7, result + Shl(v % 128, bitpos), tail);
    }
  }

  lemma VarintFromHead(v: nat, bitpos: nat, result: nat, tail: seq<Byte>)
    requires bitpos < 64 && result < Pow2(bitpos) && Shl(v % 128, bitpos) < U64
    ensures VarintFrom(VarintBytes(v) + tail, bitpos, result)
            == var r := result + Shl(v % 128, bitpos);
               if v >= 128 then VarintFrom(VarintBytes(v / 128) + tail, bitpos + 7, r) else Got(r, tail)
  {
    VarintHead(v, tail);
    VarintFromStep(VarintBytes(v) + tail, bitpos, result);
  }

  /** One group of a value that fits in 64 bits. */
  lemma VarintGroup(v: nat, bitpos: nat, result: nat)
    requires result < Pow2(bitpos) && Shl(v, bitpos) < U64 && (v > 0 || bitpos == 0)
    ensures bitpos < 64 && result + Shl(v % 128, bitpos) < Pow2(bitpos + 7)
    ensures Shl(v, bitpos) == Shl(v % 128, bitpos) + Shl(v / 128, bitpos + 7)
  {
    BitposBelow64(v, bitpos);
    ShlSplit(v, bitpos);
  }

  lemma BitposBelow64(v: nat, bitpos: nat)
    requires Shl(v, bitpos) < U64
    requires v > 0 || bitpos == 0
    ensures bitpos < 64
  {
    if bitpos >= 64 {
      Pow2At64();
      Pow2MonoOrEqual(64, bitpos);
      ShlMono(1, v, bitpos);
      assert false;
    }
  }

  /** pb_decode_varint undoes pb_encode_varint and leaves what follows untouched. */
  lemma VarintInverts(v: nat, tail: seq<Byte>)
    requires v < U64
    ensures ParseVarint(VarintBytes(v) + tail) == Got(v, tail)
  {
    VarintFromInverts(v, 0, 0, tail);
  }

  // ---------------------------------------------------- the 32-bit reader

  /** What the 32-bit reader accepts from byte `j` (at least 5) on: all-zero groups, or
      all-one groups of a sign extension, and a tenth byte equal to 1. */
  predicate HighGroupsAccepted(v: nat, j: nat, negative: bool)
    decreases v
  {
    if v < 128 then j >= 9 && negative && v == 1
    else (v % 128 == 0 || (negative && j < 9 && v % 128 == 127))
         && HighGroupsAccepted(v / 128, j + 1, negative)
  }

  lemma {:induction false} Varint32High(v: nat, j: nat, result: nat, tail: seq<Byte>)
    requires 5 <= j <= 9 && v > 0 && Shl(v, 7 * j) < U64
    ensures Varint32From(VarintBytes(v) + tail, 7 * j, result)
            == if HighGroupsAccepted(v, j, result / 0x8000_0000 != 0) then Got(result, tail) else Fail
    decreases v
  {
    Varint32HighHead(v, 7 * j, result, tail);
    LowSeven(v);
    if v >= 128 {
      GroupsAbove(v, j);
      Varint32High(v / 128, j + 1, result, tail);
    }
  }

  lemma GroupsAbove(v: nat, j: nat)
    requires 5 <= j <= 9 && v >= 128 && Shl(v, 7 * j) < U64
    ensures j < 9 && Shl(v / 128, 7 * (j + 1)) < U64
  {
    ShlSplit(v, 7 * j);
    assert j < 9 by { Shl63(v); }
  }

  /** One unfolding of the reader from bit 35 on. */
  lemma Varint32HighHead(v: nat, n: nat, result: nat, tail: seq<Byte>)
    requires 35 <= n <= 63
    ensures Varint32From(VarintBytes(v) + tail, n, result)
            == var low := v % 128;
               var ones := if n < 63 then 127 else 1;
               if low != 0 && (result / 0x8000_0000 == 0 || low != ones || (v >= 128) != (n < 63)) then Fail
               else if v >= 128 then Varint32From(VarintBytes(v / 128) + tail, n + 7, result)
               else Got(result, tail)
  {
    VarintHead(v, tail);
  }

  lemma GroupBelow32(low: nat, j: nat)
    requires 1 <= j <= 3 && low < 128
    ensures Shl(low, 7 * j) < U32
  {
    ShlPlus7(low, 0);
    if j >= 2 { ShlPlus7(low, 7); }
    if j == 3 { ShlPlus7(low, 14); }
  }

  lemma Mod16(v: nat)
    ensures v % 128 % 16 == v % 16
  {
  }

  /** At bit 28 (`n`) only the low four bits of a group fit. */
  lemma ShlTruncatesAt28(low: nat, n: nat)
    requires n == 28 && low < 128
    ensures Shl(low, n) % U32 == Shl(low % 16, n) == 0x1000_0000 * (low % 16)
  {
    Shl28(low); Shl28(low % 16);
  }

  lemma OrGroupAt28(result: nat, v: nat, n: nat)
    requires n == 28 && result < Pow2(n)
    ensures Or(result, Shl(v % 128, n) % U32) == result + 0x1000_0000 * (v % 16)
  {
    Mod16(v);
    ShlTruncatesAt28(v % 128, n);
    OrAbove(result, v % 16, n);
  }

  lemma OrShifted32(result: nat, low: nat, n: nat)
    requires result < Pow2(n) && Shl(low, n) < U32
    ensures Or(result, Shl(low, n) % U32) == result + Shl(low, n)
  {
    SmallMod(Shl(low, n), U32);
    OrAbove(result, low, n);
  }

  lemma Varint32Step(bs: seq<Byte>, bitpos: nat, result: nat)
    requires bs != [] && bitpos <= 28
    ensures Varint32From(bs, bitpos, result)
            == var r := Or(result, Shl(bs[0] % 128, bitpos) % U32);
               if bs[0] >= 128 then Varint32From(bs[1..], bitpos + 7, r)
               else if bitpos == 28 && bs[0] / 16 % 8 != 0 then Fail
               else Got(r, bs[1..])
  {
  }

  /** The reader on bytes 1 to 3 of an encoding, at bit `n`, which is 7 times `j`. */
  lemma Varint32Low(v: nat, j: nat, n: nat, result: nat, tail: seq<Byte>)
    requires 1 <= j <= 3 && n == 7 * j && result < Pow2(n)
    ensures Varint32From(VarintBytes(v) + tail, n, result)
            == var r := result + Shl(v % 128, n);
               if v >= 128 then Varint32From(VarintBytes(v / 128) + tail, n + 7, r) else Got(r, tail)
  {
    Varint32Head(v, n, result, tail);
    GroupBelow32(v % 128, j);
    OrShifted32(result, v % 128, n);
  }

  lemma Varint32Head(v: nat, bitpos: nat, result: nat, tail: seq<Byte>)
    requires bitpos < 28
    ensures Varint32From(VarintBytes(v) + tail, bitpos, result)
            == var r := Or(result, Shl(v % 128, bitpos) % U32);
               if v >= 128 then Varint32From(VarintBytes(v / 128) + tail, bitpos + 7, r) else Got(r, tail)
  {
    VarintHead(v, tail);
    Varint32Step(VarintBytes(v) + tail, bitpos, result);
  }

  /** One unfolding of the reader at bit 28 (`n`), `r` being the new accumulator. */
  lemma Varint32StepAt28(bs: seq<Byte>, n: nat, result: nat, r: nat)
    requires n == 28 && bs != [] && r == Or(result, Shl(bs[0] % 128, n) % U32)
    ensures Varint32From(bs, n, result)
            == if bs[0] >= 128 then Varint32From(bs[1..], n + 7, r)
               else if bs[0] < 16 then Got(r, bs[1..]) else Fail
  {
    var b: int := bs[0];
    assert b < 128 ==> (b / 16 % 8 != 0 <==> b >= 16);
  }

  /** Byte 4 of an encoding, `r` being the accumulator after it. */
  lemma Varint32At28(v: nat, n: nat, result: nat, r: nat, tail: seq<Byte>)
    requires n == 28 && r == Or(result, Shl(v % 128, n) % U32)
    ensures Varint32From(VarintBytes(v) + tail, n, result)
            == if v >= 128 then Varint32From(VarintBytes(v / 128) + tail, n + 7, r)
               else if v < 16 then Got(r, tail) else Fail
  {
    VarintHead(v, tail);
    Varint32StepAt28(VarintBytes(v) + tail, n, result, r);
  }

  /** The 64-bit values whose encoding the 32-bit reader accepts: 32-bit values, and
      ten-byte encodings with bit 31 set whose groups 5 to 8 are each all zeros or all
      ones; negative 32-bit integers, sign-extended to 64 bits, are among them. */
  predicate Fits32(v: nat) {
    v < U32 || (v >= 0x8_0000_0000 && v / 0x8000_0000 % 2 == 1 && HighGroupsAccepted(v / 0x8_0000_0000, 5, true))
  }

  /** The reader after `j` bytes of an encoding: it is done, or has read the value of
      the first `j` groups. `p` is 128 to the power `j`. */
  predicate Varint32Reached(v: nat, j: nat, p: nat, tail: seq<Byte>)
    requires p > 0
  {
    ParseVarint32(VarintBytes(v) + tail)
    == if v < p then Got(v, tail) else Varint32From(VarintBytes(v / p) + tail, 7 * j, v % p)
  }

  lemma Varint32Reach(v: nat, j: nat, p: nat, q: nat, tail: seq<Byte>)
    requires 1 <= j <= 3 && p == Pow2(7 * j) && q == 128 * p
    requires v / p / 128 == v / q && v % p + Shl(v / p % 128, 7 * j) == v % q
    requires v / p < 128 <==> v < q
    requires v < q ==> v % q == v
    requires Varint32Reached(v, j, p, tail)
    ensures Varint32Reached(v, j + 1, q, tail)
  {
    if v >= p {
      Varint32Low(v / p, j, 7 * j, v % p, tail);
    }
  }

  lemma SecondGroup(v: nat)
    ensures v / 0x80 / 0x80 == v / 0x4000 && v % 0x80 + 0x80 * (v / 0x80 % 0x80) == v % 0x4000
    ensures v / 0x80 < 0x80 <==> v < 0x4000
  {
  }

  lemma ThirdGroup(v: nat)
    ensures v / 0x4000 / 0x80 == v / 0x20_0000 && v % 0x4000 + 0x4000 * (v / 0x4000 % 0x80) == v % 0x20_0000
    ensures v / 0x4000 < 0x80 <==> v < 0x20_0000
  {
  }

  lemma FourthGroup(v: nat)
    ensures v / 0x20_0000 / 0x80 == v / 0x1000_0000
    ensures v % 0x20_0000 + 0x20_0000 * (v / 0x20_0000 % 0x80) == v % 0x1000_0000
    ensures v / 0x20_0000 < 0x80 <==> v < 0x1000_0000
  {
  }

  lemma Varint32Reach2(v: nat, tail: seq<Byte>)
    ensures Varint32Reached(v, 2, 0x4000, tail)
  {
    VarintHead(v, tail);
    assert Varint32Reached(v, 1, 0x80, tail);
    Shl7(1); Shl7(v / 0x80 % 0x80);
    SecondGroup(v);
    Varint32Reach(v, 1, 0x80, 0x4000, tail);
  }

  lemma Varint32Reach3(v: nat, tail: seq<Byte>)
    ensures Varint32Reached(v, 3, 0x20_0000, tail)
  {
    Varint32Reach2(v, tail);
    Shl14(1); Shl14(v / 0x4000 % 0x80);
    ThirdGroup(v);
    Varint32Reach(v, 2, 0x4000, 0x20_0000, tail);
  }

  lemma Varint32Reach4(v: nat, tail: seq<Byte>)
    ensures Varint32Reached(v, 4, 0x1000_0000, tail)
  {
    Varint32Reach3(v, tail);
    Shl21(1); Shl21(v / 0x20_0000 % 0x80);
    FourthGroup(v);
    Varint32Reach(v, 3, 0x20_0000, 0x1000_0000, tail);
  }

  lemma Shl7(x: nat)
    ensures Shl(x, 7) == 0x80 * x
  {
    ShlPlus7(x, 0);
  }

  lemma Shl14(x: nat)
    ensures Shl(x, 14) == 0x4000 * x
  {
    Shl7(x); ShlPlus7(x, 7);
  }

  lemma Shl21(x: nat)
    ensures Shl(x, 21) == 0x20_0000 * x
  {
    Shl14(x); ShlPlus7(x, 14);
  }

  lemma {:induction false} UnsignedHighGroups(v: nat, j: nat)
    ensures !HighGroupsAccepted(v, j, false)
    decreases v
  {
    if v >= 128 { UnsignedHighGroups(v / 128, j + 1); }
  }

  /** What is read of a value after byte 4, and the sign bit in it. */
  lemma Low32(v: nat)
    ensures v % 0x1000_0000 + 0x1000_0000 * (v / 0x1000_0000 % 16) == v % U32
    ensures v % U32 / 0x8000_0000 != 0 <==> v / 0x8000_0000 % 2 == 1
  {
    LowGroups(v);
    SignBit(v);
  }

  lemma LowGroups(v: nat)
    ensures v % 0x1000_0000 + 0x1000_0000 * (v / 0x1000_0000 % 16) == v % U32
  {
    var q := v / 0x1000_0000;
    assert v == 0x1000_0000 * q + v % 0x1000_0000 && q == 16 * (q / 16) + q % 16;
    assert v == U32 * (q / 16) + (v % 0x1000_0000 + 0x1000_0000 * (q % 16));
  }

  lemma SignBit(v: nat)
    ensures v % U32 / 0x8000_0000 != 0 <==> v / 0x8000_0000 % 2 == 1
  {
    var q := v / 0x8000_0000;
    assert v == 0x8000_0000 * q + v % 0x8000_0000 && q == 2 * (q / 2) + q % 2;
    assert v == U32 * (q / 2) + (0x8000_0000 * (q % 2) + v % 0x8000_0000);
  }

  lemma Varint32From28(v: nat, n: nat, tail: seq<Byte>)
    requires n == 28 && v >= 0x1000_0000
    ensures ParseVarint32(VarintBytes(v) + tail)
            == if v >= 0x8_0000_0000 then Varint32From(VarintBytes(v / 0x8_0000_0000) + tail, n + 7, v % U32)
               else if v < U32 then Got(v % U32, tail) else Fail
  {
    var w, result := v / 0x1000_0000, v % 0x1000_0000;
    Varint32Reach4(v, tail);
    Low32(v);
    AtBit28(v);
    assert Or(result, Shl(w % 128, n) % U32) == v % U32 by { Shl28(1); OrGroupAt28(result, w, n); }
    Varint32At28(w, n, result, v % U32, tail);
  }

  lemma AtBit28(v: nat)
    ensures var w := v / 0x1000_0000;
            w / 128 == v / 0x8_0000_0000 && (w >= 128 <==> v >= 0x8_0000_0000) && (w < 16 <==> v < U32)
  {
  }

  /** The 32-bit reader on the encoding of any 64-bit value: it returns the low 32
      bits of exactly the values of `Fits32` and rejects all others. */
  lemma Varint32OfEncoding(v: nat, tail: seq<Byte>)
    requires v < U64
    ensures ParseVarint32(VarintBytes(v) + tail) == if Fits32(v) then Got(v % U32, tail) else Fail
  {
    if v < 0x1000_0000 {
      Varint32Reach4(v, tail);
      SmallMod(v, U32);
    } else if v < U32 {
      Varint32From28(v, 28, tail);
      SmallMod(v, U32);
    } else {
      Varint32From28(v, 28, tail);
      if v >= 0x8_0000_0000 { Varint32HighPart(v, tail); }
    }
  }

  lemma Varint32HighPart(v: nat, tail: seq<Byte>)
    requires 0x8_0000_0000 <= v < U64
    ensures Varint32From(VarintBytes(v / 0x8_0000_0000) + tail, 35, v % U32) == if Fits32(v) then Got(v % U32, tail) else Fail
  {
    var w := v / 0x8_0000_0000;
    TopOf(v);
    Shl35(w);
    Varint32High(w, 5, v % U32, tail);
    Low32(v);
    UnsignedHighGroups(w, 5);
  }

  lemma TopOf(v: nat)
    requires 0x8_0000_0000 <= v < U64
    ensures var w := v / 0x8_0000_0000; 0 < w && 0x8_0000_0000 * w < U64
  {
  }

  /** Length prefixes and tags below 2^32 are read back exactly. */
  lemma Varint32Inverts(v: nat, tail: seq<Byte>)
    requires v < U32
    ensures ParseVarint32(VarintBytes(v) + tail) == Got(v, tail)
  {
    assert Fits32(v) && v % U32 == v;
    Varint32OfEncoding(v, tail);
  }

  /** A negative int32 is encoded sign-extended; the reader returns its low 32 bits. */
  lemma Varint32OfNegative(n: int, tail: seq<Byte>)
    requires -0x8000_0000 <= n < 0
    ensures ParseVarint32(VarintBytes(n + U64) + tail) == Got(n + U32, tail)
  {
    SignExtended(n);
    AllOnesAccepted();
    Varint32OfEncoding(n + U64, tail);
  }

  lemma SignExtended(n: int)
    requires -0x8000_0000 <= n < 0
    ensures (n + U64) / 0x8_0000_0000 == 0x1FFF_FFFF && (n + U64) / 0x8000_0000 % 2 == 1 && (n + U64) % U32 == n + U32
  {
  }

  lemma AllOnesAccepted()
    ensures HighGroupsAccepted(0x1FFF_FFFF, 5, true)
  {
    assert HighGroupsAccepted(1, 9, true);
    assert HighGroupsAccepted(255, 8, true);
    assert HighGroupsAccepted(0x7FFF, 7, true);
    assert HighGroupsAccepted(0x3F_FFFF, 6, true);
  }

  /** A value that is accepted and is no sign-extended 32-bit integer: bits 31 and 63. */
  lemma AcceptedThoughNoInt32(v: nat, tail: seq<Byte>)
    requires v == 0x8000_0000_8000_0000
    ensures ParseVarint32(VarintBytes(v) + tail) == Got(0x8000_0000, tail)
    ensures U32 <= v < U64 - 0x8000_0000
  {
    assert HighGroupsAccepted(0x1000_0000, 5, true) by {
      assert HighGroupsAccepted(1, 9, true);
      assert HighGroupsAccepted(0x80, 8, true);
      assert HighGroupsAccepted(0x4000, 7, true);
      assert HighGroupsAccepted(0x20_0000, 6, true);
    }
    Varint32OfEncoding(v, tail);
  }

  /** Values of 33 to 63 bits are rejected. */
  lemma TooLargeFor32(v: nat)
    requires U32 <= v < 0x8000_0000_0000_0000
    ensures !Fits32(v)
  {
    if Fits32(v) { AcceptedIsTenBytes(v / 0x8_0000_0000, 5); Shl35(v / 0x8_0000_0000); assert false; }
  }

  lemma {:induction false} AcceptedIsTenBytes(v: nat, j: nat)
    requires 5 <= j <= 9 && HighGroupsAccepted(v, j, true)
    ensures Shl(v, 7 * j) >= 0x8000_0000_0000_0000
    decreases v
  {
    if j == 9 {
      Shl63(v);
    } else {
      AcceptedIsTenBytes(v / 128, j + 1);
      ShlSplit(v, 7 * j);
    }
  }

  // ------------------------------------------------------- fixed and zigzag

  /** pb_decode_fixed32/64 undo pb_encode_fixed32/64. */
  lemma {:induction false} LittleEndianInverts(n: nat, v: nat)
    requires v < Shl(1, 8 * n)
    ensures FromLittleEndian(LittleEndian(n, v)) == v
  {
    if n > 0 {
      assert Shl(1, 8 * n) == 256 * Shl(1, 8 * (n - 1)) by {
        assert Shl(1, 8 * n) == 2 * Shl(1, 8 * n - 1) == 4 * Shl(1, 8 * n - 2) == 8 * Shl(1, 8 * n - 3);
        assert Shl(1, 8 * n - 3) == 2 * Shl(1, 8 * n - 4) == 4 * Shl(1, 8 * n - 5) == 8 * Shl(1, 8 * n - 6);
        assert Shl(1, 8 * n - 6) == 2 * Shl(1, 8 * n - 7);
      }
      LittleEndianInverts(n - 1, v / 256);
    }
  }

  /** The bytes that the C code takes out of a word with shifts and masks. */
  lemma FourBytes(v: nat)
    ensures LittleEndian(4, v) == [v % 0x100, v / 0x100 % 0x100, v / 0x1_0000 % 0x100, v / 0x100_0000 % 0x100]
  {
    var v1 := v / 0x100;
    var v2 := v1 / 0x100;
    assert v2 == v / 0x1_0000 && v2 / 0x100 == v / 0x100_0000;
    assert LittleEndian(4, v) == [v % 0x100] + LittleEndian(3, v1);
    assert LittleEndian(3, v1) == [v1 % 0x100] + LittleEndian(2, v2);
    assert LittleEndian(2, v2) == [v2 % 0x100] + LittleEndian(1, v2 / 0x100);
    assert LittleEndian(1, v2 / 0x100) == [v2 / 0x100 % 0x100] + LittleEndian(0, v2 / 0x100 / 0x100);
  }

  lemma EightBytes(v: nat)
    ensures LittleEndian(8, v)
            == [v % 0x100, v / 0x100 % 0x100, v / 0x1_0000 % 0x100, v / 0x100_0000 % 0x100,
                v / 0x1_0000_0000 % 0x100, v / 0x100_0000_0000 % 0x100, v / 0x1_0000_0000_0000 % 0x100,
                v / 0x100_0000_0000_0000 % 0x100]
  {
    FourBytes(v); FourBytes(v / 0x1_0000_0000);
    SplitWord(v);
  }

  lemma SplitWord(v: nat)
    ensures LittleEndian(8, v) == LittleEndian(4, v) + LittleEndian(4, v / 0x1_0000_0000)
    ensures v / 0x1_0000_0000 / 0x100 == v / 0x100_0000_0000
    ensures v / 0x1_0000_0000 / 0x1_0000 == v / 0x1_0000_0000_0000
    ensures v / 0x1_0000_0000 / 0x100_0000 == v / 0x100_0000_0000_0000
  {
    var v1 := v / 0x100;
    var v2 := v1 / 0x100;
    var v3 := v2 / 0x100;
    var v4 := v3 / 0x100;
    assert v4 == v / 0x1_0000_0000;
    assert LittleEndian(8, v) == [v % 0x100] + LittleEndian(7, v1);
    assert LittleEndian(7, v1) == [v1 % 0x100] + LittleEndian(6, v2);
    assert LittleEndian(6, v2) == [v2 % 0x100] + LittleEndian(5, v3);
    assert LittleEndian(5, v3) == [v3 % 0x100] + LittleEndian(4, v4);
    FourBytes(v);
    assert v2 == v / 0x1_0000 && v3 == v / 0x100_0000;
  }

  lemma {:induction false} FromLittleEndianBound(bs: seq<Byte>)
    ensures FromLittleEndian(bs) < Shl(1, 8 * |bs|)
  {
    if bs != [] {
      var n := |bs|;
      assert Shl(1, 8 * n) == 256 * Shl(1, 8 * (n - 1)) by {
        assert Shl(1, 8 * n) == 2 * Shl(1, 8 * n - 1) == 4 * Shl(1, 8 * n - 2) == 8 * Shl(1, 8 * n - 3);
        assert Shl(1, 8 * n - 3) == 2 * Shl(1, 8 * n - 4) == 4 * Shl(1, 8 * n - 5) == 8 * Shl(1, 8 * n - 6);
        assert Shl(1, 8 * n - 6) == 2 * Shl(1, 8 * n - 7);
      }
      FromLittleEndianBound(bs[1..]);
    }
  }

  /** Zigzag is undone for every int64. */
  lemma ZigZagInverts(v: int)
    requires -0x8000_0000_0000_0000 <= v < 0x8000_0000_0000_0000
    ensures ZigZag(v) < U64 && UnZigZag(ZigZag(v)) == v
    ensures ZigZag(v) == if v < 0 then -2 * v - 1 else 2 * v
  {
    if v < 0 {
      assert v % U64 == v + U64;
      assert 2 * (v % U64) % U64 == 2 * v + U64;
    } else {
      assert v % U64 == v;
    }
  }

  // --------------------------------------- what follows does not matter

  lemma {:induction false} VarintFromExtends(bs: seq<Byte>, bitpos: nat, result: nat, tail: seq<Byte>)
    requires VarintFrom(bs, bitpos, result).Got?
    ensures VarintFrom(bs + tail, bitpos, result) == VarintFrom(bs, bitpos, result).Before(tail)
    decreases |bs|
  {
    assert (bs + tail)[1..] == bs[1..] + tail;
    if bs[0] >= 128 {
      VarintFromExtends(bs[1..], bitpos + 7, Or(result, Shl(bs[0] % 128, bitpos) % U64), tail);
    }
  }

  lemma VarintExtends(bs: seq<Byte>, tail: seq<Byte>)
    requires ParseVarint(bs).Got?
    ensures ParseVarint(bs + tail) == ParseVarint(bs).Before(tail)
  {
    VarintFromExtends(bs, 0, 0, tail);
  }

  lemma {:induction false} Varint32FromExtends(bs: seq<Byte>, bitpos: nat, result: nat, tail: seq<Byte>)
    requires Varint32From(bs, bitpos, result).Got?
    ensures Varint32From(bs + tail, bitpos, result) == Varint32From(bs, bitpos, result).Before(tail)
    decreases |bs|
  {
    assert (bs + tail)[1..] == bs[1..] + tail;
    if bs[0] >= 128 {
      var r := if bitpos >= 32 then result else Or(result, Shl(bs[0] % 128, bitpos) % U32);
      Varint32FromExtends(bs[1..], (bitpos + 7) % 256, r, tail);
    }
  }

  lemma Varint32Extends(bs: seq<Byte>, tail: seq<Byte>)
    requires ParseVarint32(bs).Got?
    ensures ParseVarint32(bs + tail) == ParseVarint32(bs).Before(tail)
  {
    assert (bs + tail)[1..] == bs[1..] + tail;
    if bs[0] >= 128 { Varint32FromExtends(bs[1..], 7, bs[0] % 128, tail); }
  }

  lemma {:induction false} SkipVarintExtends(bs: seq<Byte>, tail: seq<Byte>)
    requires SkipVarint(bs).Got?
    ensures SkipVarint(bs + tail) == SkipVarint(bs).Before(tail)
  {
    assert (bs + tail)[1..] == bs[1..] + tail;
    if bs[0] >= 128 { SkipVarintExtends(bs[1..], tail); }
  }

  lemma RawExtends(bs: seq<Byte>, n: nat, tail: seq<Byte>)
    requires n <= |bs|
    ensures ParseRaw(bs + tail, n) == ParseRaw(bs, n).Before(tail)
  {
    assert (bs + tail)[..n] == bs[..n] && (bs + tail)[n..] == bs[n..] + tail;
  }

  lemma DelimitedExtends(bs: seq<Byte>, tail: seq<Byte>)
    requires ParseDelimited(bs).Got?
    ensures ParseDelimited(bs + tail) == ParseDelimited(bs).Before(tail)
  {
    Varint32Extends(bs, tail);
    RawExtends(ParseVarint32(bs).rest, ParseVarint32(bs).value, tail);
  }

  lemma SkipExtends(wireType: nat, bs: seq<Byte>, tail: seq<Byte>)
    requires SkipField(wireType, bs).Got?
    ensures SkipField(wireType, bs + tail) == SkipField(wireType, bs).Before(tail)
  {
    if wireType == WT_VARINT { SkipVarintExtends(bs, tail); }
    else if wireType == WT_STRING { DelimitedExtends(bs, tail); }
    else { RawExtends(bs, if wireType == WT_64BIT then 8 else 4, tail); }
  }

  lemma TagExtends(bs: seq<Byte>, tail: seq<Byte>)
    requires !ParseTag(bs).BadTag?
    ensures ParseTag(bs + tail) == ParseTag(bs).(rest := ParseTag(bs).rest + tail)
  {
    Varint32Extends(bs, tail);
  }
}
