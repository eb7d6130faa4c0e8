/** The Protocol Buffers wire format as the nanopb helpers read and write it:
    base 128 varints, zigzag, little-endian fixed-width values and field tags.
    Each `Parse` function mirrors the reading loop of one C function, including
    its error branches; the lemmas say what the loops compute. */
module Wire {
  import opened Bits

  /** Result of reading from the front of a byte string. */
  datatype Parsed<+T> = Fail | Got(value: T, rest: seq<Byte>) {
    /** The same result with more bytes following. */
    function Before(tail: seq<Byte>): Parsed<T> {
      if Fail? then Fail else Got(value, rest + tail)
    }
  }

  // Wire types (pb_wire_type_t).
  const WT_VARINT: nat := 0
  const WT_64BIT: nat := 1
  const WT_STRING: nat := 2
  const WT_32BIT: nat := 5

  // ---------------------------------------------------------------- varints

  /** pb_encode_varint: seven bits at a time, low bits first, the top bit of every
      byte but the last one set. */
  function VarintBytes(v: nat): (bs: seq<Byte>)
    ensures |bs| >= 1
  {
    if v < 128 then [v] else [v % 128 + 128] + VarintBytes(v / 128)
  }

  /** pb_decode_varint's loop, from bit position `bitpos` with `result` read so far. */
  function VarintFrom(bs: seq<Byte>, bitpos: nat, result: nat): Parsed<nat>
    decreases |bs|
  {
    if bitpos >= 64 || bs == [] then Fail
    else
      var r := Or(result, Shl(bs[0] % 128, bitpos) % U64);
      if bs[0] >= 128 then VarintFrom(bs[1..], bitpos + 7, r) else Got(r, bs[1..])
  }

  function ParseVarint(bs: seq<Byte>): (p: Parsed<nat>)
    ensures p.Got? ==> p.value < U64 && |p.rest| < |bs|
  {
    VarintFromResult(bs, 0, 0);
    VarintFrom(bs, 0, 0)
  }

  lemma {:induction false} VarintFromResult(bs: seq<Byte>, bitpos: nat, result: nat)
    requires result < U64
    ensures var p := VarintFrom(bs, bitpos, result); p.Got? ==> p.value < U64 && |p.rest| < |bs|
    decreases |bs|
  {
    if bitpos < 64 && bs != [] {
      OrWidth(result, Shl(bs[0] % 128, bitpos) % U64, 64);
      VarintFromResult(bs[1..], bitpos + 7, Or(result, Shl(bs[0] % 128, bitpos) % U64));
    }
  }

  /** The do-while loop of pb_decode_varint32_eof. `bitpos` is an 8-bit counter. */
  function Varint32From(bs: seq<Byte>, bitpos: nat, result: nat): Parsed<nat>
    decreases |bs|
  {
    if bs == [] then Fail
    else
      var b := bs[0];
      var signExtension := if bitpos < 63 then 0xFF else 0x01;
      if bitpos >= 32 && b % 128 != 0 && (result / 0x8000_0000 == 0 || b != signExtension) then Fail
      else
        var r := if bitpos >= 32 then result else Or(result, Shl(b % 128, bitpos) % U32);
        var next := (bitpos + 7) % 256;
        if b >= 128 then Varint32From(bs[1..], next, r)
        else if next == 35 && b / 16 % 8 != 0 then Fail
        else Got(r, bs[1..])
  }

  function ParseVarint32(bs: seq<Byte>): (p: Parsed<nat>)
    ensures p.Got? ==> p.value < U32 && |p.rest| < |bs|
  {
    if bs == [] then Fail
    else if bs[0] < 128 then Got(bs[0], bs[1..])
    else
      Varint32FromResult(bs[1..], 7, bs[0] % 128);
      Varint32From(bs[1..], 7, bs[0] % 128)
  }

  lemma {:induction false} Varint32FromResult(bs: seq<Byte>, bitpos: nat, result: nat)
    requires result < U32
    ensures var p := Varint32From(bs, bitpos, result); p.Got? ==> p.value < U32 && |p.rest| < |bs|
    decreases |bs|
  {
    if bs != [] {
      OrWidth(result, Shl(bs[0] % 128, bitpos) % U32, 32);
      Varint32FromResult(bs[1..], (bitpos + 7) % 256,
                         if bitpos >= 32 then result else Or(result, Shl(bs[0] % 128, bitpos) % U32));
    }
  }

  /** pb_skip_varint: no limit on the number of bytes. */
  function SkipVarint(bs: seq<Byte>): (p: Parsed<()>)
    ensures p.Got? ==> |p.rest| < |bs|
  {
    if bs == [] then Fail
    else if bs[0] >= 128 then SkipVarint(bs[1..])
    else Got((), bs[1..])
  }

  // ------------------------------------------------------ tags and skipping

  datatype TagResult = BadTag | ZeroTag(rest: seq<Byte>) | Tag(number: nat, wireType: nat, rest: seq<Byte>)

  /** pb_decode_tag on a nonempty stream: a zero tag ends the message. */
  function ParseTag(bs: seq<Byte>): (t: TagResult)
    ensures !t.BadTag? ==> |t.rest| < |bs|
    ensures t.ZeroTag? ==> ParseVarint32(bs) == Got(0, t.rest)
  {
    match ParseVarint32(bs)
    case Fail => BadTag
    case Got(v, rest) => if v == 0 then ZeroTag(rest) else Tag(v / 8, v % 8, rest)
  }

  /** pb_read of `n` bytes into a buffer (or, when skipping, nowhere). */
  function ParseRaw(bs: seq<Byte>, n: nat): Parsed<seq<Byte>> {
    if |bs| < n then Fail else Got(bs[..n], bs[n..])
  }

  /** A length prefix and that many bytes: pb_skip_string and
      pb_make_string_substream followed by pb_close_string_substream. */
  function ParseDelimited(bs: seq<Byte>): (p: Parsed<seq<Byte>>)
    ensures p.Got? ==> |p.value| + |p.rest| < |bs|
  {
    match ParseVarint32(bs)
    case Fail => Fail
    case Got(n, rest) => ParseRaw(rest, n)
  }

  /** pb_skip_field. */
  function SkipField(wireType: nat, bs: seq<Byte>): (p: Parsed<()>)
    ensures p.Got? ==> |p.rest| < |bs|
  {
    if wireType == WT_VARINT then SkipVarint(bs)
    else if wireType == WT_64BIT then Forget(ParseRaw(bs, 8))
    else if wireType == WT_STRING then Forget(ParseDelimited(bs))
    else if wireType == WT_32BIT then Forget(ParseRaw(bs, 4))
    else Fail
  }

  function Forget<T>(p: Parsed<T>): Parsed<()> {
    match p
    case Fail => Fail
    case Got(_, rest) => Got((), rest)
  }

  // ------------------------------------------------------- fixed and zigzag

  /** The `n` low bytes of `v`, low byte first. */
  function LittleEndian(n: nat, v: nat): (bs: seq<Byte>)
    ensures |bs| == n
  {
    if n == 0 then [] else [v % 256] + LittleEndian(n - 1, v / 256)
  }

  function FromLittleEndian(bs: seq<Byte>): nat {
    if bs == [] then 0 else bs[0] + 256 * FromLittleEndian(bs[1..])
  }

  /** Two's complement reading of an unsigned word with `modulus` values. */
  function ToSigned(modulus: nat, x: nat): int {
    if x < modulus / 2 then x else x - modulus
  }

  /** pb_encode_svarint: `~((uint64_t)value << 1)` for negative values. */
  function ZigZag(v: int): nat {
    var shifted := 2 * (v % U64) % U64;
    if v < 0 then U64 - 1 - shifted else shifted
  }

  /** pb_decode_svarint: `~(value >> 1)` when the low bit is set. */
  function UnZigZag(x: nat): int
    requires x < U64
  {
    if x % 2 == 1 then ToSigned(U64, U64 - 1 - x / 2) else ToSigned(U64, x / 2)
  }
}
