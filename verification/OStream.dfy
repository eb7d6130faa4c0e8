/** pb_ostream_t over a memory buffer, or measuring only, and the functions that write
    scalars to it. */
module OutputStream {
  import opened Bits
  import opened Wire
  import opened WireProofs
  import opened Wrappers

  /** `d` with `e` written at index `at`. */
  ghost function Splice(d: seq<Byte>, at: nat, e: seq<Byte>): seq<Byte>
    requires at + |e| <= |d|
  {
    d[..at] + e + d[at + |e|..]
  }

  /** What an output stream is at one moment: a sizing stream counts; a writing one has
      a buffer, the index it writes at, and room for so many more bytes. */
  datatype Snapshot =
    | Sizing(written: nat)
    | Writing(buffer: seq<Byte>, at: nat, room: nat, written: nat)
  {
    ghost predicate Ok() {
      Writing? ==> at + room <= |buffer|
    }
  }

  /** A call took the stream from `a` to `b` in order to write `e`: it succeeded exactly
      if `e` exists and fits, and then `e` and nothing else was written; on failure
      nothing outside the stream's room was. */
  ghost predicate Wrote(a: Snapshot, b: Snapshot, ok: bool, e: Option<seq<Byte>>) {
    && a.Ok() && b.Ok()
    && match a
       case Sizing(w) => b.Sizing? && ok == e.Some? && (ok ==> b.written == w + |e.value|)
       case Writing(buffer, at, room, w) =>
         && b.Writing? && |b.buffer| == |buffer|
         && ok == (e.Some? && |e.value| <= room)
         && (ok ==> b == Writing(Splice(buffer, at, e.value), at + |e.value|, room - |e.value|, w + |e.value|))
         && b.buffer[..at] == buffer[..at] && b.buffer[at + room..] == buffer[at + room..]
  }

  /** Two calls in a row write what the first and then the second writes. */
  lemma WroteBoth(a: Snapshot, b: Snapshot, c: Snapshot, p: seq<Byte>, ok: bool, e: Option<seq<Byte>>)
    requires Wrote(a, b, true, Some(p)) && Wrote(b, c, ok, e)
    ensures Wrote(a, c, ok, if e.Some? then Some(p + e.value) else None)
  {
    if a.Writing? {
      var at, room, n := a.at, a.room, |p|;
      assert b.buffer == Splice(a.buffer, at, p);
      assert b.buffer[..at] == a.buffer[..at] && b.buffer[at + room..] == a.buffer[at + room..];
      assert c.buffer[..at] == c.buffer[..at + n][..at] == b.buffer[..at + n][..at] == a.buffer[..at];
      if ok {
        assert c.buffer == Splice(a.buffer, at, p + e.value);
      }
    }
  }

  /** A call that fails early fails for all that was to be written. */
  lemma WroteTooMuch(a: Snapshot, b: Snapshot, first: Option<seq<Byte>>, e: Option<seq<Byte>>)
    requires Wrote(a, b, false, first)
    requires e.Some? ==> first.Some? && |first.value| <= |e.value|
    ensures Wrote(a, b, false, e)
  {
  }

  lemma WroteNothing(a: Snapshot)
    requires a.Ok()
    ensures Wrote(a, a, true, Some([])) && Wrote(a, a, false, None)
  {
  }

  /** Bytes already written and what is still to be. */
  ghost function Joined(done: seq<Byte>, rest: Option<seq<Byte>>): Option<seq<Byte>> {
    if rest.None? then None else Some(done + rest.value)
  }

  /** One more call, which writes the front `e` of the rest. */
  lemma WroteStep(a: Snapshot, b: Snapshot, c: Snapshot, done: seq<Byte>, ok: bool, e: Option<seq<Byte>>,
      rest: Option<seq<Byte>>)
    requires Wrote(a, b, true, Some(done)) && Wrote(b, c, ok, e)
    requires rest.Some? ==> e.Some? && |e.value| <= |rest.value|
    ensures if ok then Wrote(a, c, true, Some(done + e.value)) else Wrote(a, c, false, Joined(done, rest))
  {
    if ok {
      WroteBoth(a, b, c, done, true, e);
    } else {
      WroteTooMuch(b, c, e, rest);
      WroteBoth(a, b, c, done, false, rest);
    }
  }

  class OStream {
    const dest: array?<Byte>   // null: a sizing stream (callback == NULL)
    var state: nat             // index in `dest` of the next byte
    const maxSize: nat
    var bytesWritten: nat

    ghost predicate Valid()
      reads this
    {
      dest != null ==> bytesWritten <= maxSize && state + (maxSize - bytesWritten) <= dest.Length
    }

    ghost function Now(): (s: Snapshot)
      requires Valid()
      ensures s.Ok()
      reads this, dest
    {
      if dest == null then Sizing(bytesWritten)
      else Writing(dest[..], state, maxSize - bytesWritten, bytesWritten)
    }

    /** The call wrote `e`, or failed to. */
    twostate predicate Did(ok: bool, new e: Option<seq<Byte>>)
      requires old(Valid())
      reads this, dest
    {
      Valid() && Wrote(old(Now()), Now(), ok, e)
    }

    /** pb_ostream_from_buffer. */
    constructor FromBuffer(buf: array<Byte>, bufsize: nat)
      requires bufsize <= buf.Length
      ensures Valid() && dest == buf && state == 0 && maxSize == bufsize && bytesWritten == 0
    {
      dest, state, maxSize, bytesWritten := buf, 0, bufsize, 0;
    }

    /** PB_OSTREAM_SIZING. */
    constructor ForSizing()
      ensures Valid() && dest == null && bytesWritten == 0
    {
      dest, state, maxSize, bytesWritten := null, 0, 0, 0;
    }

    /** The limited substream of pb_encode_submessage. */
    constructor Limited(stream: OStream, size: nat)
      ensures dest == stream.dest && state == stream.state && maxSize == size && bytesWritten == 0
    {
      dest, state, maxSize, bytesWritten := stream.dest, stream.state, size, 0;
    }

    /** pb_write with buf_write. */
    method Write(buf: seq<Byte>) returns (ok: bool)
      requires Valid()
      modifies this, dest
      ensures Did(ok, Some(buf))
    {
      var count := |buf|;
      if count > 0 && dest != null {
        if bytesWritten + count > maxSize { return false; }
        var at := state;
        state := at + count;
        for i := 0 to count
          modifies dest
          invariant forall k :: 0 <= k < i ==> dest[at + k] == buf[k]
          invariant forall k :: 0 <= k < dest.Length && !(at <= k < at + i) ==> dest[k] == old(dest[k])
        {
          dest[at + i] := buf[i];
        }
        assert dest[..] == Splice(old(dest[..]), at, buf);
      }
      bytesWritten := bytesWritten + count;
      return true;
    }

    /** pb_write of a null buffer to a sizing stream. */
    method Count(count: nat)
      requires Valid() && dest == null
      modifies this
      ensures Valid() && bytesWritten == old(bytesWritten) + count
    {
      bytesWritten := bytesWritten + count;
    }

    /** pb_encode_varint, through its ten-byte buffer. */
    method EncodeVarint(value: nat) returns (ok: bool)
      requires Valid() && value < U64
      modifies this, dest
      ensures Did(ok, Some(VarintBytes(value)))
    {
      if value <= 0x7F {
        ok := Write([value]);
        return;
      }
      var buffer := new Byte[10](_ => 0);
      var i := FillVarint(buffer, value);
      ok := Write(buffer[..i]);
    }

    /** One more byte of the buffer. */
    static lemma FillStep(before: seq<Byte>, rest: nat)
      requires rest > 0
      ensures var last := rest % 128 + 128;
              if rest >= 128 then
                0 < rest / 128 && |VarintBytes(rest)| == 1 + |VarintBytes(rest / 128)|
                && (before + [last]) + VarintBytes(rest / 128) == before + VarintBytes(rest)
              else rest / 128 == 0 && last % 128 == rest && before + [last % 128] == before + VarintBytes(rest)
    {
      LowSeven(rest);
    }

    /** Its loop over the buffer, and the correction of the last byte. */
    static method FillVarint(buffer: array<Byte>, value: nat) returns (i: nat)
      requires buffer.Length == 10 && 0 < value < U64
      modifies buffer
      ensures i <= 10 && buffer[..i] == VarintBytes(value)
    {
      i := 0;
      var rest := value;
      VarintLength(value);
      while rest != 0
        invariant i <= 10
        invariant rest != 0 ==> i + |VarintBytes(rest)| <= 10 && buffer[..i] + VarintBytes(rest) == VarintBytes(value)
        invariant rest == 0 ==> 0 < i && buffer[i - 1] >= 128
                                && buffer[..i - 1] + [buffer[i - 1] % 128] == VarintBytes(value)
      {
        ghost var before := buffer[..i];
        FillStep(before, rest);
        buffer[i] := rest % 128 + 128;
        assert buffer[..i + 1] == before + [buffer[i]];
        rest := rest / 128;
        i := i + 1;
      }
      buffer[i - 1] := buffer[i - 1] % 128;
    }

    /** pb_encode_svarint. */
    method EncodeSvarint(value: int) returns (ok: bool)
      requires Valid() && -0x8000_0000_0000_0000 <= value < 0x8000_0000_0000_0000
      modifies this, dest
      ensures Did(ok, Some(VarintBytes(ZigZag(value))))
    {
      ZigZagInverts(value);
      var zigzagged := if value < 0 then U64 - 1 - 2 * (value % U64) % U64 else 2 * (value % U64) % U64;
      ok := EncodeVarint(zigzagged);
    }

    /** pb_encode_fixed32. */
    method EncodeFixed32(value: nat) returns (ok: bool)
      requires Valid() && value < U32
      modifies this, dest
      ensures Did(ok, Some(LittleEndian(4, value)))
    {
      FourBytes(value);
      ok := Write([value % 0x100, value / 0x100 % 0x100, value / 0x1_0000 % 0x100, value / 0x100_0000 % 0x100]);
    }

    /** pb_encode_fixed64. */
    method EncodeFixed64(value: nat) returns (ok: bool)
      requires Valid() && value < U64
      modifies this, dest
      ensures Did(ok, Some(LittleEndian(8, value)))
    {
      EightBytes(value);
      ok := Write([value % 0x100, value / 0x100 % 0x100, value / 0x1_0000 % 0x100, value / 0x100_0000 % 0x100,
                   value / 0x1_0000_0000 % 0x100, value / 0x100_0000_0000 % 0x100, value / 0x1_0000_0000_0000 % 0x100,
                   value / 0x100_0000_0000_0000 % 0x100]);
    }
  }
}
