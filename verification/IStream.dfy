/** pb_istream_t over a memory buffer and the functions that read from it. */
module InputStream {
  import opened Bits
  import opened Wire

  class IStream {
    const source: array<Byte>
    var state: nat       // index in `source` of the next byte
    var bytesLeft: nat

    ghost predicate Valid()
      reads this
    {
      state + bytesLeft <= source.Length
    }

    /** The bytes that can still be read. */
    ghost function Left(): seq<Byte>
      requires Valid()
      reads this, source
    {
      source[state..state + bytesLeft]
    }

    /** A call read what `p` says: it succeeded exactly if `p` did, and then what is left
        is `p`'s rest. `state + bytesLeft`, the end of the stream, is kept by every
        success and never passed. */
    twostate predicate Did<T>(ok: bool, new p: Parsed<T>)
      reads this, source
    {
      && Valid() && (ok <==> p.Got?)
      && old(state) <= state && state + bytesLeft <= old(state + bytesLeft)
      && (ok ==> Left() == p.rest && state + bytesLeft == old(state + bytesLeft))
    }

    /** pb_istream_from_buffer. */
    constructor FromBuffer(buf: array<Byte>, bufsize: nat)
      requires bufsize <= buf.Length
      ensures Valid() && source == buf && state == 0 && bytesLeft == bufsize && Left() == buf[..bufsize]
    {
      source, state, bytesLeft := buf, 0, bufsize;
    }

    constructor Copy(stream: IStream)
      ensures source == stream.source && state == stream.state && bytesLeft == stream.bytesLeft
    {
      source, state, bytesLeft := stream.source, stream.state, stream.bytesLeft;
    }

    /** pb_read with buf_read; a null `buf` skips. */
    method Read(buf: array?<Byte>, count: nat) returns (ok: bool)
      requires Valid()
      requires buf != null ==> count <= buf.Length && buf != source
      modifies this, buf
      ensures Did(ok, ParseRaw(old(Left()), count))
      ensures buf != null && ok ==> buf[..count] == old(Left())[..count]
      ensures !ok ==> state == old(state) && bytesLeft == old(bytesLeft)
    {
      if count == 0 { return true; }
      if bytesLeft < count { return false; }
      var from := state;
      state := state + count;
      if buf != null {
        for i := 0 to count
          modifies buf
          invariant buf[..i] == source[from..from + i]
          invariant source[..] == old(source[..])
        {
          buf[i] := source[from + i];
        }
      }
      bytesLeft := bytesLeft - count;
      return true;
    }

    /** pb_readbyte. */
    method ReadByte() returns (ok: bool, b: Byte)
      requires Valid()
      modifies this
      ensures Valid() && ok == (old(bytesLeft) > 0)
      ensures ok ==> state == old(state) + 1 && bytesLeft == old(bytesLeft) - 1
      ensures ok ==> b == old(Left())[0] && Left() == old(Left())[1..]
      ensures !ok ==> state == old(state) && bytesLeft == old(bytesLeft)
    {
      if bytesLeft == 0 { return false, 0; }
      b := source[state];
      state := state + 1;
      bytesLeft := bytesLeft - 1;
      ok := true;
    }

    /** pb_decode_varint32_eof; `eof` says that there was no byte at all. */
    method DecodeVarint32Eof() returns (ok: bool, dest: nat, eof: bool)
      requires Valid()
      modifies this
      ensures Did(ok, ParseVarint32(old(Left())))
      ensures ok ==> dest == ParseVarint32(old(Left())).value
      ensures eof == (old(bytesLeft) == 0)
    {
      ghost var p := ParseVarint32(Left());
      var b: Byte;
      eof, dest := false, 0;
      ok, b := ReadByte();
      if !ok {
        if bytesLeft == 0 { eof := true; }
        return;
      }
      var result: nat;
      if b < 128 {
        result := b;
      } else {
        var bitpos: nat := 7;
        result := b % 128;
        while true
          invariant Valid() && state + bytesLeft == old(state + bytesLeft) && old(state) <= state
          invariant bitpos < 256
          invariant Varint32From(Left(), bitpos, result) == p
          decreases bytesLeft
        {
          ok, b := ReadByte();
          if !ok { return; }
          if bitpos >= 32 {
            var signExtension := if bitpos < 63 then 0xFF else 0x01;
            if b % 128 != 0 && (result / 0x8000_0000 == 0 || b != signExtension) {
              return false, 0, false;
            }
          } else {
            result := Or(result, Shl(b % 128, bitpos) % U32);
          }
          bitpos := (bitpos + 7) % 256;
          if b < 128 { break; }
        }
        if bitpos == 35 && b / 16 % 8 != 0 { return false, 0, false; }
      }
      dest := result;
      ok := true;
    }

    /** pb_decode_varint. */
    method DecodeVarint() returns (ok: bool, dest: nat)
      requires Valid()
      modifies this
      ensures Did(ok, ParseVarint(old(Left())))
      ensures ok ==> dest == ParseVarint(old(Left())).value
    {
      ghost var p := ParseVarint(Left());
      var bitpos: nat, result: nat := 0, 0;
      dest := 0;
      while true
        invariant Valid() && state + bytesLeft == old(state + bytesLeft) && old(state) <= state
        invariant VarintFrom(Left(), bitpos, result) == p
        decreases bytesLeft
      {
        if bitpos >= 64 { return false, 0; }
        var b: Byte;
        ok, b := ReadByte();
        if !ok { return; }
        result := Or(result, Shl(b % 128, bitpos) % U64);
        bitpos := bitpos + 7;
        if b < 128 { break; }
      }
      dest := result;
    }

    /** pb_skip_varint. */
    method SkipVarintBytes() returns (ok: bool)
      requires Valid()
      modifies this
      ensures Did(ok, SkipVarint(old(Left())))
    {
      ghost var p := SkipVarint(Left());
      while true
        invariant Valid() && state + bytesLeft == old(state + bytesLeft) && old(state) <= state
        invariant SkipVarint(Left()) == p
        decreases bytesLeft
      {
        var b: Byte;
        ok, b := ReadByte();
        if !ok { return; }
        if b < 128 { break; }
      }
    }

    /** pb_skip_field, with pb_skip_string. */
    method Skip(wireType: nat) returns (ok: bool)
      requires Valid()
      modifies this
      ensures Did(ok, SkipField(wireType, old(Left())))
    {
      if wireType == WT_VARINT {
        ok := SkipVarintBytes();
      } else if wireType == WT_64BIT {
        ok := Read(null, 8);
      } else if wireType == WT_STRING {
        var length: nat, eof: bool;
        ok, length, eof := DecodeVarint32Eof();
        if ok { ok := Read(null, length); }
      } else if wireType == WT_32BIT {
        ok := Read(null, 4);
      } else {
        ok := false;
      }
    }

    /** pb_decode_tag. */
    method DecodeTag() returns (ok: bool, wireType: nat, tag: nat, eof: bool)
      requires Valid()
      modifies this
      ensures Valid() && old(state) <= state && state + bytesLeft <= old(state + bytesLeft)
      ensures !ParseTag(old(Left())).BadTag? ==> state + bytesLeft == old(state + bytesLeft)
      ensures ok == ParseTag(old(Left())).Tag?
      ensures ok ==> ParseTag(old(Left())) == Tag(tag, wireType, Left())
      ensures eof == (old(bytesLeft) == 0 || ParseTag(old(Left())).ZeroTag?)
      ensures ParseTag(old(Left())).ZeroTag? ==> ParseTag(old(Left())).rest == Left()
    {
      var temp: nat;
      wireType, tag := 0, 0;
      ok, temp, eof := DecodeVarint32Eof();
      if !ok { return; }
      if temp == 0 {
        eof := true;
        return false, 0, 0, true;
      }
      tag := temp / 8;
      wireType := temp % 8;
    }

    /** pb_make_string_substream: a stream limited to the length that prefixes it. The
        parent has given up those bytes but does not stand behind them yet. */
    method MakeSubstream() returns (ok: bool, sub: IStream)
      requires Valid()
      modifies this
      ensures Valid() && old(state) <= state && fresh(sub) && sub.source == source
      ensures state + bytesLeft <= old(state + bytesLeft)
      ensures ok == ParseDelimited(old(Left())).Got?
      ensures ok ==> sub.Valid() && sub.state == state && sub.Left() == ParseDelimited(old(Left())).value
      ensures ok ==> sub.state + sub.bytesLeft + bytesLeft == old(state + bytesLeft)
      ensures ok ==> source[sub.state + sub.bytesLeft..][..bytesLeft] == ParseDelimited(old(Left())).rest
      ensures ok ==> bytesLeft < old(bytesLeft) && sub.bytesLeft < old(bytesLeft)
    {
      var size: nat, eof: bool;
      ok, size, eof := DecodeVarint32Eof();
      sub := new IStream.Copy(this);
      if !ok { return; }
      if sub.bytesLeft < size { return false, sub; }
      sub.bytesLeft := size;
      bytesLeft := bytesLeft - size;
    }

    /** pb_close_string_substream: what the substream did not read is skipped. */
    method CloseSubstream(sub: IStream) returns (ok: bool)
      requires sub.Valid() && sub != this && sub.source == source && state <= sub.state
      requires sub.state + sub.bytesLeft + bytesLeft <= source.Length
      modifies this, sub
      ensures ok && Valid() && state == old(sub.state + sub.bytesLeft) && bytesLeft == old(bytesLeft)
    {
      if sub.bytesLeft != 0 {
        ok := sub.Read(null, sub.bytesLeft);
        if !ok { return; }
      }
      state := sub.state;
      ok := true;
    }
  }
}
