/** Repeated fields whose array is allocated while decoding (PB_ATYPE_POINTER): the
    growth of the array in decode_pointer_field, and allocate_field's guard. */
module PointerArray {
  import opened Bits
  import opened Wire
  import opened Wrappers
  import opened Message
  import opened DecodeSpec
  import opened InputStream
  import Decoder

  /** (size_t)-1. */
  const SIZE_MAX: nat := U64 - 1

  // --------------------------------------------------------------- the guard

  /** allocate_field's overflow check: the division is made only when one of the factors
      has more than half of the bits of size_t. */
  predicate GuardPasses(dataSize: nat, arraySize: nat)
    requires dataSize > 0 && arraySize > 0
  {
    !((dataSize >= U32 || arraySize >= U32) && SIZE_MAX / arraySize < dataSize)
  }

  lemma DivisionBound(m: nat, a: nat, d: nat)
    requires a > 0
    ensures m / a < d <==> m < a * d
  {
    var q := m / a;
    assert a * q <= m < a * q + a;
    if q < d {
      assert a * (q + 1) <= a * d by { MulLe(a, q + 1, d); }
    } else {
      assert a * d <= a * q by { MulLe(a, d, q); }
    }
  }

  lemma MulLe(a: nat, x: nat, y: nat)
    requires x <= y
    ensures a * x <= a * y
  {
  }

  /** It passes exactly when the product does not overflow size_t. */
  lemma {:induction false} GuardIsExact(dataSize: nat, arraySize: nat)
    requires dataSize > 0 && arraySize > 0
    ensures GuardPasses(dataSize, arraySize) <==> arraySize * dataSize <= SIZE_MAX
  {
    if dataSize >= U32 || arraySize >= U32 {
      DivisionBound(SIZE_MAX, arraySize, dataSize);
    } else {
      MulLe(arraySize, dataSize, U32 - 1);
      assert arraySize * (U32 - 1) <= (U32 - 1) * (U32 - 1) by { MulLe(U32 - 1, arraySize, U32 - 1); }
    }
  }

  // -------------------------------------------------------------- the array

  /** What a packed record appends to an array without a limit of its own. */
  function ReadAll(f: Field, items: seq<Val>, body: seq<Byte>): Option<seq<Val>>
    decreases |body|
  {
    if body == [] then Some(items)
    else if |items| >= PB_SIZE_MAX then None
    else
      match DecodePlain(f, body)
      case Fail => None
      case Got(v, rest) => ReadAll(f, items + [v], rest)
  }

  /** It is what the record appends to a static array that is large enough. */
  lemma {:induction false} ReadAllIsDecodePacked(f: Field, items: seq<Val>, body: seq<Byte>)
    requires WfField(f) && f.Packable() && f.arraySize == PB_SIZE_MAX
    requires forall k :: 0 <= k < |items| ==> ValFits(f, items[k], false)
    ensures ReadAll(f, items, body) == DecodePacked(f, items, body)
    decreases |body|
  {
    if body != [] && |items| < PB_SIZE_MAX {
      DefaultFits(f);
      PlainDecodes(f, body);
      var p := DecodePlain(f, body);
      if p.Got? { ReadAllIsDecodePacked(f, items + [p.value], p.rest); }
    }
  }

  /** An allocation of `n` entries that allocate_field reports as an error. */
  predicate Refused(dataSize: nat, n: nat, available: nat -> bool) {
    n * dataSize > SIZE_MAX || !available(n * dataSize)
  }

  /** The number of entries that a full array of `count` entries asks for: as many more as
      the bytes left may hold, or one if that is too many for the count. */
  function Wanted(count: nat, bytesLeft: nat, dataSize: nat): nat
    requires bytesLeft > 0 && dataSize > 0
  {
    var remain := (bytesLeft - 1) / dataSize + 1;
    if remain < PB_SIZE_MAX - count then count + remain else count + 1
  }

  /** An array takes exactly as many entries as its 32-bit count can count. */
  lemma {:induction false} CountIsLimit(f: Field, items: seq<Val>, body: seq<Byte>)
    requires |items| <= 0xFFFF_FFFF
    ensures ReadAll(f, items, body).Some? ==> |items| <= |ReadAll(f, items, body).value| <= 0xFFFF_FFFF
    ensures |items| == 0xFFFF_FFFF && body != [] ==> ReadAll(f, items, body) == None
    ensures |items| == 0xFFFF_FFFE && body != [] && DecodePlain(f, body).Got? && DecodePlain(f, body).rest == [] ==>
              ReadAll(f, items, body) == Some(items + [DecodePlain(f, body).value])
    decreases |body|
  {
    if body != [] && |items| < 0xFFFF_FFFF {
      var p := DecodePlain(f, body);
      if p.Got? { CountIsLimit(f, items + [p.value], p.rest); }
    }
  }

  lemma {:induction false} EntriesOfOneSize(f: Field, size: nat, items: seq<Val>, body: seq<Byte>)
    requires (f.ltype.Fixed32? && size == 4) || (f.ltype.Fixed64? && size == 8)
    requires ReadAll(f, items, body).Some?
    ensures |items| <= |ReadAll(f, items, body).value|
            && |body| == size * (|ReadAll(f, items, body).value| - |items|)
    decreases |body|
  {
    if body != [] {
      var p := DecodePlain(f, body);
      assert |p.rest| == |body| - size;
      EntriesOfOneSize(f, size, items + [p.value], p.rest);
    }
  }

  /** For numbers of a fixed size the guess is exact: a full array asks once for the memory
      of all entries that the record has left, and for no more. */
  lemma GuessIsExact(f: Field, items: seq<Val>, body: seq<Byte>)
    requires (f.ltype.Fixed32? && f.dataSize == 4) || (f.ltype.Fixed64? && f.dataSize == 8)
    requires body != [] && ReadAll(f, items, body).Some? && |ReadAll(f, items, body).value| < PB_SIZE_MAX
    ensures Wanted(|items|, |body|, f.dataSize) == |ReadAll(f, items, body).value|
  {
    EntriesOfOneSize(f, f.dataSize, items, body);
    var more := |ReadAll(f, items, body).value| - |items|;
    if f.dataSize == 4 {
      assert (4 * more - 1) / 4 + 1 == more;
    } else {
      assert (8 * more - 1) / 8 + 1 == more;
    }
  }

  /** Memory for `n` entries was refused when the array was full of `items`, with `rest` to be
      read; `r` is what reading all of it would have given. */
  predicate RanOut(f: Field, items: seq<Val>, n: nat, available: nat -> bool, rest: seq<Byte>, r: Option<seq<Val>>)
    requires f.dataSize > 0
  {
    rest != [] && n == Wanted(|items|, |rest|, f.dataSize) && Refused(f.dataSize, n, available)
    && ReadAll(f, items, rest) == r
  }

  // --------------------------------------------------------------- one entry

  /** The descriptor of an entry's own storage. */
  function Entry(f: Field): Field {
    f.(atype := Static, arraySize := 1)
  }

  ghost predicate IsEntry(f: Field) {
    f.htype.Repeated? && !f.ltype.Extension? && (f.ltype.Submessage? ==> WfField(Entry(f)))
  }

  /** What is allocated for a string or bytes value of `n` bytes; the sum of a string and
      its terminator is taken in 32 bits. */
  function ValueSize(f: Field, n: nat): nat {
    if f.ltype.CString? then (n + 1) % U32 else n + 4
  }

  /** Reads one entry. A string or bytes value lies in memory of its own, as large as it
      needs; anything else lies in the array. */
  function DecodeEntry(f: Field, bs: seq<Byte>, available: nat -> bool): Parsed<Val>
    requires IsEntry(f)
  {
    if f.ltype.CString? || f.ltype.BytesArray? then
      match ParseVarint32(bs)
      case Fail => Fail
      case Got(n, rest) =>
        if ValueSize(f, n) < n || Refused(ValueSize(f, n), 1, available) then Fail else AsBytes(ParseRaw(rest, n))
    else if f.ltype.Submessage? then
      DefaultFits(Entry(f));
      DecodeVal(Entry(f), DefaultVal(Entry(f)), bs)
    else DecodePlain(f, bs)
  }

  /** A string or bytes value is read exactly if memory for it and its terminator, or its count
      of four bytes, is granted and its bytes are there; for the longest length of a string
      there is no such memory. */
  lemma EntryFitsItsMemory(f: Field, bs: seq<Byte>, available: nat -> bool)
    requires IsEntry(f) && (f.ltype.CString? || f.ltype.BytesArray?)
    ensures DecodeEntry(f, bs, available)
         == match ParseVarint32(bs)
            case Fail => Fail
            case Got(n, rest) =>
              if (f.ltype.CString? && n == 0xFFFF_FFFF) || !available(n + if f.ltype.CString? then 1 else 4) || n > |rest|
              then Fail else Got(Bytes(rest[..n]), rest[n..])
  {
    var p := ParseVarint32(bs);
    if p.Got? && f.ltype.CString? && p.value != 0xFFFF_FFFF { SmallMod(p.value + 1, U32); }
  }

  method ReadEntry(stream: IStream, f: Field, available: nat -> bool) returns (ok: bool, v: Val)
    requires stream.Valid() && IsEntry(f)
    modifies stream
    ensures stream.Did(ok, DecodeEntry(f, old(stream.Left()), available))
    ensures ok ==> v == DecodeEntry(f, old(stream.Left()), available).value
  {
    if f.ltype.CString? || f.ltype.BytesArray? {
      ok, v := ReadAllocated(stream, f, available);
    } else if f.ltype.Submessage? {
      DefaultFits(Entry(f));
      ok, v := Decoder.DecodeSubmessage(stream, Entry(f), DefaultVal(Entry(f)));
    } else {
      ok, v := Decoder.DecodeScalar(stream, f);
    }
  }

  /** pb_dec_string and pb_dec_bytes, of a pointer field. */
  method ReadAllocated(stream: IStream, f: Field, available: nat -> bool) returns (ok: bool, v: Val)
    requires stream.Valid() && IsEntry(f) && (f.ltype.CString? || f.ltype.BytesArray?)
    modifies stream
    ensures stream.Did(ok, DecodeEntry(f, old(stream.Left()), available))
    ensures ok ==> v == DecodeEntry(f, old(stream.Left()), available).value
  {
    v := Num(0);
    var size: nat, eof: bool;
    ok, size, eof := stream.DecodeVarint32Eof();
    if !ok { return; }
    var allocSize := if f.ltype.CString? then (size + 1) % U32 else size + 4;
    if allocSize < size { return false, v; }
    if stream.bytesLeft < size { return false, v; }
    if !available(allocSize) { return false, v; }
    ok, v := Decoder.ReadBytes(stream, size);
  }

  /** The pointer and the count in the structure. */
  class PointerField {
    var entries: array?<Val>
    var count: nat

    ghost predicate Valid()
      reads this
    {
      count <= Capacity() && count <= PB_SIZE_MAX
    }

    ghost function Capacity(): nat
      reads this
    {
      if entries == null then 0 else entries.Length
    }

    ghost function Items(): seq<Val>
      requires Valid()
      reads this, entries
    {
      if entries == null then [] else entries[..count]
    }

    /** allocate_field: `available` says for which sizes pb_realloc succeeds. */
    method Allocate(dataSize: nat, arraySize: nat, available: nat -> bool) returns (ok: bool)
      requires Valid() && count <= arraySize
      modifies this`entries
      ensures Valid() && Items() == old(Items())
      ensures ok <==> dataSize > 0 && arraySize > 0 && arraySize * dataSize <= SIZE_MAX && available(arraySize * dataSize)
      ensures ok ==> fresh(entries) && Capacity() == arraySize
      ensures !ok ==> entries == old(entries)
    {
      if dataSize == 0 || arraySize == 0 { return false; }
      GuardIsExact(dataSize, arraySize);
      var checkLimit := U32;
      if dataSize >= checkLimit || arraySize >= checkLimit {
        if SIZE_MAX / arraySize < dataSize { return false; }
      }
      if !available(arraySize * dataSize) { return false; }
      entries := Realloc(arraySize);
      return true;
    }

    /** A successful pb_realloc. */
    method Realloc(arraySize: nat) returns (ptr: array<Val>)
      requires Valid() && count <= arraySize
      ensures fresh(ptr) && ptr.Length == arraySize && ptr[..count] == Items()
    {
      ptr := new Val[arraySize](_ => Num(0));
      if entries != null {
        for i := 0 to count
          invariant forall k :: 0 <= k < i ==> ptr[k] == entries[k]
        {
          ptr[i] := entries[i];
        }
      }
    }

    /** `*size` is bumped after an item is stored. */
    method Append(v: Val)
      requires Valid() && count < Capacity() && count < PB_SIZE_MAX
      modifies this`count, entries
      ensures Valid() && Items() == old(Items()) + [v] && count == old(count) + 1
    {
      entries[count] := v;
      count := count + 1;
    }

    /** More storage when the allocation is full. */
    method MakeRoom(bytesLeft: nat, before: nat, dataSize: nat, available: nat -> bool)
      returns (ok: bool, allocatedSize: nat)
      requires Valid() && bytesLeft > 0 && dataSize > 0
      requires count <= before <= Capacity() && before <= PB_SIZE_MAX && count < PB_SIZE_MAX
      modifies this`entries
      ensures Valid() && Items() == old(Items())
      ensures entries == old(entries) || fresh(entries)
      ensures allocatedSize == if count < before then before else Wanted(count, bytesLeft, dataSize)
      ensures ok <==> count < before || !Refused(dataSize, allocatedSize, available)
      ensures count < allocatedSize <= PB_SIZE_MAX && (ok ==> allocatedSize <= Capacity())
    {
      allocatedSize := before;
      if count + 1 <= allocatedSize { return true, allocatedSize; }
      var remain := (bytesLeft - 1) / dataSize + 1;
      if remain < PB_SIZE_MAX - allocatedSize {
        allocatedSize := allocatedSize + remain;
      } else {
        allocatedSize := allocatedSize + 1;
      }
      ok := Allocate(dataSize, allocatedSize, available);
    }

    /** decode_pointer_field for a packed record. Every item is written inside the
        current allocation; the items are those of ReadAll; and it fails only when that
        fails or memory is refused: then `refused` is the size that was asked for, with the
        items received so far in the array and `rest` still to be read. */
    method DecodePacked(stream: IStream, f: Field, available: nat -> bool)
      returns (ok: bool, ghost refused: Option<nat>, ghost rest: seq<Byte>)
      requires Valid() && stream.Valid() && f.Packable() && f.dataSize > 0
      modifies stream, this, entries
      ensures Valid() && stream.Valid()
      ensures stream.state + stream.bytesLeft <= old(stream.state + stream.bytesLeft)
      ensures refused.None? ==>
                (ok <==> ParseDelimited(old(stream.Left())).Got?
                         && ReadAll(f, old(Items()), ParseDelimited(old(stream.Left())).value).Some?)
      ensures refused.Some? ==>
                !ok && ParseDelimited(old(stream.Left())).Got?
                && RanOut(f, Items(), refused.value, available, rest,
                          ReadAll(f, old(Items()), ParseDelimited(old(stream.Left())).value))
      ensures ok ==> ReadAll(f, old(Items()), ParseDelimited(old(stream.Left())).value) == Some(Items())
                     && stream.Left() == ParseDelimited(old(stream.Left())).rest
    {
      refused, rest := None, [];
      ghost var items, p := Items(), ParseDelimited(stream.Left());
      var sub: IStream;
      ok, sub := stream.MakeSubstream();
      if !ok { return; }
      assert Items() == items && sub.Left() == p.value;
      ok, refused, rest := DecodeSubstream(stream, sub, f, available);
    }

    /** Its part after the length, up to the end of the substream. */
    method DecodeSubstream(stream: IStream, sub: IStream, f: Field, available: nat -> bool)
      returns (ok: bool, ghost refused: Option<nat>, ghost rest: seq<Byte>)
      requires Valid() && stream.Valid() && sub.Valid() && f.Packable() && f.dataSize > 0
      requires sub != stream && sub.source == stream.source && stream.state <= sub.state
      requires sub.state + sub.bytesLeft + stream.bytesLeft <= stream.source.Length
      modifies stream, sub, this, entries
      ensures Valid() && stream.Valid() && stream.bytesLeft == old(stream.bytesLeft)
      ensures stream.state <= old(sub.state + sub.bytesLeft)
      ensures refused.None? ==> (ok <==> ReadAll(f, old(Items()), old(sub.Left())).Some?)
      ensures refused.Some? ==>
                !ok && RanOut(f, Items(), refused.value, available, rest, ReadAll(f, old(Items()), old(sub.Left())))
      ensures ok ==> ReadAll(f, old(Items()), old(sub.Left())) == Some(Items())
                     && stream.state == old(sub.state + sub.bytesLeft)
    {
      ghost var r := ReadAll(f, Items(), sub.Left());
      var status: bool;
      status, refused := Grow(sub, f, available);
      rest := sub.Left();
      ghost var items := Items();
      ok := stream.CloseSubstream(sub);
      assert Items() == items;
      ok := status;
    }

    /** Its loop. */
    method Grow(sub: IStream, f: Field, available: nat -> bool) returns (status: bool, ghost refused: Option<nat>)
      requires Valid() && sub.Valid() && f.Packable() && f.dataSize > 0
      modifies sub, this, entries
      ensures Valid() && sub.Valid() && old(sub.state) <= sub.state
      ensures sub.state + sub.bytesLeft <= old(sub.state + sub.bytesLeft)
      ensures refused.None? ==> (status <==> ReadAll(f, old(Items()), old(sub.Left())).Some?)
      ensures refused.Some? ==>
                !status && RanOut(f, Items(), refused.value, available, sub.Left(), ReadAll(f, old(Items()), old(sub.Left())))
      ensures status ==> ReadAll(f, old(Items()), old(sub.Left())) == Some(Items())
      ensures status ==> sub.state + sub.bytesLeft == old(sub.state + sub.bytesLeft) && sub.bytesLeft == 0
    {
      ghost var r := ReadAll(f, Items(), sub.Left());
      var allocatedSize := count;
      while sub.bytesLeft > 0
        invariant Valid() && sub.Valid() && old(sub.state) <= sub.state
        invariant sub.state + sub.bytesLeft == old(sub.state + sub.bytesLeft)
        invariant count <= allocatedSize <= PB_SIZE_MAX && allocatedSize <= Capacity()
        invariant entries == old(entries) || fresh(entries)
        invariant ReadAll(f, Items(), sub.Left()) == r
        decreases sub.bytesLeft
      {
        status, allocatedSize, refused := GrowByOne(sub, f, available, allocatedSize);
        if !status { return; }
      }
      return true, None;
    }

    /** One turn of the loop: one more item, written inside the allocation. */
    method GrowByOne(sub: IStream, f: Field, available: nat -> bool, before: nat)
      returns (got: bool, allocatedSize: nat, ghost refused: Option<nat>)
      requires Valid() && sub.Valid() && sub.bytesLeft > 0 && f.Packable() && f.dataSize > 0
      requires count <= before <= PB_SIZE_MAX && before <= Capacity()
      modifies sub, this, entries
      ensures Valid() && sub.Valid() && old(sub.state) <= sub.state
      ensures sub.state + sub.bytesLeft <= old(sub.state + sub.bytesLeft)
      ensures entries == old(entries) || fresh(entries)
      ensures got ==> refused.None? && sub.state + sub.bytesLeft == old(sub.state + sub.bytesLeft)
                      && sub.bytesLeft < old(sub.bytesLeft) && count <= allocatedSize <= PB_SIZE_MAX
                      && allocatedSize <= Capacity()
                      && ReadAll(f, Items(), sub.Left()) == ReadAll(f, old(Items()), old(sub.Left()))
      ensures !got && refused.None? ==> ReadAll(f, old(Items()), old(sub.Left())).None?
      ensures refused.Some? ==>
                RanOut(f, Items(), refused.value, available, sub.Left(), ReadAll(f, old(Items()), old(sub.Left())))
    {
      allocatedSize := before;
      if count == PB_SIZE_MAX { return false, before, None; }
      got, allocatedSize := MakeRoom(sub.bytesLeft, before, f.dataSize, available);
      if !got { return false, allocatedSize, Some(allocatedSize); }
      var v: Val;
      got, v := Decoder.DecodeScalar(sub, f);
      refused := None;
      if got { Append(v); }
    }

    /** decode_pointer_field for a record of one entry: the array grows by one, which is
        counted before it is read. */
    method DecodeOne(stream: IStream, f: Field, available: nat -> bool) returns (ok: bool)
      requires Valid() && stream.Valid() && IsEntry(f)
      modifies stream, this, entries
      ensures Valid() && stream.Valid()
      ensures stream.state + stream.bytesLeft <= old(stream.state + stream.bytesLeft)
      ensures count == old(count) + if old(count) < 0xFFFF_FFFF && f.dataSize > 0
                                       && !Refused(f.dataSize, old(count) + 1, available) then 1 else 0
      ensures ok <==> count == old(count) + 1 && DecodeEntry(f, old(stream.Left()), available).Got?
      ensures ok ==> Items() == old(Items()) + [DecodeEntry(f, old(stream.Left()), available).value]
                     && stream.Left() == DecodeEntry(f, old(stream.Left()), available).rest
      ensures old(Items()) <= Items()
    {
      ok := Extend(f, available);
      if !ok { return; }
      var v: Val;
      ok, v := ReadEntry(stream, f, available);
      if ok { Store(v); }
    }

    /** The array is one longer, whatever is in the new place. */
    method Extend(f: Field, available: nat -> bool) returns (ok: bool)
      requires Valid() && IsEntry(f)
      modifies this, entries
      ensures Valid() && (entries == old(entries) || fresh(entries))
      ensures ok <==> old(count) < 0xFFFF_FFFF && f.dataSize > 0 && !Refused(f.dataSize, old(count) + 1, available)
      ensures count == old(count) + if ok then 1 else 0
      ensures if ok then Items()[..count - 1] == old(Items()) else Items() == old(Items())
    {
      if count == PB_SIZE_MAX { return false; }
      ok := Allocate(f.dataSize, count + 1, available);
      if !ok { return; }
      Append(entries[count]);
    }

    /** What was read goes to the last place. */
    method Store(v: Val)
      requires Valid() && count > 0
      modifies entries
      ensures Valid() && Items() == old(Items())[..count - 1] + [v]
    {
      entries[count - 1] := v;
    }
  }
}
