/** pb_encode.c: writing a message structure to an output stream. Every method is
    proved to write exactly the bytes of its function in EncodeSpec, to succeed exactly
    when they exist and fit, and to stay within the stream's room when it fails. */
module Encoder {
  import opened Bits
  import opened Wire
  import opened Wrappers
  import opened Message
  import opened EncodeSpec
  import opened FieldIteration
  import opened OutputStream

  /** pb_encode_tag. */
  method EncodeTag(stream: OStream, wireType: nat, number: nat) returns (ok: bool)
    requires stream.Valid() && number <= PB_SIZE_MAX && wireType < 8
    modifies stream, stream.dest
    ensures stream.Did(ok, Some(TagBytes(number, wireType)))
  {
    ok := stream.EncodeVarint(8 * number + wireType);
  }

  /** pb_encode_tag_for_field. */
  method EncodeTagForField(stream: OStream, f: Field) returns (ok: bool)
    requires stream.Valid() && f.tag <= PB_SIZE_MAX
    modifies stream, stream.dest
    ensures stream.Did(ok, if f.ltype.Extension? then None else Some(TagBytes(f.tag, WireType(f.ltype))))
  {
    var wireType: nat;
    match f.ltype {
      case Bool => wireType := WT_VARINT;
      case Varint => wireType := WT_VARINT;
      case UVarint => wireType := WT_VARINT;
      case SVarint => wireType := WT_VARINT;
      case Fixed32 => wireType := WT_32BIT;
      case Fixed64 => wireType := WT_64BIT;
      case BytesArray => wireType := WT_STRING;
      case CString => wireType := WT_STRING;
      case Submessage(_) => wireType := WT_STRING;
      case FixedLengthBytes => wireType := WT_STRING;
      case Extension => return false;
    }
    ok := EncodeTag(stream, wireType, f.tag);
  }

  /** pb_encode_string. */
  method EncodeString(stream: OStream, buffer: seq<Byte>) returns (ok: bool)
    requires stream.Valid()
    modifies stream, stream.dest
    ensures stream.Did(ok, Some(Delimited(buffer)))
  {
    ghost var a := stream.Now();
    ok := stream.EncodeVarint(|buffer| % U64);
    if !ok {
      WroteTooMuch(a, stream.Now(), Some(VarintBytes(|buffer| % U64)), Some(Delimited(buffer)));
      return;
    }
    ghost var b := stream.Now();
    ok := stream.Write(buffer);
    WroteBoth(a, b, stream.Now(), VarintBytes(|buffer| % U64), ok, Some(buffer));
  }

  /** The pb_enc_ functions of fields other than submessages. */
  method EncodeScalar(stream: OStream, f: Field, v: Val) returns (ok: bool)
    requires stream.Valid() && Plain(f, v)
    modifies stream, stream.dest
    ensures stream.Did(ok, EncodePlain(f, v))
  {
    if (f.ltype.Varint? || f.ltype.UVarint? || f.ltype.SVarint?) && Values(f.dataSize) == 0 { return false; }
    match f.ltype
    case Bool => ok := stream.EncodeVarint(if v.n != 0 then 1 else 0);
    case Varint => ok := stream.EncodeVarint(v.n % U64);
    case UVarint => ok := stream.EncodeVarint(v.n);
    case SVarint => ok := stream.EncodeSvarint(v.n);
    case Fixed32 => ok := stream.EncodeFixed32(v.n);
    case Fixed64 => ok := stream.EncodeFixed64(v.n);
    case BytesArray =>
      if |v.bytes| + 4 > f.dataSize { return false; }
      ok := EncodeString(stream, v.bytes);
    case CString =>
      var size := StringLength(v.bytes);
      ok := EncodeString(stream, v.bytes[..size]);
    case FixedLengthBytes =>
      ok := EncodeString(stream, v.bytes);
  }

  /** The strnlen loop of pb_enc_string. */
  method StringLength(s: seq<Byte>) returns (size: nat)
    ensures size <= |s| && s[..size] == UpToNul(s)
  {
    size := 0;
    while size < |s| && s[size] != 0
      invariant size <= |s| && s[..size] + UpToNul(s[size..]) == UpToNul(s)
    {
      NextCharacter(s, size);
      size := size + 1;
    }
    assert UpToNul(s[size..]) == [] && s[..size] + [] == s[..size];
  }

  lemma NextCharacter(s: seq<Byte>, k: nat)
    requires k < |s| && s[k] != 0
    ensures s[..k] + UpToNul(s[k..]) == s[..k + 1] + UpToNul(s[k + 1..])
  {
    assert s[k..] == [s[k]] + s[k + 1..] && s[..k + 1] == s[..k] + [s[k]];
    var rest := UpToNul(s[k + 1..]);
    assert s[..k] + ([s[k]] + rest) == s[..k + 1] + rest;
  }

  /** pb_check_proto3_default_value on a field. */
  method CheckDefault(f: Field, s: Slot) returns (isDefault: bool)
    requires WfField(f) && SlotFits(f, s, true)
    ensures isDefault == IsDefault(f, s)
    decreases f, 1
  {
    if f.htype.Required? {
      return false;
    } else if f.htype.Repeated? {
      return if f.HasSize() then s.items == [] else false;
    } else if f.htype.OneOf? {
      return s.cur.None?;
    } else if f.HasSize() {
      return !s.has;
    }
    isDefault := CheckZero(f, s.v);
  }

  /** Its second half, for proto3 singular fields. */
  method CheckZero(f: Field, v: Val) returns (isZero: bool)
    requires WfField(f) && ValFits(f, v, true)
    ensures isZero == IsZero(f, v)
    decreases f, 0
  {
    if f.ltype.BytesArray? {
      return |v.bytes| == 0;
    } else if f.ltype.CString? {
      return v.bytes == [] || v.bytes[0] == 0;
    } else if f.ltype.FixedLengthBytes? {
      return f.dataSize == 0;
    } else if !f.ltype.Submessage? {
      return v.n == 0;
    }
    var sub := f.ltype.fields;
    WfIsWalkable(sub);
    var iter := new FieldIter.Begin(sub, 0);
    while true
      invariant iter.Valid() && iter.fields == sub
      invariant forall k :: 0 <= k < iter.pos ==> IsDefault(sub[k], v.slots[k])
      decreases |sub| - iter.pos
    {
      SlotAt(sub, v.slots, iter.pos, true);
      var d := CheckDefault(sub[iter.pos], v.slots[iter.pos]);
      if !d { return false; }
      var more := iter.Next();
      if !more { return true; }
    }
  }

  /** pb_enc_ for any field. */
  method EncodeValue(stream: OStream, f: Field, v: Val) returns (ok: bool)
    requires stream.Valid() && WfField(f) && ValFits(f, v, true)
    modifies stream, stream.dest
    ensures stream.Did(ok, EncodeVal(f, v))
    decreases f, 0
  {
    if f.ltype.Submessage? {
      ok := EncodeSubmessage(stream, f.ltype.fields, v.slots);
    } else {
      ok := EncodeScalar(stream, f, v);
    }
  }

  /** A header and a value. */
  method EncodeOne(stream: OStream, f: Field, v: Val) returns (ok: bool)
    requires stream.Valid() && WfField(f) && ValFits(f, v, true)
    modifies stream, stream.dest
    ensures stream.Did(ok, EncodeRecord(f, v))
    decreases f, 1
  {
    ghost var a := stream.Now();
    ghost var header := TagBytes(f.tag, WireType(f.ltype));
    ok := EncodeTagForField(stream, f);
    if !ok {
      WroteTooMuch(a, stream.Now(), Some(header), EncodeRecord(f, v));
      return;
    }
    ghost var b := stream.Now();
    ok := EncodeValue(stream, f, v);
    WroteBoth(a, b, stream.Now(), header, ok, EncodeVal(f, v));
  }

  /** What the sizing substream says of a packed array. */
  method PackedSize(f: Field, items: seq<Val>) returns (ok: bool, size: nat)
    requires WfField(f) && f.Packable() && forall k :: 0 <= k < |items| ==> ValFits(f, items[k], true)
    ensures ok == EncodeItems(f, items).Some?
    ensures ok ==> size == |EncodeItems(f, items).value|
    decreases f, 2
  {
    if f.ltype.Fixed32? {
      FixedItems(f, items, 4);
      return true, 4 * |items|;
    } else if f.ltype.Fixed64? {
      FixedItems(f, items, 8);
      return true, 8 * |items|;
    }
    var sizing := new OStream.ForSizing();
    ok := EncodeBody(sizing, f, items);
    size := sizing.bytesWritten;
  }

  lemma {:induction false} FixedItems(f: Field, items: seq<Val>, width: nat)
    requires (f.ltype.Fixed32? && width == 4) || (f.ltype.Fixed64? && width == 8)
    requires forall k :: 0 <= k < |items| ==> ValFits(f, items[k], true)
    ensures EncodeItems(f, items).Some? && |EncodeItems(f, items).value| == width * |items|
    decreases |items|
  {
    if items != [] { FixedItems(f, items[1..], width); }
  }

  /** The loop over the items of a packed array, sizing or writing. */
  method EncodeBody(stream: OStream, f: Field, items: seq<Val>) returns (ok: bool)
    requires stream.Valid() && WfField(f) && f.Packable()
    requires forall k :: 0 <= k < |items| ==> ValFits(f, items[k], true)
    modifies stream, stream.dest
    ensures stream.Did(ok, EncodeItems(f, items))
    decreases f, 1
  {
    ghost var a := stream.Now();
    ghost var done: seq<Byte> := [];
    var i := 0;
    WroteNothing(a);
    ItemsFrom(f, items, 0, done);
    while i < |items|
      invariant i <= |items| && stream.Valid() && Wrote(a, stream.Now(), true, Some(done))
      invariant EncodeItems(f, items) == Joined(done, EncodeItems(f, items[i..]))
    {
      ghost var b := stream.Now();
      ghost var e := EncodeVal(f, items[i]);
      ItemsFrom(f, items, i, done);
      ok := EncodeValue(stream, f, items[i]);
      WroteStep(a, b, stream.Now(), done, ok, e, EncodeItems(f, items[i..]));
      if !ok { return; }
      done := done + e.value;
      i := i + 1;
    }
    assert done + [] == done;
    return true;
  }

  lemma ItemsFrom(f: Field, items: seq<Val>, i: nat, done: seq<Byte>)
    requires i <= |items| && forall k :: 0 <= k < |items| ==> ValFits(f, items[k], true)
    ensures i == 0 ==> EncodeItems(f, items) == Joined([], EncodeItems(f, items[i..]))
    ensures i < |items| ==>
              var e, rest := EncodeVal(f, items[i]), EncodeItems(f, items[i..]);
              && (rest.Some? ==> e.Some? && |e.value| <= |rest.value|)
              && (e.Some? ==> Joined(done, rest) == Joined(done + e.value, EncodeItems(f, items[i + 1..])))
  {
    if i == 0 {
      assert items[0..] == items;
      var r := EncodeItems(f, items);
      if r.Some? { assert [] + r.value == r.value; }
    }
    if i < |items| {
      assert items[i..][1..] == items[i + 1..];
      var e, rest := EncodeVal(f, items[i]), EncodeItems(f, items[i + 1..]);
      if e.Some? && rest.Some? { assert done + (e.value + rest.value) == done + e.value + rest.value; }
    }
  }

  /** The unpacked branch of encode_array. */
  method EncodeEach(stream: OStream, f: Field, items: seq<Val>) returns (ok: bool)
    requires stream.Valid() && WfField(f)
    requires forall k :: 0 <= k < |items| ==> ValFits(f, items[k], true)
    modifies stream, stream.dest
    ensures stream.Did(ok, EncodeRecords(f, items))
    decreases f, 2
  {
    ghost var a := stream.Now();
    ghost var done: seq<Byte> := [];
    var i := 0;
    WroteNothing(a);
    RecordsFrom(f, items, 0, done);
    while i < |items|
      invariant i <= |items| && stream.Valid() && Wrote(a, stream.Now(), true, Some(done))
      invariant EncodeRecords(f, items) == Joined(done, EncodeRecords(f, items[i..]))
    {
      ghost var b := stream.Now();
      ghost var e := EncodeRecord(f, items[i]);
      RecordsFrom(f, items, i, done);
      ok := EncodeOne(stream, f, items[i]);
      WroteStep(a, b, stream.Now(), done, ok, e, EncodeRecords(f, items[i..]));
      if !ok { return; }
      done := done + e.value;
      i := i + 1;
    }
    assert done + [] == done;
    return true;
  }

  lemma RecordsFrom(f: Field, items: seq<Val>, i: nat, done: seq<Byte>)
    requires i <= |items| && forall k :: 0 <= k < |items| ==> ValFits(f, items[k], true)
    ensures i == 0 ==> EncodeRecords(f, items) == Joined([], EncodeRecords(f, items[i..]))
    ensures i < |items| ==>
              var e, rest := EncodeRecord(f, items[i]), EncodeRecords(f, items[i..]);
              && (rest.Some? ==> e.Some? && |e.value| <= |rest.value|)
              && (e.Some? ==> Joined(done, rest) == Joined(done + e.value, EncodeRecords(f, items[i + 1..])))
  {
    if i == 0 {
      assert items[0..] == items;
      var r := EncodeRecords(f, items);
      if r.Some? { assert [] + r.value == r.value; }
    }
    if i < |items| {
      assert items[i..][1..] == items[i + 1..];
      var e, rest := EncodeRecord(f, items[i]), EncodeRecords(f, items[i + 1..]);
      if e.Some? && rest.Some? { assert done + (e.value + rest.value) == done + e.value + rest.value; }
    }
  }

  /** The packed branch of encode_array: header, size, and what follows. */
  method EncodePackedArray(stream: OStream, f: Field, items: seq<Val>) returns (ok: bool)
    requires stream.Valid() && WfField(f) && f.Packable()
    requires forall k :: 0 <= k < |items| ==> ValFits(f, items[k], true)
    modifies stream, stream.dest
    ensures stream.Did(ok, PackedBytes(f, items))
    decreases f, 3
  {
    ghost var a := stream.Now();
    ghost var header := TagBytes(f.tag, WT_STRING);
    ok := EncodeTag(stream, WT_STRING, f.tag);
    if !ok { WroteTooMuch(a, stream.Now(), Some(header), PackedBytes(f, items)); return; }
    ghost var b := stream.Now();
    WroteNothing(b);
    var size: nat;
    ok, size := PackedSize(f, items);
    if !ok { WroteBoth(a, b, b, header, false, None); return; }
    ok := EncodePackedBody(stream, f, items, size);
    WroteBoth(a, b, stream.Now(), header, ok, Some(Delimited(EncodeItems(f, items).value)));
  }

  /** The length and the items of a packed array; a sizing stream only counts. */
  method EncodePackedBody(stream: OStream, f: Field, items: seq<Val>, size: nat) returns (ok: bool)
    requires stream.Valid() && WfField(f) && f.Packable()
    requires forall k :: 0 <= k < |items| ==> ValFits(f, items[k], true)
    requires EncodeItems(f, items).Some? && size == |EncodeItems(f, items).value|
    modifies stream, stream.dest
    ensures stream.Did(ok, Some(Delimited(EncodeItems(f, items).value)))
    decreases f, 2
  {
    ghost var a := stream.Now();
    ghost var length, body := VarintBytes(size % U64), EncodeItems(f, items).value;
    ok := stream.EncodeVarint(size % U64);
    if !ok { WroteTooMuch(a, stream.Now(), Some(length), Some(length + body)); return; }
    ghost var b := stream.Now();
    if stream.dest == null {
      stream.Count(size);
      ok := true;
    } else {
      ok := EncodeBody(stream, f, items);
    }
    WroteBoth(a, b, stream.Now(), length, ok, Some(body));
  }

  ghost function PackedBytes(f: Field, items: seq<Val>): Option<seq<Byte>>
    requires forall k :: 0 <= k < |items| ==> ValFits(f, items[k], true)
  {
    if EncodeItems(f, items).None? then None
    else Some(TagBytes(f.tag, WT_STRING) + Delimited(EncodeItems(f, items).value))
  }

  /** encode_array. */
  method EncodeItemArray(stream: OStream, f: Field, items: seq<Val>) returns (ok: bool)
    requires stream.Valid() && WfField(f)
    requires forall k :: 0 <= k < |items| ==> ValFits(f, items[k], true)
    modifies stream, stream.dest
    ensures stream.Did(ok, EncodeArray(f, items))
    decreases f, 4
  {
    if |items| == 0 {
      WroteNothing(stream.Now());
      return true;
    }
    if |items| > f.arraySize { return false; }
    if f.Packable() {
      ok := EncodePackedArray(stream, f, items);
    } else {
      ok := EncodeEach(stream, f, items);
    }
  }

  /** encode_field, for static fields: encode_basic_field. */
  method EncodeField(stream: OStream, f: Field, s: Slot) returns (ok: bool)
    requires stream.Valid() && WfField(f) && SlotFits(f, s, true)
    modifies stream, stream.dest
    ensures stream.Did(ok, EncodeSlot(f, s))
    decreases f, 5
  {
    WroteNothing(stream.Now());
    match f.htype
    case Required =>
      ok := EncodeOne(stream, f, s.v);
    case Optional =>
      var present: bool;
      if f.HasSize() {
        present := s.has;
      } else {
        var isDefault := CheckDefault(f, s);
        present := !isDefault;
      }
      if !present { return true; }
      ok := EncodeOne(stream, f, s.v);
    case Repeated =>
      ok := EncodeItemArray(stream, f, s.items);
    case OneOf =>
      if s.cur.None? { return true; }
      ok := EncodeOne(stream, f, s.cur.value);
  }

  /** pb_encode. */
  method EncodeMessage(stream: OStream, fields: seq<Field>, slots: seq<Slot>) returns (ok: bool)
    requires stream.Valid() && WfFields(fields) && Fits(fields, slots, true)
    modifies stream, stream.dest
    ensures stream.Did(ok, Encode(fields, slots))
    decreases fields, 7
  {
    ghost var a := stream.Now();
    ghost var done: seq<Byte> := [];
    WroteNothing(a);
    WfIsWalkable(fields);
    EncodeStarts(fields, slots);
    var iter := new FieldIter.Begin(fields, 0);
    while true
      invariant iter.Valid() && iter.fields == fields && fresh(iter)
      invariant stream.Valid() && Wrote(a, stream.Now(), true, Some(done))
      invariant Encode(fields, slots) == Joined(done, EncodeSlots(fields, slots, iter.pos))
      decreases |fields| - iter.pos
    {
      ok, done := EncodeNext(stream, fields, slots, iter.pos, a, done);
      if !ok { return; }
      var more := iter.Next();
      if !more {
        EncodeEnds(fields, slots, done);
        return true;
      }
    }
  }

  lemma EncodeStarts(fields: seq<Field>, slots: seq<Slot>)
    requires Fits(fields, slots, true)
    ensures Encode(fields, slots) == Joined([], EncodeSlots(fields, slots, 0))
  {
    var r := Encode(fields, slots);
    if r.Some? { assert [] + r.value == r.value; }
  }

  lemma EncodeEnds(fields: seq<Field>, slots: seq<Slot>, done: seq<Byte>)
    requires Fits(fields, slots, true)
    ensures Joined(done, EncodeSlots(fields, slots, |fields|)) == Some(done)
  {
    assert done + [] == done;
  }

  /** One turn of its loop: `done` is what has been written since `a`. */
  method EncodeNext(stream: OStream, fields: seq<Field>, slots: seq<Slot>, i: nat, ghost a: Snapshot, ghost done: seq<Byte>)
    returns (ok: bool, ghost more: seq<Byte>)
    requires stream.Valid() && WfFields(fields) && Fits(fields, slots, true) && i < |fields|
    requires Wrote(a, stream.Now(), true, Some(done))
    requires Encode(fields, slots) == Joined(done, EncodeSlots(fields, slots, i))
    modifies stream, stream.dest
    ensures stream.Valid()
    ensures ok ==> Wrote(a, stream.Now(), true, Some(more))
                   && Encode(fields, slots) == Joined(more, EncodeSlots(fields, slots, i + 1))
    ensures !ok ==> Wrote(a, stream.Now(), false, Encode(fields, slots))
    decreases fields, 6
  {
    ghost var b := stream.Now();
    SlotAt(fields, slots, i, true);
    ghost var e := EncodeSlot(fields[i], slots[i]);
    SlotsFrom(fields, slots, i, done);
    ok := EncodeField(stream, fields[i], slots[i]);
    WroteStep(a, b, stream.Now(), done, ok, e, EncodeSlots(fields, slots, i));
    more := if ok then done + e.value else done;
  }

  lemma SlotsFrom(fields: seq<Field>, slots: seq<Slot>, i: nat, done: seq<Byte>)
    requires Fits(fields, slots, true) && i < |fields| && SlotFits(fields[i], slots[i], true)
    ensures var e, rest := EncodeSlot(fields[i], slots[i]), EncodeSlots(fields, slots, i);
            && (rest.Some? ==> e.Some? && |e.value| <= |rest.value|)
            && (e.Some? ==> Joined(done, rest) == Joined(done + e.value, EncodeSlots(fields, slots, i + 1)))
  {
    var e, rest := EncodeSlot(fields[i], slots[i]), EncodeSlots(fields, slots, i + 1);
    if e.Some? && rest.Some? { assert done + (e.value + rest.value) == done + e.value + rest.value; }
  }

  /** pb_encode_submessage: a sizing pass, the length, and a writing pass through a
      substream of exactly that length. */
  method EncodeSubmessage(stream: OStream, fields: seq<Field>, slots: seq<Slot>) returns (ok: bool)
    requires stream.Valid() && WfFields(fields) && Fits(fields, slots, true)
    modifies stream, stream.dest
    ensures stream.Did(ok, DelimitedMessage(fields, slots))
    decreases fields, 9
  {
    ghost var a := stream.Now();
    var sizing := new OStream.ForSizing();
    ok := EncodeMessage(sizing, fields, slots);
    if !ok { WroteNothing(a); return; }
    var size := sizing.bytesWritten;
    ghost var body := Encode(fields, slots).value;
    ghost var prefix := VarintBytes(size % U64);
    ok := stream.EncodeVarint(size % U64);
    if !ok { WroteTooMuch(a, stream.Now(), Some(prefix), Some(prefix + body)); return; }
    ghost var b := stream.Now();
    ok := EncodeSized(stream, fields, slots, size);
    WroteBoth(a, b, stream.Now(), prefix, ok, Some(body));
  }

  /** The rest of it, once the length is written. */
  method EncodeSized(stream: OStream, fields: seq<Field>, slots: seq<Slot>, size: nat) returns (ok: bool)
    requires stream.Valid() && WfFields(fields) && Fits(fields, slots, true)
    requires Encode(fields, slots).Some? && size == |Encode(fields, slots).value|
    modifies stream, stream.dest
    ensures stream.Did(ok, Encode(fields, slots))
    decreases fields, 8
  {
    if stream.dest == null {
      stream.Count(size);
      return true;
    }
    if stream.bytesWritten + size > stream.maxSize { return false; }
    var sub := new OStream.Limited(stream, size);
    ok := EncodeMessage(sub, fields, slots);
    stream.bytesWritten := stream.bytesWritten + sub.bytesWritten;
    stream.state := sub.state;
    if sub.bytesWritten != size { assert false; }    // "submsg size changed"
  }

  ghost function DelimitedMessage(fields: seq<Field>, slots: seq<Slot>): Option<seq<Byte>>
    requires Fits(fields, slots, true)
  {
    if Encode(fields, slots).None? then None else Some(Delimited(Encode(fields, slots).value))
  }

  /** pb_encode_nullterminated. */
  method EncodeNullTerminated(stream: OStream, fields: seq<Field>, slots: seq<Slot>) returns (ok: bool)
    requires stream.Valid() && WfFields(fields) && Fits(fields, slots, true)
    modifies stream, stream.dest
    ensures stream.Did(ok, if Encode(fields, slots).None? then None else Some(Encode(fields, slots).value + [0]))
  {
    ghost var a := stream.Now();
    ok := EncodeMessage(stream, fields, slots);
    if !ok {
      WroteTooMuch(a, stream.Now(), Encode(fields, slots),
                   if Encode(fields, slots).None? then None else Some(Encode(fields, slots).value + [0]));
      return;
    }
    ghost var b := stream.Now();
    ok := stream.Write([0]);
    WroteBoth(a, b, stream.Now(), Encode(fields, slots).value, ok, Some([0]));
  }

  /** pb_get_encoded_size is exact. */
  method GetEncodedSize(fields: seq<Field>, slots: seq<Slot>) returns (ok: bool, size: nat)
    requires WfFields(fields) && Fits(fields, slots, true)
    ensures ok == Encode(fields, slots).Some?
    ensures ok ==> size == |Encode(fields, slots).value|
  {
    var stream := new OStream.ForSizing();
    ok := EncodeMessage(stream, fields, slots);
    size := stream.bytesWritten;
  }

  /** pb_encode into a buffer of `bufsize` bytes: it succeeds exactly when the message
      has an encoding of at most that length; then the encoding is at the front of the
      buffer and the rest of it is as it was. No byte past `bufsize` changes. */
  method EncodeToBuffer(buf: array<Byte>, bufsize: nat, fields: seq<Field>, slots: seq<Slot>)
    returns (ok: bool, bytesWritten: nat)
    requires bufsize <= buf.Length && WfFields(fields) && Fits(fields, slots, true)
    modifies buf
    ensures ok <==> Encode(fields, slots).Some? && |Encode(fields, slots).value| <= bufsize
    ensures ok ==> bytesWritten == |Encode(fields, slots).value| && buf[..bytesWritten] == Encode(fields, slots).value
    ensures ok ==> buf[bytesWritten..] == old(buf[bytesWritten..])
    ensures buf[bufsize..] == old(buf[bufsize..])
  {
    var stream := new OStream.FromBuffer(buf, bufsize);
    ok := EncodeMessage(stream, fields, slots);
    bytesWritten := stream.bytesWritten;
  }
}
