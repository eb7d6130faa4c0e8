/** pb_decode.c: reading a message structure from an input stream. Every method is
    proved to read exactly what its function in DecodeSpec reads, to fail exactly when
    that does, and never to read past the end of its stream. */
module Decoder {
  import opened Bits
  import opened Wire
  import opened Wrappers
  import opened Message
  import opened DecodeSpec
  import opened FieldIteration
  import opened InputStream
  import opened RequiredFields

  // ---------------------------------------------------------------- scalars

  /** pb_decode_fixed32 and pb_decode_fixed64, `n` being 4 or 8. */
  method DecodeFixed(stream: IStream, n: nat) returns (ok: bool, v: Val)
    requires stream.Valid() && (n == 4 || n == 8)
    modifies stream
    ensures stream.Did(ok, FixedValue(old(stream.Left()), n))
    ensures ok ==> v == FixedValue(old(stream.Left()), n).value
  {
    var bytes := new Byte[n](_ => 0);
    ok := stream.Read(bytes, n);
    v := Num(0);
    if !ok { return; }
    var x: nat := 0;
    var i := n;
    while i > 0
      invariant i <= n && x == FromLittleEndian(bytes[i..])
    {
      i := i - 1;
      assert bytes[i..][1..] == bytes[i + 1..];
      x := 256 * x + bytes[i];
    }
    assert bytes[..] == bytes[..n];
    v := Num(x);
  }

  /** The common part of pb_dec_bytes, pb_dec_string and pb_dec_fixed_length_bytes. */
  method ReadBytes(stream: IStream, size: nat) returns (ok: bool, v: Val)
    requires stream.Valid()
    modifies stream
    ensures stream.Did(ok, AsBytes(ParseRaw(old(stream.Left()), size)))
    ensures ok ==> v == Bytes(old(stream.Left())[..size])
  {
    var dest := new Byte[size](_ => 0);
    ok := stream.Read(dest, size);
    assert dest[..] == dest[..size];
    v := Bytes(dest[..]);
  }

  /** The pb_dec_ functions that start with pb_decode_varint. */
  method DecodeInteger(stream: IStream, f: Field) returns (ok: bool, v: Val)
    requires stream.Valid() && (f.ltype.Varint? || f.ltype.UVarint? || f.ltype.SVarint?)
    modifies stream
    ensures stream.Did(ok, DecodePlain(f, old(stream.Left())))
    ensures ok ==> v == DecodePlain(f, old(stream.Left())).value
  {
    var value: nat;
    v := Num(0);
    ok, value := stream.DecodeVarint();
    if !ok { return; }
    if Values(f.dataSize) == 0 { return false, v; }
    var read: int, stored: int;
    if f.ltype.Varint? {
      read := if f.dataSize == 8 then ToSigned(U64, value) else ToSigned(U32, value % U32);
      stored := CastSigned(f.dataSize, read);
    } else if f.ltype.UVarint? {
      read := value;
      stored := value % Values(f.dataSize);
    } else {
      read := UnZigZag(value);
      stored := CastSigned(f.dataSize, read);
    }
    if stored != read { return false, v; }
    v := Num(read);
  }

  /** The pb_dec_ functions that start with a length. */
  method DecodeString(stream: IStream, f: Field) returns (ok: bool, v: Val)
    requires stream.Valid() && (f.ltype.BytesArray? || f.ltype.CString? || f.ltype.FixedLengthBytes?)
    modifies stream
    ensures stream.Did(ok, DecodePlain(f, old(stream.Left())))
    ensures ok ==> v == DecodePlain(f, old(stream.Left())).value
  {
    var size: nat, eof: bool;
    v := Num(0);
    ok, size, eof := stream.DecodeVarint32Eof();
    if !ok { return; }
    if f.ltype.BytesArray? {
      var allocSize := size + 4;
      if allocSize > f.dataSize { return false, v; }
    } else if f.ltype.CString? {
      var allocSize := (size + 1) % U32;
      if allocSize < size || allocSize > f.dataSize { return false, v; }
    } else {
      if size == 0 { return true, ZeroScalar(f); }
      if size != f.dataSize { return false, v; }
    }
    ok, v := ReadBytes(stream, size);
  }

  /** PB_DECODERS, for fields other than submessages. */
  method DecodeScalar(stream: IStream, f: Field) returns (ok: bool, v: Val)
    requires stream.Valid() && !f.ltype.Submessage? && !f.ltype.Extension?
    modifies stream
    ensures stream.Did(ok, DecodePlain(f, old(stream.Left())))
    ensures ok ==> v == DecodePlain(f, old(stream.Left())).value
  {
    if f.ltype.Bool? {
      var value: nat, eof: bool;
      ok, value, eof := stream.DecodeVarint32Eof();
      v := Num(if value != 0 then 1 else 0);
    } else if f.ltype.Fixed32? {
      ok, v := DecodeFixed(stream, 4);
    } else if f.ltype.Fixed64? {
      ok, v := DecodeFixed(stream, 8);
    } else if f.ltype.BytesArray? || f.ltype.CString? || f.ltype.FixedLengthBytes? {
      ok, v := DecodeString(stream, f);
    } else {
      ok, v := DecodeInteger(stream, f);
    }
  }

  // ----------------------------------------------------------------- fields

  /** A field's decoder on storage that holds `cur`; pb_dec_submessage for a
      submessage. */
  method DecodeValue(stream: IStream, f: Field, cur: Val) returns (ok: bool, v: Val)
    requires stream.Valid() && WfField(f) && ValFits(f, cur, false)
    modifies stream
    ensures stream.Did(ok, DecodeVal(f, cur, old(stream.Left())))
    ensures ok ==> v == DecodeVal(f, cur, old(stream.Left())).value
    decreases stream.bytesLeft, 1
  {
    if f.ltype.Submessage? {
      ok, v := DecodeSubmessage(stream, f, cur);
    } else {
      ok, v := DecodeScalar(stream, f);
    }
  }

  /** pb_dec_submessage. */
  method DecodeSubmessage(stream: IStream, f: Field, cur: Val) returns (ok: bool, v: Val)
    requires stream.Valid() && WfField(f) && ValFits(f, cur, false) && f.ltype.Submessage?
    modifies stream
    ensures stream.Did(ok, DecodeVal(f, cur, old(stream.Left())))
    ensures ok ==> v == DecodeVal(f, cur, old(stream.Left())).value
    decreases stream.bytesLeft, 0
  {
    v := cur;
    ghost var p := ParseDelimited(stream.Left());
    var sub: IStream;
    ok, sub := stream.MakeSubstream();
    if !ok { return; }
    assert sub.Left() == p.value;
    ok, v := DecodeDelimitedBody(stream, sub, f, cur);
    assert ok ==> stream.Left() == p.rest;
  }

  /** Its part after the length, up to the end of the substream. */
  method DecodeDelimitedBody(stream: IStream, sub: IStream, f: Field, cur: Val) returns (ok: bool, v: Val)
    requires stream.Valid() && sub.Valid() && WfField(f) && ValFits(f, cur, false) && f.ltype.Submessage?
    requires sub != stream && sub.source == stream.source && stream.state <= sub.state
    requires sub.state + sub.bytesLeft + stream.bytesLeft <= stream.source.Length
    modifies stream, sub
    ensures stream.Valid() && stream.bytesLeft == old(stream.bytesLeft)
    ensures old(stream.state) <= stream.state <= old(sub.state + sub.bytesLeft)
    ensures var p := DecodeNoinit(f.ltype.fields, SubmessageStart(f, cur), old(sub.Left()));
            ok == p.Got? && (ok ==> v == Msg(p.value) && stream.state == old(sub.state + sub.bytesLeft))
    decreases sub.bytesLeft, 12
  {
    var status: bool;
    status, v := DecodeSubstream(sub, f, cur);
    ok := stream.CloseSubstream(sub);
    if !ok { return; }
    ok := status;
  }

  method DecodeSubstream(sub: IStream, f: Field, cur: Val) returns (status: bool, v: Val)
    requires sub.Valid() && WfField(f) && ValFits(f, cur, false) && f.ltype.Submessage?
    modifies sub
    ensures sub.Did(status, DecodeNoinit(f.ltype.fields, SubmessageStart(f, cur), old(sub.Left())))
    ensures status ==> v == Msg(DecodeNoinit(f.ltype.fields, SubmessageStart(f, cur), old(sub.Left())).value)
    decreases sub.bytesLeft, 11
  {
    DefaultsFit(f.ltype.fields);
    var start := if f.htype.Repeated? then DefaultSlots(f.ltype.fields) else cur.slots;
    var slots: seq<Slot>;
    status, slots := DecodeMessageNoinit(sub, f.ltype.fields, start);
    v := Msg(slots);
  }

  /** The loop over a packed array. It stops at the end of the substream, at the end of
      the array, or at a bad item; all is well if it stopped only for the first reason. */
  method DecodePackedBody(sub: IStream, f: Field, items: seq<Val>) returns (status: bool, received: seq<Val>)
    requires sub.Valid() && WfField(f)
    requires forall k :: 0 <= k < |items| ==> ValFits(f, items[k], false)
    modifies sub
    ensures sub.Valid() && old(sub.state) <= sub.state
    ensures sub.state + sub.bytesLeft <= old(sub.state + sub.bytesLeft)
    ensures status && sub.bytesLeft == 0 <==> DecodePacked(f, items, old(sub.Left())).Some?
    ensures status && sub.bytesLeft == 0 ==>
              && received == DecodePacked(f, items, old(sub.Left())).value
              && sub.state == old(sub.state + sub.bytesLeft)
    decreases sub.bytesLeft, 2
  {
    ghost var r := DecodePacked(f, items, sub.Left());
    status, received := true, items;
    DefaultFits(f);
    while sub.bytesLeft > 0 && |received| < f.arraySize
      invariant sub.Valid() && old(sub.state) <= sub.state
      invariant sub.state + sub.bytesLeft == old(sub.state + sub.bytesLeft)
      invariant forall k :: 0 <= k < |received| ==> ValFits(f, received[k], false)
      invariant DecodePacked(f, received, sub.Left()) == r
      decreases sub.bytesLeft
    {
      var v: Val;
      status, v := DecodeValue(sub, f, DefaultVal(f));
      if !status { break; }
      received := received + [v];
    }
  }

  lemma PackedRecordDecodes(f: Field, items: seq<Val>, bs: seq<Byte>)
    requires WfField(f) && f.Packable() && forall k :: 0 <= k < |items| ==> ValFits(f, items[k], false)
    ensures var p, r := ParseDelimited(bs), DecodeRepeated(f, items, WT_STRING, bs);
            if p.Got? && DecodePacked(f, items, p.value).Some? then
              r == Got(DecodePacked(f, items, p.value).value, p.rest)
            else r.Fail?
  {
  }

  /** decode_static_field for a packed record of a repeated field. */
  method DecodePackedArray(stream: IStream, f: Field, items: seq<Val>) returns (ok: bool, received: seq<Val>)
    requires stream.Valid() && WfField(f) && f.Packable()
    requires forall k :: 0 <= k < |items| ==> ValFits(f, items[k], false)
    modifies stream
    ensures stream.Did(ok, DecodeRepeated(f, items, WT_STRING, old(stream.Left())))
    ensures ok ==> received == DecodeRepeated(f, items, WT_STRING, old(stream.Left())).value
    decreases stream.bytesLeft, 3
  {
    received := items;
    ghost var p := ParseDelimited(stream.Left());
    var sub: IStream;
    ok, sub := stream.MakeSubstream();
    if !ok { return; }
    assert sub.Left() == p.value;
    ok, received := DecodePackedSubstream(stream, sub, f, items);
    assert ok ==> stream.Left() == p.rest;
    PackedRecordDecodes(f, items, old(stream.Left()));
  }

  /** Its part after the length, up to the end of the substream. */
  method DecodePackedSubstream(stream: IStream, sub: IStream, f: Field, items: seq<Val>)
    returns (ok: bool, received: seq<Val>)
    requires stream.Valid() && sub.Valid() && WfField(f)
    requires forall k :: 0 <= k < |items| ==> ValFits(f, items[k], false)
    requires sub != stream && sub.source == stream.source && stream.state <= sub.state
    requires sub.state + sub.bytesLeft + stream.bytesLeft <= stream.source.Length
    modifies stream, sub
    ensures stream.Valid() && stream.bytesLeft == old(stream.bytesLeft)
    ensures old(stream.state) <= stream.state <= old(sub.state + sub.bytesLeft)
    ensures ok == DecodePacked(f, items, old(sub.Left())).Some?
    ensures ok ==> received == DecodePacked(f, items, old(sub.Left())).value
                   && stream.state == old(sub.state + sub.bytesLeft)
    decreases sub.bytesLeft, 3
  {
    var status: bool;
    status, received := DecodePackedBody(sub, f, items);
    if sub.bytesLeft != 0 { return false, received; }
    ok := stream.CloseSubstream(sub);
    if !ok { return; }
    ok := status;
  }

  /** decode_static_field for a repeated field that has received `items`. */
  method DecodeArray(stream: IStream, f: Field, items: seq<Val>, wireType: nat) returns (ok: bool, received: seq<Val>)
    requires stream.Valid() && WfField(f)
    requires forall k :: 0 <= k < |items| ==> ValFits(f, items[k], false)
    modifies stream
    ensures stream.Did(ok, DecodeRepeated(f, items, wireType, old(stream.Left())))
    ensures ok ==> received == DecodeRepeated(f, items, wireType, old(stream.Left())).value
    decreases stream.bytesLeft, 4
  {
    received := items;
    if wireType == WT_STRING && f.Packable() {
      ok, received := DecodePackedArray(stream, f, items);
      return;
    }
    if |items| >= f.arraySize { return false, received; }
    DefaultFits(f);
    var v: Val;
    ok, v := DecodeValue(stream, f, DefaultVal(f));
    if ok { received := items + [v]; }
  }

  // --------------------------------------------------------------- messages

  /** The entries of array `i` that the current run has received. */
  function Received(fields: seq<Field>, st: State, i: nat): seq<Val>
    requires i < |fields| == |st.slots| && st.slots[i].Many?
  {
    if fields[i].FixedCount() && st.fixed != Some(i) then [] else st.slots[i].items
  }

  lemma ArrayFieldDecodes(fields: seq<Field>, st: State, i: nat, wireType: nat, bs: seq<Byte>)
    requires StateFits(fields, st) && i < |fields| && fields[i].htype.Repeated?
    ensures RightKind(fields[i], st.slots[i])
    ensures forall k :: 0 <= k < |Received(fields, st, i)| ==> ValFits(fields[i], Received(fields, st, i)[k], false)
    ensures var blocked := fields[i].FixedCount() && st.fixed != Some(i) && !FixedDone(fields, st);
            var p := DecodeRepeated(fields[i], Received(fields, st, i), wireType, bs);
            DecodeField(fields, st, i, wireType, bs)
            == if blocked || p.Fail? then Fail
               else Got(State(st.slots[i := Many(p.value)], if fields[i].FixedCount() then Some(i) else st.fixed, st.seen), p.rest)
  {
    SlotAt(fields, st.slots, i, false);
  }

  lemma SingleFieldDecodes(fields: seq<Field>, st: State, i: nat, wireType: nat, bs: seq<Byte>)
    requires StateFits(fields, st) && i < |fields| && !fields[i].htype.Repeated?
    ensures RightKind(fields[i], st.slots[i]) && ValFits(fields[i], Target(fields[i], st.slots[i]), false)
    ensures var p := DecodeVal(fields[i], Target(fields[i], st.slots[i]), bs);
            DecodeField(fields, st, i, wireType, bs)
            == if p.Fail? then Fail
               else Got(State(Store(fields, st.slots, i, p.value), st.fixed, Seen(fields, st.seen, i)), p.rest)
  {
    SlotAt(fields, st.slots, i, false);
    DefaultFits(fields[i]);
  }

  /** Storing into field `i` keeps the array being received. */
  lemma StoreKeepsArray(fields: seq<Field>, st: State, i: nat, v: Val)
    requires StateFits(fields, st) && i < |fields| && !fields[i].htype.Repeated?
    ensures st.fixed.Some? ==> Store(fields, st.slots, i, v)[st.fixed.value] == st.slots[st.fixed.value]
  {
    SlotAt(fields, st.slots, i, false);
  }

  /** The address of pb_decode_noinit's local count, for arrays without one. */
  const FIXED_COUNT_SIZE: int := -1

  /** The local variables of pb_decode_noinit, and the structure it fills. */
  class MessageDecoder {
    const fields: seq<Field>
    const iter: FieldIter
    const fieldsSeen: array<nat>
    var slots: seq<Slot>
    var fixedCountField: Option<nat>
    var fixedCountSize: nat
    var extensionRangeStart: nat
    ghost var seen: set<nat>

    ghost predicate Valid()
      reads this, iter, fieldsSeen
    {
      && iter.Valid() && iter.fields == fields
      && fieldsSeen.Length == 2 && Holds(fieldsSeen[..], seen)
      && StateFits(fields, Now())
      && (forall k :: k in seen ==> k < RequiredBefore(fields, |fields|))
      && (fixedCountField.Some? ==> fixedCountSize == |slots[fixedCountField.value].items|)
      && (fields[iter.pos].FixedCount() ==> SizePlaced())
      && (extensionRangeStart == 0 || extensionRangeStart == 0xFFFF_FFFF)
    }

    /** At a fixed-count array, pSize is its place in the structure or the local count. */
    ghost predicate SizePlaced()
      requires iter.pos < |fields| && iter.fields == fields
      reads this, iter
    {
      iter.SizeInPlace() || (iter.pSize == FIXED_COUNT_SIZE && fixedCountField == Some(iter.pos))
    }

    ghost function Now(): State
      reads this
    {
      State(slots, fixedCountField, seen)
    }

    constructor (fields: seq<Field>, slots: seq<Slot>)
      requires WfFields(fields) && Fits(fields, slots, false)
      ensures Valid() && this.fields == fields && Now() == State(slots, None, {})
      ensures fresh(iter) && fresh(fieldsSeen)
    {
      WfIsWalkable(fields);
      NoneHeld();
      this.fields, this.slots := fields, slots;
      iter := new FieldIter.Begin(fields, 0);
      fieldsSeen := new nat[2](_ => 0);
      fixedCountField, fixedCountSize, extensionRangeStart := None, 0, 0;
      seen := {};
      new;
      assert fieldsSeen[..] == [0, 0];
    }

    /** decode_static_field on field `i`, which is not repeated. */
    method DecodeSingle(stream: IStream, i: nat) returns (ok: bool)
      requires stream.Valid() && WfFields(fields) && Fits(fields, slots, false)
      requires i < |fields| && !fields[i].htype.Repeated?
      modifies stream, this`slots
      ensures RightKind(fields[i], old(slots[i])) && ValFits(fields[i], Target(fields[i], old(slots[i])), false)
      ensures stream.Did(ok, DecodeVal(fields[i], Target(fields[i], old(slots[i])), old(stream.Left())))
      ensures ok ==> slots == Store(fields, old(slots), i,
                                    DecodeVal(fields[i], Target(fields[i], old(slots[i])), old(stream.Left())).value)
      decreases stream.bytesLeft, 5
    {
      var f := fields[i];
      SlotAt(fields, slots, i, false);
      DefaultFits(f);
      var v: Val;
      ok, v := DecodeValue(stream, f, Target(f, slots[i]));
      if ok { slots := Store(fields, slots, i, v); }
    }

    /** decode_static_field on the array `i`, of which `*size` entries are received. */
    method DecodeRepeatedField(stream: IStream, i: nat, size: nat, wireType: nat) returns (ok: bool)
      requires stream.Valid() && WfFields(fields) && Fits(fields, slots, false)
      requires i < |fields| && fields[i].htype.Repeated?
      requires slots[i].Many? && size <= |slots[i].items|
      requires forall k :: 0 <= k < size ==> ValFits(fields[i], slots[i].items[k], false)
      modifies stream, this`slots
      ensures stream.Did(ok, DecodeRepeated(fields[i], old(slots[i].items[..size]), wireType, old(stream.Left())))
      ensures ok ==> slots == old(slots)[i := Many(DecodeRepeated(fields[i], old(slots[i].items[..size]), wireType, old(stream.Left())).value)]
      decreases stream.bytesLeft, 5
    {
      var received: seq<Val>;
      ok, received := DecodeArray(stream, fields[i], slots[i].items[..size], wireType);
      if ok { slots := slots[i := Many(received)]; }
    }

    /** The preparation for a fixed-count array: the one before must be complete. */
    method EnterFixedCount() returns (ok: bool)
      requires Valid() && fields[iter.pos].FixedCount()
      modifies this`fixedCountField, this`fixedCountSize, iter`pSize
      ensures ok <==> old(fixedCountField) == Some(iter.pos) || FixedDone(fields, old(Now()))
      ensures ok ==> fixedCountField == Some(iter.pos)
                     && fixedCountSize == if old(fixedCountField) == Some(iter.pos) then old(fixedCountSize) else 0
      ensures ok ==> iter.Valid() && iter.pSize == FIXED_COUNT_SIZE
    {
      if iter.pSize == iter.pData {
        if fixedCountField != Some(iter.pos) {
          if fixedCountField.Some? && fixedCountSize != fields[fixedCountField.value].arraySize {
            return false;
          }
          fixedCountField := Some(iter.pos);
          fixedCountSize := 0;
        }
        iter.pSize := FIXED_COUNT_SIZE;
      }
      return true;
    }

    /** fields_seen is updated for a required field. */
    method Mark()
      requires Valid()
      modifies this`seen, fieldsSeen
      ensures Valid() && Now() == old(Now()).(seen := Seen(fields, old(seen), iter.pos))
    {
      if fields[iter.pos].htype.Required? && iter.requiredFieldIndex < MAX_REQUIRED_FIELDS {
        NumbersIncrease(fields, iter.pos, |fields|);
        MarkSeen(fieldsSeen, iter.requiredFieldIndex, seen);
        seen := seen + {iter.requiredFieldIndex};
      }
    }

    /** The part of the loop body that handles a field that was found. */
    method HandleField(stream: IStream, wireType: nat) returns (ok: bool)
      requires Valid() && stream.Valid()
      modifies stream, this, iter, fieldsSeen
      ensures stream.Did(ok, DecodeField(fields, old(Now()), old(iter.pos), wireType, old(stream.Left())))
      ensures ok ==> Valid() && Now() == DecodeField(fields, old(Now()), old(iter.pos), wireType, old(stream.Left())).value
      ensures ok ==> iter.pos == old(iter.pos)
      decreases stream.bytesLeft, 7
    {
      var i := iter.pos;
      if fields[i].htype.Repeated? {
        ok := HandleArray(stream, wireType);
      } else {
        SingleFieldDecodes(fields, Now(), i, wireType, stream.Left());
        ghost var v := DecodeVal(fields[i], Target(fields[i], slots[i]), stream.Left());
        if v.Got? { StoreKeepsArray(fields, Now(), i, v.value); }
        Mark();
        ok := DecodeSingle(stream, i);
      }
    }

    method HandleArray(stream: IStream, wireType: nat) returns (ok: bool)
      requires Valid() && stream.Valid() && fields[iter.pos].htype.Repeated?
      modifies stream, this, iter
      ensures stream.Did(ok, DecodeField(fields, old(Now()), old(iter.pos), wireType, old(stream.Left())))
      ensures ok ==> Valid() && Now() == DecodeField(fields, old(Now()), old(iter.pos), wireType, old(stream.Left())).value
      ensures ok ==> iter.pos == old(iter.pos)
      decreases stream.bytesLeft, 6
    {
      var i := iter.pos;
      ghost var st, bs := Now(), stream.Left();
      SlotAt(fields, slots, i, false);
      ArrayFieldDecodes(fields, st, i, wireType, bs);
      var size := |slots[i].items|;
      if fields[i].FixedCount() {
        ok := EnterFixedCount();
        if !ok { return; }
        size := fixedCountSize;
      }
      assert slots[i].items[..size] == Received(fields, st, i);
      ok := DecodeRepeatedField(stream, i, size, wireType);
      if ok && fields[i].FixedCount() { fixedCountSize := |slots[i].items|; }
    }

    /** The part of the loop body for a tag that no field has: an extension placeholder
        is looked for, once, and then the field is skipped. */
    method SkipUnknown(stream: IStream, tag: nat, wireType: nat) returns (ok: bool)
      requires Valid() && stream.Valid() && tag < 0x2000_0000
      modifies stream, this`extensionRangeStart, iter
      ensures Valid() && Now() == old(Now()) && iter.pos == old(iter.pos)
      ensures stream.Did(ok, SkipField(wireType, old(stream.Left())))
    {
      if tag >= extensionRangeStart {
        NoExtension(fields);
        var found := iter.FindExtension();
        if !found { extensionRangeStart := 0xFFFF_FFFF; }
        if tag >= extensionRangeStart { assert false; }    // decode_extension
      }
      ok := stream.Skip(wireType);
    }

    /** The loop body after the tag. */
    method HandleRecord(stream: IStream, tag: nat, wireType: nat) returns (ok: bool)
      requires Valid() && stream.Valid() && tag < 0x2000_0000
      modifies stream, this, iter, fieldsSeen
      ensures stream.Did(ok, DecodeRecord(fields, old(Now()), tag, wireType, old(stream.Left())))
      ensures ok ==> Valid() && Now() == DecodeRecord(fields, old(Now()), tag, wireType, old(stream.Left())).value
      decreases stream.bytesLeft, 8
    {
      ghost var i := FindField(fields, tag);
      var found := Find(tag);
      if found {
        ok := HandleField(stream, wireType);
      } else {
        ok := SkipUnknown(stream, tag, wireType);
      }
    }

    /** pb_field_iter_find from wherever the last field left the iterator. */
    method Find(tag: nat) returns (found: bool)
      requires Valid()
      modifies iter
      ensures Valid() && Now() == old(Now())
      ensures found == FindField(fields, tag).Some?
      ensures found ==> iter.pos == FindField(fields, tag).value
      ensures !found ==> iter.pos == old(iter.pos)
    {
      found := iter.Find(tag);
    }

    /** The loop of pb_decode_noinit: to the end of the stream, or to a zero tag. */
    method HandleAll(stream: IStream) returns (ok: bool, zero: bool)
      requires Valid() && stream.Valid()
      modifies stream, this, iter, fieldsSeen
      ensures stream.Valid() && old(stream.state) <= stream.state
      ensures stream.state + stream.bytesLeft <= old(stream.state + stream.bytesLeft)
      ensures ok <==> !DecodeLoop(fields, old(Now()), old(stream.Left())).Failed?
      ensures ok ==> Valid() && stream.state + stream.bytesLeft == old(stream.state + stream.bytesLeft)
      ensures ok ==> DecodeLoop(fields, old(Now()), old(stream.Left()))
                     == if zero then AtZero(Now(), stream.Left()) else AtEnd(Now())
      ensures ok && !zero ==> stream.Left() == []
      decreases stream.bytesLeft, 9
    {
      ghost var l := DecodeLoop(fields, Now(), stream.Left());
      zero := false;
      while stream.bytesLeft > 0
        invariant Valid() && stream.Valid() && old(stream.state) <= stream.state
        invariant stream.state + stream.bytesLeft == old(stream.state + stream.bytesLeft)
        invariant l == DecodeLoop(fields, Now(), stream.Left())
        decreases stream.bytesLeft
      {
        var wireType: nat, tag: nat, eof: bool;
        ok, wireType, tag, eof := stream.DecodeTag();
        if !ok { return eof, true; }
        ok := HandleRecord(stream, tag, wireType);
        if !ok { return; }
      }
      ok := true;
    }

    /** The number of required fields, found by walking to the end of the list. */
    method CountRequired() returns (count: nat)
      requires Valid()
      modifies iter
      ensures count == RequiredBefore(fields, |fields|)
    {
      var last := fields[iter.pos];
      while true
        invariant iter.Valid() && iter.fields == fields
        decreases |fields| - iter.pos
      {
        count := iter.requiredFieldIndex;
        last := fields[iter.pos];
        var more := iter.Next();
        if !more { break; }
      }
      if last.htype.Required? && fields[iter.pos].tag != 0 { count := count + 1; }
    }

    /** The checks after the loop. */
    method Finished() returns (ok: bool)
      requires Valid()
      modifies iter
      ensures ok <==> FixedDone(fields, Now()) && AllRequiredSeen(fields, seen)
    {
      if fixedCountField.Some? && fixedCountSize != fields[fixedCountField.value].arraySize {
        return false;
      }
      var count := CountRequired();
      if count > MAX_REQUIRED_FIELDS { count := MAX_REQUIRED_FIELDS; }
      if count > 0 {
        ok := CheckSeen(fieldsSeen, count, seen);
      } else {
        ok := true;
      }
    }
  }

  lemma NoExtension(fields: seq<Field>)
    requires WfFields(fields)
    ensures forall i :: 0 <= i < |fields| ==> !fields[i].ltype.Extension?
  {
    assert forall i :: 0 <= i < |fields| ==> WfField(fields[i]);
  }

  /** pb_decode_noinit. */
  method DecodeMessageNoinit(stream: IStream, fields: seq<Field>, start: seq<Slot>) returns (ok: bool, slots: seq<Slot>)
    requires stream.Valid() && WfFields(fields) && Fits(fields, start, false)
    modifies stream
    ensures stream.Did(ok, DecodeNoinit(fields, start, old(stream.Left())))
    ensures ok ==> slots == DecodeNoinit(fields, start, old(stream.Left())).value
    decreases stream.bytesLeft, 10
  {
    ghost var l := DecodeLoop(fields, State(start, None, {}), stream.Left());
    var d := new MessageDecoder(fields, start);
    slots := start;
    var zero: bool;
    ok, zero := d.HandleAll(stream);
    if !ok { return; }
    ok := d.Finished();
    slots := d.slots;
  }

  /** pb_decode: the structure is set to its defaults first. */
  method DecodeMessage(stream: IStream, fields: seq<Field>) returns (ok: bool, slots: seq<Slot>)
    requires stream.Valid() && WfFields(fields)
    modifies stream
    ensures stream.Did(ok, Decode(fields, old(stream.Left())))
    ensures ok ==> slots == Decode(fields, old(stream.Left())).value
  {
    DefaultsFit(fields);
    ok, slots := DecodeMessageNoinit(stream, fields, DefaultSlots(fields));
  }

  /** pb_decode_delimited. */
  method DecodeDelimited(stream: IStream, fields: seq<Field>) returns (ok: bool, slots: seq<Slot>)
    requires stream.Valid() && WfFields(fields)
    modifies stream
    ensures ok <==> ParseDelimited(old(stream.Left())).Got? && Decode(fields, ParseDelimited(old(stream.Left())).value).Got?
    ensures ok ==> slots == Decode(fields, ParseDelimited(old(stream.Left())).value).value
    ensures ok ==> stream.Valid() && stream.Left() == ParseDelimited(old(stream.Left())).rest
  {
    slots := [];
    var sub: IStream;
    ok, sub := stream.MakeSubstream();
    if !ok { return; }
    var status: bool;
    status, slots := DecodeMessage(sub, fields);
    ok := stream.CloseSubstream(sub);
    if !ok { return; }
    ok := status;
  }
}
