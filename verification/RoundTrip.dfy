/** Exactly which messages survive the trip through pb_encode and pb_decode. */
module RoundTrip {
  import opened Bits
  import opened Wire
  import opened WireProofs
  import opened Wrappers
  import opened Message
  import opened EncodeSpec
  import opened DecodeSpec
  import opened Inverse

  /** More bytes than any buffer holds; a length this large would be cut by the cast to
      uint64_t or read back as a sign-extended 32-bit value. */
  const TOO_MANY: nat := 0x8000_0000_0000_0000

  lemma LongDelimitedFails(body: seq<Byte>, tail: seq<Byte>)
    requires U32 <= |body| < TOO_MANY
    ensures ParseDelimited(Delimited(body) + tail) == Fail
  {
    assert Delimited(body) + tail == VarintBytes(|body|) + (body + tail);
    TooLargeFor32(|body|);
    Varint32OfEncoding(|body|, body + tail);
  }

  /** A string that fills its storage is sent whole and then refused. */
  lemma FullStringFails(f: Field, v: Val, tail: seq<Byte>)
    requires WfField(f) && f.ltype.CString? && Plain(f, v) && |UpToNul(v.bytes)| == f.dataSize
    ensures DecodePlain(f, EncodePlain(f, v).value + tail) == Fail
  {
    StringInverts(UpToNul(v.bytes), tail);
  }

  lemma {:induction false} ValFails(f: Field, v: Val, cur: Val, tail: seq<Byte>)
    requires WfField(f) && ValFits(f, v, true) && !ValSendable(f, v)
    requires EncodeVal(f, v).Some? && |EncodeVal(f, v).value| < TOO_MANY
    requires ValFits(f, cur, false) && (f.ltype.Submessage? ==> cur == DefaultVal(f))
    ensures DecodeVal(f, cur, EncodeVal(f, v).value + tail) == Fail
    decreases f, 0
  {
    if f.ltype.Submessage? {
      var sub := f.ltype.fields;
      var body := Encode(sub, v.slots).value;
      if |body| >= U32 {
        LongDelimitedFails(body, tail);
      } else {
        DelimitedInverts(body, tail);
        MessageFails(sub, v.slots);
      }
    } else {
      FullStringFails(f, v, tail);
    }
  }

  lemma {:induction false} SingleFails(fields: seq<Field>, st: State, i: nat, s: Slot, v: Val, tail: seq<Byte>)
    requires Ready(fields, st, i, s) && SlotFits(fields[i], s, true)
    requires (s == Single(v) || s == Opt(true, v) || s == Member(Some(v))) && !fields[i].htype.Repeated?
    requires !ValSendable(fields[i], v)
    requires EncodeRecord(fields[i], v).Some? && |EncodeRecord(fields[i], v).value| < TOO_MANY
    ensures DecodeLoop(fields, st, EncodeRecord(fields[i], v).value + tail) == Failed
    decreases fields[i], 1
  {
    var f := fields[i];
    assert WfField(f);
    DefaultFits(f);
    var body := EncodeVal(f, v).value;
    assert EncodeRecord(f, v).value + tail == TagBytes(f.tag, WireType(f.ltype)) + (body + tail);
    LoopDecodes(fields, st, i, WireType(f.ltype), body + tail);
    ValFails(f, v, DefaultVal(f), tail);
  }

  lemma {:induction false} RecordsFail(fields: seq<Field>, st: State, i: nat, prev: seq<Val>, items: seq<Val>,
      k: nat, tail: seq<Byte>)
    requires Receiving(fields, st, i, prev) && !fields[i].Packable()
    requires |prev| + |items| <= fields[i].arraySize
    requires forall j :: 0 <= j < |items| ==> ValFits(fields[i], items[j], true)
    requires k < |items| && !ValSendable(fields[i], items[k])
    requires EncodeRecords(fields[i], items).Some? && |EncodeRecords(fields[i], items).value| < TOO_MANY
    ensures DecodeLoop(fields, st, EncodeRecords(fields[i], items).value + tail) == Failed
    decreases fields[i], 2, |items|
  {
    var f := fields[i];
    assert WfField(f);
    FirstOfRecords(f, items, tail);
    if ValSendable(f, items[0]) {
      var next := prev + [CanonVal(f, items[0])];
      RecordInverts(fields, st, i, prev, items, tail);
      RecordsFail(fields, Received(st, i, next), i, next, items[1..], k - 1, tail);
    } else {
      var rest := EncodeRecords(f, items[1..]).value + tail;
      LoopDecodes(fields, st, i, WireType(f.ltype), EncodeVal(f, items[0]).value + rest);
      DefaultFits(f);
      ValFails(f, items[0], DefaultVal(f), rest);
    }
  }

  lemma {:induction false} PackedFails(fields: seq<Field>, st: State, i: nat, s: Slot, tail: seq<Byte>)
    requires Ready(fields, st, i, s) && SlotFits(fields[i], s, true) && !SlotSendable(fields[i], s)
    requires fields[i].htype.Repeated? && s.items != [] && fields[i].Packable()
    requires EncodeArray(fields[i], s.items).Some? && |EncodeArray(fields[i], s.items).value| < TOO_MANY
    ensures DecodeLoop(fields, st, EncodeArray(fields[i], s.items).value + tail) == Failed
  {
    var f, items := fields[i], s.items;
    assert WfField(f);
    var body := EncodeItems(f, items).value;
    assert EncodeArray(f, items).value + tail == TagBytes(f.tag, WT_STRING) + (Delimited(body) + tail);
    LoopDecodes(fields, st, i, WT_STRING, Delimited(body) + tail);
    LongDelimitedFails(body, tail);
  }

  lemma {:induction false} UnpackedFails(fields: seq<Field>, st: State, i: nat, s: Slot, tail: seq<Byte>)
    requires Ready(fields, st, i, s) && SlotFits(fields[i], s, true) && !SlotSendable(fields[i], s)
    requires fields[i].htype.Repeated? && s.items != [] && !fields[i].Packable()
    requires EncodeArray(fields[i], s.items).Some? && |EncodeArray(fields[i], s.items).value| < TOO_MANY
    ensures DecodeLoop(fields, st, EncodeArray(fields[i], s.items).value + tail) == Failed
    decreases fields[i], 3
  {
    var f, items := fields[i], s.items;
    var k :| 0 <= k < |items| && !ValSendable(f, items[k]);
    ArrayStarts(fields, st, i, s, tail);
    RecordsFail(fields, Started(st, f, i), i, [], items, k, tail);
  }

  lemma {:induction false} SlotFails(fields: seq<Field>, st: State, i: nat, s: Slot, tail: seq<Byte>)
    requires Ready(fields, st, i, s) && SlotFits(fields[i], s, true) && !SlotSendable(fields[i], s)
    requires EncodeSlot(fields[i], s).Some? && |EncodeSlot(fields[i], s).value| < TOO_MANY
    ensures DecodeLoop(fields, st, EncodeSlot(fields[i], s).value + tail) == Failed
    decreases fields[i], 4
  {
    var f := fields[i];
    if f.htype.Repeated? {
      if f.Packable() { PackedFails(fields, st, i, s, tail); } else { UnpackedFails(fields, st, i, s, tail); }
    } else {
      SingleFails(fields, st, i, s, if f.htype.OneOf? then s.cur.value else s.v, tail);
    }
  }

  lemma {:induction false} FieldsFail(fields: seq<Field>, slots: seq<Slot>, i: nat, bad: nat, st: State)
    requires WfFields(fields) && Fits(fields, slots, true)
    requires i <= bad < |fields| && SlotFits(fields[bad], slots[bad], true) && !SlotSendable(fields[bad], slots[bad])
    requires EncodeSlots(fields, slots, i).Some? && |EncodeSlots(fields, slots, i).value| < TOO_MANY
    requires ReadUpTo(fields, slots, st, i)
    ensures DecodeLoop(fields, st, EncodeSlots(fields, slots, i).value) == Failed
    decreases fields, 5, |fields| - i
  {
    SlotAt(fields, slots, i, true);
    if SlotSendable(fields[i], slots[i]) {
      FieldInverts(fields, slots, i, st);
      FieldsFail(fields, slots, i + 1, bad, After(fields, st, i, slots[i]));
    } else {
      ReadyFor(fields, slots, st, i);
      SlotFails(fields, st, i, slots[i], EncodeSlots(fields, slots, i + 1).value);
    }
  }

  lemma {:induction false} MessageFails(fields: seq<Field>, slots: seq<Slot>)
    requires WfFields(fields) && Fits(fields, slots, true) && !Sendable(fields, slots)
    requires Encode(fields, slots).Some? && |Encode(fields, slots).value| < TOO_MANY
    ensures Fits(fields, DefaultSlots(fields), false)
    ensures DecodeNoinit(fields, DefaultSlots(fields), Encode(fields, slots).value) == Fail
    decreases fields, 6
  {
    DefaultsFit(fields);
    var bad :| 0 <= bad < |fields| && !SlotSendable(fields[bad], slots[bad]);
    var st := State(DefaultSlots(fields), None, {});
    assert st.slots == Partial(fields, slots, 0);
    FieldsFail(fields, slots, 0, bad, st);
  }

  /** pb_decode of what pb_encode wrote, for every descriptor list and every message
      that pb_encode accepts: when every string is terminated within its storage and
      every length prefix is below 2^32, decoding succeeds, consumes exactly the
      encoding and returns the message; otherwise it fails. */
  lemma DecodeEncode(fields: seq<Field>, slots: seq<Slot>)
    requires WfFields(fields) && Fits(fields, slots, true) && Encode(fields, slots).Some?
    requires |Encode(fields, slots).value| < TOO_MANY
    ensures Decode(fields, Encode(fields, slots).value)
            == if Sendable(fields, slots) then Got(Canon(fields, slots), []) else Fail
  {
    if Sendable(fields, slots) { MessageInverts(fields, slots); } else { MessageFails(fields, slots); }
  }

  /** So messages that meet the conditions of the format and have the same encoding are the
      same, up to storage that is not part of them. */
  lemma {:induction false} SameBytesSameMessage(fields: seq<Field>, slots: seq<Slot>, others: seq<Slot>)
    requires WfFields(fields) && Fits(fields, slots, true) && Fits(fields, others, true)
    requires Sendable(fields, slots) && Sendable(fields, others)
    requires Encode(fields, slots).Some? && Encode(fields, slots) == Encode(fields, others)
    ensures Canon(fields, slots) == Canon(fields, others)
  {
    MessageInverts(fields, slots);
    MessageInverts(fields, others);
  }

  /** The smallest message that does not survive: a one-character string in a
      one-character array, which the encoder accepts. */
  lemma FullStringIsLost(f: Field, fields: seq<Field>, slots: seq<Slot>)
    requires f == Field(1, CString, Required, Static, 0, 0, 1, 0, None)
    requires fields == [f] && slots == [Single(Bytes([65]))]
    ensures Fits(fields, slots, true) && Encode(fields, slots) == Some([10, 1, 65])
    ensures WfFields(fields) && Decode(fields, [10, 1, 65]) == Fail
  {
    assert UpToNul([65]) == [65] by { assert [65][1..] == []; }
    assert WfField(f);
    assert Delimited([65]) == [1, 65];
    assert EncodeVal(f, Bytes([65])) == Some([1, 65]);
    assert TagBytes(1, WT_STRING) == [10] && [10] + [1, 65] == [10, 1, 65] == [10, 1, 65] + [];
    assert EncodeSlot(f, slots[0]) == EncodeRecord(f, Bytes([65])) == Some([10, 1, 65]);
    assert EncodeSlots(fields, slots, 1) == Some([]);
    assert !SlotSendable(fields[0], slots[0]);
    DecodeEncode(fields, slots);
  }
}
