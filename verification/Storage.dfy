/** Decoding arbitrary bytes never stores past the storage of a field. */
module Storage {
  import opened Bits
  import opened Wire
  import opened Wrappers
  import opened Message
  import opened DecodeSpec

  /** Every array has at most array_size entries, every bytes value its size word and its
      bytes within data_size, and every string its terminator. */
  ghost predicate Within(fields: seq<Field>, slots: seq<Slot>)
    decreases fields, 1
  {
    |slots| == |fields| && forall i :: 0 <= i < |fields| ==> SlotWithin(fields[i], slots[i])
  }

  ghost predicate SlotWithin(f: Field, s: Slot)
    decreases f, 1
  {
    match s
    case Single(v) => ValWithin(f, v)
    case Opt(_, v) => ValWithin(f, v)
    case Many(items) => |items| <= f.arraySize && forall k :: 0 <= k < |items| ==> ValWithin(f, items[k])
    case Member(cur) => cur.Some? ==> ValWithin(f, cur.value)
  }

  ghost predicate ValWithin(f: Field, v: Val)
    decreases f, 0
  {
    match f.ltype
    case BytesArray => v.Bytes? && |v.bytes| + 4 <= f.dataSize
    case CString => v.Bytes? && |v.bytes| < f.dataSize
    case FixedLengthBytes => v.Bytes? && |v.bytes| == f.dataSize
    case Submessage(sub) => v.Msg? && Within(sub, v.slots)
    case _ => true
  }

  /** Every default, at every depth, is within the storage it is copied to. */
  ghost predicate DefaultsWithin(fields: seq<Field>)
    decreases fields, 1
  {
    forall i :: 0 <= i < |fields| ==> DefaultWithin(fields[i])
  }

  ghost predicate DefaultWithin(f: Field)
    decreases f, 0
  {
    if f.ltype.Submessage? then DefaultsWithin(f.ltype.fields) else ValWithin(f, DefaultVal(f))
  }

  lemma {:induction false} DefaultSlotsWithin(fields: seq<Field>)
    requires DefaultsWithin(fields)
    ensures Within(fields, DefaultSlots(fields))
    decreases fields, 1
  {
    forall i | 0 <= i < |fields| ensures SlotWithin(fields[i], DefaultSlots(fields)[i]) {
      assert DefaultWithin(fields[i]);
      DefaultValWithin(fields[i]);
    }
  }

  lemma {:induction false} DefaultValWithin(f: Field)
    requires DefaultWithin(f)
    ensures ValWithin(f, DefaultVal(f)) && SlotWithin(f, DefaultSlot(f))
    decreases f, 0
  {
    if f.ltype.Submessage? { DefaultSlotsWithin(f.ltype.fields); }
  }

  // ------------------------------------------------ one value

  lemma PlainStaysWithin(f: Field, bs: seq<Byte>)
    requires WfField(f) && !f.ltype.Submessage? && DecodePlain(f, bs).Got?
    ensures ValWithin(f, DecodePlain(f, bs).value)
  {
  }

  lemma {:induction false} ValStaysWithin(f: Field, cur: Val, bs: seq<Byte>)
    requires WfField(f) && DefaultWithin(f) && ValFits(f, cur, false) && ValWithin(f, cur)
    ensures DecodeVal(f, cur, bs).Got? ==> ValWithin(f, DecodeVal(f, cur, bs).value)
    decreases |bs|, 0
  {
    if f.ltype.Submessage? {
      var p := ParseDelimited(bs);
      if p.Got? {
        DefaultSlotsWithin(f.ltype.fields);
        NoinitStaysWithin(f.ltype.fields, SubmessageStart(f, cur), p.value);
      }
    } else if DecodePlain(f, bs).Got? {
      PlainStaysWithin(f, bs);
    }
  }

  lemma {:induction false} PackedStaysWithin(f: Field, items: seq<Val>, body: seq<Byte>)
    requires WfField(f) && DefaultWithin(f) && SlotWithin(f, Many(items))
    requires forall k :: 0 <= k < |items| ==> ValFits(f, items[k], false)
    ensures var r := DecodePacked(f, items, body); r.Some? ==> SlotWithin(f, Many(r.value))
    decreases |body|, 1
  {
    if body != [] && |items| < f.arraySize {
      DefaultFits(f);
      DefaultValWithin(f);
      ValStaysWithin(f, DefaultVal(f), body);
      var p := DecodeVal(f, DefaultVal(f), body);
      if p.Got? { PackedStaysWithin(f, items + [p.value], p.rest); }
    }
  }

  lemma {:induction false} RepeatedStaysWithin(f: Field, items: seq<Val>, wireType: nat, bs: seq<Byte>)
    requires WfField(f) && DefaultWithin(f) && SlotWithin(f, Many(items))
    requires forall k :: 0 <= k < |items| ==> ValFits(f, items[k], false)
    ensures var p := DecodeRepeated(f, items, wireType, bs); p.Got? ==> SlotWithin(f, Many(p.value))
    decreases |bs|, 2
  {
    if wireType == WT_STRING && f.Packable() {
      var p := ParseDelimited(bs);
      if p.Got? { PackedStaysWithin(f, items, p.value); }
    } else {
      DefaultFits(f);
      DefaultValWithin(f);
      ValStaysWithin(f, DefaultVal(f), bs);
    }
  }

  // ------------------------------------------------ messages

  lemma StoreStaysWithin(fields: seq<Field>, slots: seq<Slot>, i: nat, v: Val)
    requires Within(fields, slots) && i < |fields| && ValWithin(fields[i], v)
    ensures Within(fields, Store(fields, slots, i, v))
  {
  }

  /** One field, and with it every state that decoding goes through, whether it succeeds in
      the end or not. */
  lemma {:induction false} FieldStaysWithin(fields: seq<Field>, st: State, i: nat, wireType: nat, bs: seq<Byte>)
    requires StateFits(fields, st) && DefaultsWithin(fields) && Within(fields, st.slots) && i < |fields|
    ensures var p := DecodeField(fields, st, i, wireType, bs); p.Got? ==> Within(fields, p.value.slots)
    decreases |bs|, 3
  {
    var f, s := fields[i], st.slots[i];
    SlotAt(fields, st.slots, i, false);
    assert SlotWithin(f, s) && DefaultWithin(f);
    if f.htype.Repeated? {
      RepeatedStaysWithin(f, if f.FixedCount() && st.fixed != Some(i) then [] else s.items, wireType, bs);
    } else {
      DefaultFits(f);
      DefaultValWithin(f);
      ValStaysWithin(f, Target(f, s), bs);
      var p := DecodeVal(f, Target(f, s), bs);
      if p.Got? { StoreStaysWithin(fields, st.slots, i, p.value); }
    }
  }

  lemma {:induction false} LoopStaysWithin(fields: seq<Field>, st: State, bs: seq<Byte>)
    requires StateFits(fields, st) && DefaultsWithin(fields) && Within(fields, st.slots)
    ensures var l := DecodeLoop(fields, st, bs); !l.Failed? ==> Within(fields, l.st.slots)
    decreases |bs|, 5
  {
    if bs != [] && ParseTag(bs).Tag? {
      var t := ParseTag(bs);
      var i := FindField(fields, t.number);
      if i.Some? { FieldStaysWithin(fields, st, i.value, t.wireType, t.rest); }
      var p := DecodeRecord(fields, st, t.number, t.wireType, t.rest);
      if p.Got? { LoopStaysWithin(fields, p.value, p.rest); }
    }
  }

  /** pb_decode_noinit on any bytes: what was within its storage stays within it. */
  lemma {:induction false} NoinitStaysWithin(fields: seq<Field>, slots: seq<Slot>, bs: seq<Byte>)
    requires WfFields(fields) && DefaultsWithin(fields) && Fits(fields, slots, false) && Within(fields, slots)
    ensures var p := DecodeNoinit(fields, slots, bs); p.Got? ==> Within(fields, p.value)
    decreases |bs|, 6
  {
    LoopStaysWithin(fields, State(slots, None, {}), bs);
  }

  /** pb_decode on any bytes: everything it stores is within its storage. */
  lemma {:induction false} DecodeStaysWithin(fields: seq<Field>, bs: seq<Byte>)
    requires WfFields(fields) && DefaultsWithin(fields)
    ensures var p := Decode(fields, bs); p.Got? ==> Within(fields, p.value)
  {
    DefaultsFit(fields);
    DefaultSlotsWithin(fields);
    NoinitStaysWithin(fields, DefaultSlots(fields), bs);
  }
}
