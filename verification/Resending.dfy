/** What has been decoded can be sent again. */
module Resending {
  import opened Bits
  import opened Wire
  import opened Wrappers
  import opened Message
  import opened EncodeSpec
  import opened DecodeSpec
  import opened Inverse
  import opened RoundTrip
  import opened Storage

  /** Every length prefix that is sent, of a submessage or a packed array, is below 2^32. */
  ghost predicate PrefixesFit(fields: seq<Field>, slots: seq<Slot>)
    requires Fits(fields, slots, true)
    decreases fields, 1
  {
    forall i :: 0 <= i < |fields| ==> SlotPrefixesFit(fields[i], slots[i])
  }

  ghost predicate SlotPrefixesFit(f: Field, s: Slot)
    requires SlotFits(f, s, true)
    decreases f, 1
  {
    match f.htype
    case Required => ValPrefixesFit(f, s.v)
    case Optional => IsPresent(f, s) ==> ValPrefixesFit(f, s.v)
    case Repeated =>
      && (forall k :: 0 <= k < |s.items| ==> ValPrefixesFit(f, s.items[k]))
      && (f.Packable() && EncodeItems(f, s.items).Some? ==> |EncodeItems(f, s.items).value| < U32)
    case OneOf => s.cur.Some? ==> ValPrefixesFit(f, s.cur.value)
  }

  ghost predicate ValPrefixesFit(f: Field, v: Val)
    requires ValFits(f, v, true)
    decreases f, 0
  {
    f.ltype.Submessage? ==>
      && PrefixesFit(f.ltype.fields, v.slots)
      && (Encode(f.ltype.fields, v.slots).Some? ==> |Encode(f.ltype.fields, v.slots).value| < U32)
  }

  // ------------------------------------------------ it has an encoding

  lemma {:induction false} ItemsEncode(f: Field, items: seq<Val>)
    requires forall k :: 0 <= k < |items| ==> ValFits(f, items[k], true) && EncodeVal(f, items[k]).Some?
    ensures EncodeItems(f, items).Some? && EncodeRecords(f, items).Some?
    decreases |items|
  {
    if items != [] { ItemsEncode(f, items[1..]); }
  }

  lemma {:induction false} ValEncodes(f: Field, v: Val)
    requires WfField(f) && ValFits(f, v, true) && ValWithin(f, v)
    ensures EncodeVal(f, v).Some? && (ValSendable(f, v) <==> ValPrefixesFit(f, v))
    decreases f, 0
  {
    if f.ltype.Submessage? { MessageEncodes(f.ltype.fields, v.slots); }
  }

  lemma {:induction false} SlotEncodes(f: Field, s: Slot)
    requires WfField(f) && SlotFits(f, s, true) && SlotWithin(f, s)
    ensures EncodeSlot(f, s).Some? && (SlotSendable(f, s) <==> SlotPrefixesFit(f, s))
    decreases f, 1
  {
    match f.htype
    case Required => ValEncodes(f, s.v);
    case Optional => ValEncodes(f, s.v);
    case Repeated =>
      forall k | 0 <= k < |s.items|
        ensures EncodeVal(f, s.items[k]).Some? && (ValSendable(f, s.items[k]) <==> ValPrefixesFit(f, s.items[k]))
      {
        ValEncodes(f, s.items[k]);
      }
      ItemsEncode(f, s.items);
    case OneOf => if s.cur.Some? { ValEncodes(f, s.cur.value); }
  }

  lemma {:induction false} SlotsEncode(fields: seq<Field>, slots: seq<Slot>, i: nat)
    requires Fits(fields, slots, true) && i <= |fields|
    requires forall k :: 0 <= k < |fields| ==> SlotFits(fields[k], slots[k], true) && EncodeSlot(fields[k], slots[k]).Some?
    ensures EncodeSlots(fields, slots, i).Some?
    decreases |fields| - i
  {
    if i < |fields| { SlotsEncode(fields, slots, i + 1); }
  }

  lemma {:induction false} MessageEncodes(fields: seq<Field>, slots: seq<Slot>)
    requires WfFields(fields) && Fits(fields, slots, true) && Within(fields, slots)
    ensures Encode(fields, slots).Some? && (Sendable(fields, slots) <==> PrefixesFit(fields, slots))
    decreases fields, 2
  {
    forall i | 0 <= i < |fields|
      ensures SlotFits(fields[i], slots[i], true) && EncodeSlot(fields[i], slots[i]).Some?
      ensures SlotSendable(fields[i], slots[i]) <==> SlotPrefixesFit(fields[i], slots[i])
    {
      SlotAt(fields, slots, i, true);
      assert WfField(fields[i]) && SlotWithin(fields[i], slots[i]);
      SlotEncodes(fields[i], slots[i]);
    }
    SlotsEncode(fields, slots, 0);
  }

  // ------------------------------------------------ short messages

  lemma {:induction false} RecordShort(f: Field, items: seq<Val>, k: nat)
    requires forall j :: 0 <= j < |items| ==> ValFits(f, items[j], true)
    requires k < |items| && EncodeRecords(f, items).Some?
    ensures EncodeVal(f, items[k]).Some? && |EncodeVal(f, items[k]).value| <= |EncodeRecords(f, items).value|
    decreases |items|
  {
    if k > 0 {
      RecordShort(f, items[1..], k - 1);
      assert items[1..][k - 1] == items[k];
    }
  }

  lemma {:induction false} ValShort(f: Field, v: Val)
    requires ValFits(f, v, true) && EncodeVal(f, v).Some? && |EncodeVal(f, v).value| < U32
    ensures ValPrefixesFit(f, v)
    decreases f, 0
  {
    if f.ltype.Submessage? { MessageShort(f.ltype.fields, v.slots); }
  }

  lemma {:induction false} SlotShort(f: Field, s: Slot)
    requires SlotFits(f, s, true) && EncodeSlot(f, s).Some? && |EncodeSlot(f, s).value| < U32
    ensures SlotPrefixesFit(f, s)
    decreases f, 1
  {
    match f.htype
    case Required => ValShort(f, s.v);
    case Optional => if IsPresent(f, s) { ValShort(f, s.v); }
    case Repeated =>
      if !f.Packable() {
        forall k | 0 <= k < |s.items| ensures ValPrefixesFit(f, s.items[k]) {
          RecordShort(f, s.items, k);
          ValShort(f, s.items[k]);
        }
      }
    case OneOf => if s.cur.Some? { ValShort(f, s.cur.value); }
  }

  lemma {:induction false} SlotInMessage(fields: seq<Field>, slots: seq<Slot>, i: nat, k: nat)
    requires Fits(fields, slots, true) && i <= k < |fields| && EncodeSlots(fields, slots, i).Some?
    ensures SlotFits(fields[k], slots[k], true) && EncodeSlot(fields[k], slots[k]).Some?
    ensures |EncodeSlot(fields[k], slots[k]).value| <= |EncodeSlots(fields, slots, i).value|
    decreases k - i
  {
    SlotAt(fields, slots, i, true);
    if i < k { SlotInMessage(fields, slots, i + 1, k); }
  }

  /** In a message of less than 2^32 bytes every prefix is. */
  lemma {:induction false} MessageShort(fields: seq<Field>, slots: seq<Slot>)
    requires Fits(fields, slots, true) && Encode(fields, slots).Some? && |Encode(fields, slots).value| < U32
    ensures PrefixesFit(fields, slots)
    decreases fields, 2
  {
    forall i | 0 <= i < |fields| ensures SlotFits(fields[i], slots[i], true) && SlotPrefixesFit(fields[i], slots[i]) {
      SlotInMessage(fields, slots, 0, i);
      SlotShort(fields[i], slots[i]);
    }
  }

  // ------------------------------------------------ from any bytes

  /** Whatever bytes a message has been decoded from, if its fixed-count arrays are complete it
      has an encoding; and decoding that gives the message back, up to storage that is not
      part of it, exactly if every length prefix is below 2^32. */
  lemma {:induction false} DecodedCanBeSent(fields: seq<Field>, bs: seq<Byte>)
    requires WfFields(fields) && DefaultsWithin(fields)
    requires Decode(fields, bs).Got? && Fits(fields, Decode(fields, bs).value, true)
    ensures var slots := Decode(fields, bs).value;
            var again := Encode(fields, slots);
            again.Some?
            && (|again.value| < TOO_MANY ==>
                  Decode(fields, again.value) == if PrefixesFit(fields, slots) then Got(Canon(fields, slots), []) else Fail)
            && (|again.value| < U32 ==> PrefixesFit(fields, slots))
  {
    var slots := Decode(fields, bs).value;
    DecodeStaysWithin(fields, bs);
    MessageEncodes(fields, slots);
    var again := Encode(fields, slots).value;
    if |again| < TOO_MANY { DecodeEncode(fields, slots); }
    if |again| < U32 { MessageShort(fields, slots); }
  }
}
