/** The bytes pb_encode produces for a message, as a function; None where the encoder
    reports an error of its own (as opposed to a full stream). */
module EncodeSpec {
  import opened Bits
  import opened Wire
  import opened Wrappers
  import opened Message

  // ------------------------------------------------------- implicit presence

  /** pb_check_proto3_default_value on a field of a structure. Of a union whose which_ names
      another member the C function says that this one is not default. Here it is; but the
      member that is named is not, so that the verdict on the whole structure is the same. */
  predicate IsDefault(f: Field, s: Slot)
    decreases f, 1
  {
    match s
    case Single(v) => f.htype.Optional? && IsZero(f, v)
    case Opt(has, _) => !has
    case Many(items) => f.HasSize() && items == []
    case Member(cur) => cur.None?
  }

  /** Its second half: proto3 singular storage. */
  predicate IsZero(f: Field, v: Val)
    decreases f, 0
  {
    match v
    case Num(n) => n == 0
    case Bytes(bs) => if f.ltype.FixedLengthBytes? then f.dataSize == 0
                      else if f.ltype.CString? then bs == [] || bs[0] == 0
                      else bs == []
    case Msg(slots) =>
      if f.ltype.Submessage? then
        forall i :: 0 <= i < |f.ltype.fields| && i < |slots| ==> IsDefault(f.ltype.fields[i], slots[i])
      else true
  }

  /** Whether encode_basic_field writes an optional field. */
  predicate IsPresent(f: Field, s: Slot) {
    match s
    case Opt(has, _) => has
    case Single(v) => !IsZero(f, v)
    case _ => false
  }

  // ---------------------------------------------------------------- values

  /** pb_encode_tag_for_field's wire type. */
  function WireType(l: LType): nat {
    match l
    case Fixed32 => WT_32BIT
    case Fixed64 => WT_64BIT
    case BytesArray => WT_STRING
    case CString => WT_STRING
    case Submessage(_) => WT_STRING
    case FixedLengthBytes => WT_STRING
    case _ => WT_VARINT
  }

  function TagBytes(number: nat, wireType: nat): seq<Byte> {
    VarintBytes(8 * number + wireType)
  }

  /** pb_encode_string: the length, cast to uint64_t, and the bytes. */
  function Delimited(bs: seq<Byte>): seq<Byte> {
    VarintBytes(|bs| % U64) + bs
  }

  /** The characters of a char array before its terminator (strnlen). */
  function UpToNul(bs: seq<Byte>): (r: seq<Byte>)
    ensures |r| <= |bs|
  {
    if bs == [] || bs[0] == 0 then [] else [bs[0]] + UpToNul(bs[1..])
  }

  /** The pb_enc_* functions of fields other than submessages. */
  function EncodePlain(f: Field, v: Val): Option<seq<Byte>>
    requires Plain(f, v)
  {
    match f.ltype
    case Bool => Some(VarintBytes(v.n))
    case Varint => if Values(f.dataSize) == 0 then None else Some(VarintBytes(v.n % U64))
    case UVarint => if Values(f.dataSize) == 0 then None else Some(VarintBytes(v.n))
    case SVarint => if Values(f.dataSize) == 0 then None else Some(VarintBytes(ZigZag(v.n)))
    case Fixed32 => Some(LittleEndian(4, v.n))
    case Fixed64 => Some(LittleEndian(8, v.n))
    case BytesArray => if |v.bytes| + 4 > f.dataSize then None else Some(Delimited(v.bytes))
    case CString => Some(Delimited(UpToNul(v.bytes)))
    case FixedLengthBytes => Some(Delimited(v.bytes))
  }

  function EncodeVal(f: Field, v: Val): Option<seq<Byte>>
    requires ValFits(f, v, true)
    decreases f, 0
  {
    if f.ltype.Submessage? then
      var body :- EncodeSlots(f.ltype.fields, v.slots, 0);
      Some(Delimited(body))
    else EncodePlain(f, v)
  }

  /** A field header and one value. */
  function EncodeRecord(f: Field, v: Val): Option<seq<Byte>>
    requires ValFits(f, v, true)
    decreases f, 1
  {
    var body :- EncodeVal(f, v);
    Some(TagBytes(f.tag, WireType(f.ltype)) + body)
  }

  /** The items of a packed array, back to back. */
  function EncodeItems(f: Field, items: seq<Val>): Option<seq<Byte>>
    requires forall k :: 0 <= k < |items| ==> ValFits(f, items[k], true)
    decreases f, 2, |items|
  {
    if items == [] then Some([])
    else
      var first :- EncodeVal(f, items[0]);
      var rest :- EncodeItems(f, items[1..]);
      Some(first + rest)
  }

  /** The items of an unpacked array, each with its own header. */
  function EncodeRecords(f: Field, items: seq<Val>): Option<seq<Byte>>
    requires forall k :: 0 <= k < |items| ==> ValFits(f, items[k], true)
    decreases f, 2, |items|
  {
    if items == [] then Some([])
    else
      var first :- EncodeRecord(f, items[0]);
      var rest :- EncodeRecords(f, items[1..]);
      Some(first + rest)
  }

  /** encode_array: packed whenever the type allows it. */
  function EncodeArray(f: Field, items: seq<Val>): Option<seq<Byte>>
    requires forall k :: 0 <= k < |items| ==> ValFits(f, items[k], true)
    decreases f, 3
  {
    if items == [] then Some([])
    else if |items| > f.arraySize then None
    else if f.Packable() then
      var body :- EncodeItems(f, items);
      Some(TagBytes(f.tag, WT_STRING) + Delimited(body))
    else EncodeRecords(f, items)
  }

  /** encode_basic_field. */
  function EncodeSlot(f: Field, s: Slot): Option<seq<Byte>>
    requires SlotFits(f, s, true)
    decreases f, 4
  {
    match f.htype
    case Required => EncodeRecord(f, s.v)
    case Optional => if IsPresent(f, s) then EncodeRecord(f, s.v) else Some([])
    case Repeated => EncodeArray(f, s.items)
    case OneOf => if s.cur.Some? then EncodeRecord(f, s.cur.value) else Some([])
  }

  /** pb_encode's loop from field `i` on. */
  function EncodeSlots(fields: seq<Field>, slots: seq<Slot>, i: nat): Option<seq<Byte>>
    requires Fits(fields, slots, true) && i <= |fields|
    decreases fields, 5, |fields| - i
  {
    if i == |fields| then Some([])
    else
      var first :- EncodeSlot(fields[i], slots[i]);
      var rest :- EncodeSlots(fields, slots, i + 1);
      Some(first + rest)
  }

  /** pb_encode. */
  function Encode(fields: seq<Field>, slots: seq<Slot>): Option<seq<Byte>>
    requires Fits(fields, slots, true)
  {
    EncodeSlots(fields, slots, 0)
  }
}
