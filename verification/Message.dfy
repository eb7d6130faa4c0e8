/** Field descriptors (pb_field_t) and the message structures they describe.

    A descriptor list is a `seq<Field>` without its terminator. A message structure is
    one `Slot` per descriptor: the storage the field's pData and pSize point to. The
    contents of storage that nothing reads (array entries past the count, union members
    other than the current one) are not part of the value. */
module Message {
  import opened Bits
  import opened Wrappers

  /** PB_LTYPE_*; the first six are packable. */
  datatype LType =
    | Bool | Varint | UVarint | SVarint | Fixed32 | Fixed64
    | BytesArray | CString | Submessage(fields: seq<Field>) | Extension | FixedLengthBytes

  /** PB_HTYPE_*. */
  datatype HType = Required | Optional | Repeated | OneOf

  /** PB_ATYPE_*. */
  datatype AType = Static | Pointer | Callback

  /** pb_field_t; `default` stands for `ptr` on fields that are not submessages. */
  datatype Field = Field(
    tag: nat, ltype: LType, htype: HType, atype: AType,
    dataOffset: nat, sizeOffset: int, dataSize: nat, arraySize: nat,
    default: Option<Val>)
  {
    predicate HasSize() { sizeOffset != 0 }

    /** A repeated field without a count in the structure. */
    predicate FixedCount() { htype.Repeated? && !HasSize() }

    /** An optional field without a has_ member: proto3 implicit presence. */
    predicate Implicit() { htype.Optional? && !HasSize() }

    /** PB_LTYPE(type) <= PB_LTYPE_LAST_PACKABLE. */
    predicate Packable() {
      ltype.Bool? || ltype.Varint? || ltype.UVarint? || ltype.SVarint? || ltype.Fixed32? || ltype.Fixed64?
    }
  }

  datatype Val =
    | Num(n: int)
    | Bytes(bytes: seq<Byte>)    // for CString: the char array up to its terminator
    | Msg(slots: seq<Slot>)

  datatype Slot =
    | Single(v: Val)             // required, or proto3 singular
    | Opt(has: bool, v: Val)     // optional with has_ member
    | Many(items: seq<Val>)      // the first `count` entries of an array
    | Member(cur: Option<Val>)   // union member, None when which_ names another one

  /** PB_SIZE_MAX with PB_FIELD_32BIT. */
  const PB_SIZE_MAX: nat := 0xFFFF_FFFF

  // ------------------------------------------------------------- unions

  /** Index of the first member of the union that field `i` belongs to: later members
      carry PB_SIZE_MAX as data_offset. */
  function UnionStart(fields: seq<Field>, i: nat): (s: nat)
    requires i < |fields|
    ensures s <= i
  {
    if i > 0 && InUnionOfPrevious(fields, i) then UnionStart(fields, i - 1) else i
  }

  predicate InUnionOfPrevious(fields: seq<Field>, i: nat)
    requires 0 < i < |fields|
  {
    fields[i].htype.OneOf? && fields[i - 1].htype.OneOf? && fields[i].dataOffset == PB_SIZE_MAX
  }

  predicate SameUnion(fields: seq<Field>, i: nat, k: nat)
    requires i < |fields| && k < |fields|
  {
    fields[i].htype.OneOf? && fields[k].htype.OneOf? && UnionStart(fields, i) == UnionStart(fields, k)
  }

  /** Members of a union lie at the same offset, and so at the same distance from their
      which_ member. */
  predicate UnionsShareSize(fields: seq<Field>) {
    forall i :: 0 < i < |fields| && InUnionOfPrevious(fields, i) ==> fields[i].sizeOffset == fields[i - 1].sizeOffset
  }

  // ------------------------------------------------- descriptors in range

  /** Number of values of an integer stored in `size` bytes; 0 for a size that no
      integer field has. */
  function Values(size: nat): nat {
    if size == 1 then 0x100 else if size == 2 then 0x1_0000 else if size == 4 then U32
    else if size == 8 then U64 else 0
  }

  /** What the generator guarantees of a descriptor list, for static fields. */
  ghost predicate WfFields(fields: seq<Field>)
    decreases fields, 1
  {
    && fields != []
    && (forall i :: 0 <= i < |fields| ==> WfField(fields[i]))
    && (forall i, j :: 0 <= i < j < |fields| ==> fields[i].tag != fields[j].tag)
    && UnionsShareSize(fields)
  }

  ghost predicate WfField(f: Field)
    decreases f, 0
  {
    && 1 <= f.tag < 0x2000_0000
    && f.atype.Static?
    && f.dataSize <= PB_SIZE_MAX && f.arraySize <= PB_SIZE_MAX
    && !f.ltype.Extension?
    && (f.ltype.Varint? || f.ltype.UVarint? || f.ltype.SVarint? ==> Values(f.dataSize) > 0)
    && (f.ltype.CString? ==> f.dataSize > 0)
    && (f.ltype.BytesArray? ==> f.dataSize >= 4)
    && (f.ltype.Submessage? ==> WfFields(f.ltype.fields))
    && (f.htype.OneOf? ==> f.HasSize())
    && (f.htype.Repeated? ==> f.arraySize > 0)
    && (f.default.Some? ==> !f.ltype.Submessage? && Plain(f, f.default.value))
    && (f.Implicit() && f.default.Some? ==> f.default.value == ZeroScalar(f))
  }

  /** Values of fields other than submessages. */
  predicate Plain(f: Field, v: Val) {
    match f.ltype
    case Bool => v.Num? && 0 <= v.n <= 1
    case Varint => v.Num? && -(Values(f.dataSize) / 2) <= v.n < Values(f.dataSize) / 2
    case SVarint => v.Num? && -(Values(f.dataSize) / 2) <= v.n < Values(f.dataSize) / 2
    case UVarint => v.Num? && 0 <= v.n < Values(f.dataSize)
    case Fixed32 => v.Num? && 0 <= v.n < U32
    case Fixed64 => v.Num? && 0 <= v.n < U64
    case BytesArray => v.Bytes? && |v.bytes| <= PB_SIZE_MAX
    case CString => v.Bytes? && |v.bytes| <= f.dataSize
    case FixedLengthBytes => v.Bytes? && |v.bytes| == f.dataSize
    case Submessage(_) => false
    case Extension => false
  }

  /** Zeroed storage of a field that is not a submessage. */
  function ZeroScalar(f: Field): Val {
    match f.ltype
    case FixedLengthBytes => Bytes(seq(f.dataSize, _ => 0))
    case BytesArray => Bytes([])
    case CString => Bytes([])
    case _ => Num(0)
  }

  // ---------------------------------------------- structures fit descriptors

  /** The structure has the shape its descriptors say. `full` also asks every
      fixed-count array to hold its array_size elements, as an encoder may assume. */
  ghost predicate Fits(fields: seq<Field>, slots: seq<Slot>, full: bool)
    decreases fields, 1
  {
    && |slots| == |fields|
    && (forall i :: 0 <= i < |fields| ==> SlotFits(fields[i], slots[i], full))
    && OneMemberPerUnion(fields, slots)
  }

  ghost predicate SlotFits(f: Field, s: Slot, full: bool)
    decreases f, 1
  {
    match f.htype
    case Required => s.Single? && ValFits(f, s.v, full)
    case Optional => (if f.HasSize() then s.Opt? else s.Single?) && ValFits(f, s.v, full)
    case Repeated =>
      && s.Many?
      && (forall k :: 0 <= k < |s.items| ==> ValFits(f, s.items[k], full))
      && (full && f.FixedCount() ==> |s.items| == f.arraySize)
    case OneOf => s.Member? && (s.cur.Some? ==> ValFits(f, s.cur.value, full))
  }

  ghost predicate ValFits(f: Field, v: Val, full: bool)
    decreases f, 0
  {
    if f.ltype.Submessage? then v.Msg? && Fits(f.ltype.fields, v.slots, full) else Plain(f, v)
  }

  /** The kind of slot a field has. */
  predicate RightKind(f: Field, s: Slot) {
    match f.htype
    case Required => s.Single?
    case Optional => if f.HasSize() then s.Opt? else s.Single?
    case Repeated => s.Many?
    case OneOf => s.Member?
  }

  lemma SlotAt(fields: seq<Field>, slots: seq<Slot>, i: nat, full: bool)
    requires Fits(fields, slots, full) && i < |fields|
    ensures SlotFits(fields[i], slots[i], full) && RightKind(fields[i], slots[i])
  {
  }

  /** which_ names at most one member of a union. */
  ghost predicate OneMemberPerUnion(fields: seq<Field>, slots: seq<Slot>)
    requires |slots| == |fields|
  {
    forall i, k :: 0 <= i < |fields| && 0 <= k < |fields| && i != k && SameUnion(fields, i, k)
      && slots[i].Member? && slots[i].cur.Some? && slots[k].Member?
      ==> slots[k].cur.None?
  }

  // -------------------------------------------------------------- defaults

  /** pb_message_set_to_defaults: counts and which_ members become zero, has_ members
      false; the storage itself gets its default. An array that has received nothing
      is empty whether or not it has a count member. */
  function DefaultSlots(fields: seq<Field>): (slots: seq<Slot>)
    ensures |slots| == |fields|
    decreases fields, 1
  {
    seq(|fields|, i requires 0 <= i < |fields| => DefaultSlot(fields[i]))
  }

  function DefaultSlot(f: Field): Slot
    decreases f, 1
  {
    match f.htype
    case Required => Single(DefaultVal(f))
    case Optional => if f.HasSize() then Opt(false, DefaultVal(f)) else Single(DefaultVal(f))
    case Repeated => Many([])
    case OneOf => Member(None)
  }

  function DefaultVal(f: Field): Val
    decreases f, 0
  {
    if f.ltype.Submessage? then Msg(DefaultSlots(f.ltype.fields))
    else if f.default.Some? then f.default.value
    else ZeroScalar(f)
  }

  lemma {:induction false} DefaultsFit(fields: seq<Field>)
    requires WfFields(fields)
    ensures Fits(fields, DefaultSlots(fields), false)
    decreases fields, 1
  {
    forall i | 0 <= i < |fields| ensures SlotFits(fields[i], DefaultSlots(fields)[i], false) {
      DefaultFits(fields[i]);
    }
  }

  lemma {:induction false} DefaultFits(f: Field)
    requires WfField(f)
    ensures ValFits(f, DefaultVal(f), false) && SlotFits(f, DefaultSlot(f), false)
    decreases f, 0
  {
    if f.ltype.Submessage? { DefaultsFit(f.ltype.fields); }
  }
}
