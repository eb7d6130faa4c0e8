/** What pb_decode leaves in the storage of fields that were not sent: their defaults. */
module Defaults {
  import opened Bits
  import opened Wrappers
  import opened Message
  import opened DecodeSpec
  import opened Keeping

  /** The default of the descriptor, or zeroed storage if it has none; a submessage is unset
      throughout. */
  ghost predicate HoldsDefault(f: Field, v: Val)
    decreases f, 0
  {
    match f.ltype
    case Submessage(sub) => v.Msg? && |v.slots| == |sub| && forall i :: 0 <= i < |sub| ==> Unset(sub[i], v.slots[i])
    case _ =>
      if f.default.Some? then v == f.default.value
      else if f.ltype.CString? || f.ltype.BytesArray? then v == Bytes([])
      else if f.ltype.FixedLengthBytes? then
        v.Bytes? && |v.bytes| == f.dataSize && forall i :: 0 <= i < |v.bytes| ==> v.bytes[i] == 0
      else v == Num(0)
  }

  /** No value, no entries, no current member; and storage that holds the default. */
  ghost predicate Unset(f: Field, s: Slot)
    decreases f, 1
  {
    match f.htype
    case Required => s.Single? && HoldsDefault(f, s.v)
    case Optional => (if f.sizeOffset != 0 then s.Opt? && !s.has else s.Single?) && HoldsDefault(f, s.v)
    case Repeated => s == Many([])
    case OneOf => s == Member(None)
  }

  lemma {:induction false} DefaultIsUnset(f: Field)
    ensures Unset(f, DefaultSlot(f)) && HoldsDefault(f, DefaultVal(f))
    decreases f
  {
    if f.ltype.Submessage? {
      var sub := f.ltype.fields;
      forall i | 0 <= i < |sub| ensures Unset(sub[i], DefaultSlots(sub)[i]) { DefaultIsUnset(sub[i]); }
    }
  }

  /** There is only one structure like that. */
  lemma {:induction false} UnsetIsDefault(f: Field, s: Slot)
    requires Unset(f, s)
    ensures s == DefaultSlot(f)
    decreases f, 1
  {
    if !f.htype.Repeated? && !f.htype.OneOf? { DefaultIsOnly(f, s.v); }
  }

  lemma {:induction false} DefaultIsOnly(f: Field, v: Val)
    requires HoldsDefault(f, v)
    ensures v == DefaultVal(f)
    decreases f, 0
  {
    if f.ltype.Submessage? {
      var sub := f.ltype.fields;
      forall i | 0 <= i < |sub| ensures v.slots[i] == DefaultSlots(sub)[i] { UnsetIsDefault(sub[i], v.slots[i]); }
      assert v.slots == DefaultSlots(sub);
    } else if f.default.None? && f.ltype.FixedLengthBytes? {
      assert v.bytes == ZeroScalar(f).bytes;
    }
  }

  /** Every storage in a default structure holds its default. */
  lemma {:induction false} DefaultsThroughout(fields: seq<Field>, path: seq<nat>)
    requires At(fields, DefaultSlots(fields), path).Some?
    ensures Unset(FieldAt(fields, path).value, At(fields, DefaultSlots(fields), path).value)
    decreases |path|
  {
    var f := fields[path[0]];
    DefaultIsUnset(f);
    if |path| > 1 { DefaultsThroughout(f.ltype.fields, path[1..]); }
  }

  /** pb_decode of any bytes, at every depth: a field without a record, of whose union there is
      no record either, is unset and holds the default that its descriptor gives. */
  lemma {:induction false} NotSentIsDefault(fields: seq<Field>, bs: seq<Byte>, path: seq<nat>)
    requires WfFields(fields) && Fits(fields, DefaultSlots(fields), false) && Decode(fields, bs).Got?
    requires At(fields, DefaultSlots(fields), path).Some?
    requires !Meets(fields, State(DefaultSlots(fields), None, {}), bs, path)
    ensures At(fields, Decode(fields, bs).value, path).Some?
    ensures Unset(FieldAt(fields, path).value, At(fields, Decode(fields, bs).value, path).value)
  {
    NoinitKeeps(fields, DefaultSlots(fields), bs, path);
    DefaultsThroughout(fields, path);
  }

  /** pb_decode of nothing, if it succeeds. */
  lemma {:induction false} NothingSent(fields: seq<Field>, i: nat)
    requires WfFields(fields) && Decode(fields, []).Got? && i < |fields|
    ensures Unset(fields[i], Decode(fields, []).value[i])
  {
    DefaultsFit(fields);
    NotSentIsDefault(fields, [], [i]);
  }
}
