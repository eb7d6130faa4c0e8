/** Packed and unpacked forms of a repeated field are interchangeable on the wire. */
module Packed {
  import opened Bits
  import opened Wire
  import opened WireProofs
  import opened Wrappers
  import opened Message
  import opened EncodeSpec
  import opened DecodeSpec
  import opened Inverse

  /** The bytes of one scalar of a packable type: a varint, or four or eight bytes. */
  predicate IsItem(f: Field, p: seq<Byte>) {
    if f.ltype.Fixed32? then |p| == 4
    else if f.ltype.Fixed64? then |p| == 8
    else SkipVarint(p) == Got((), [])
  }

  function Concat(ps: seq<seq<Byte>>): seq<Byte> {
    if ps == [] then [] else ps[0] + Concat(ps[1..])
  }

  /** One record holding all items. */
  function PackedRecord(f: Field, ps: seq<seq<Byte>>): seq<Byte> {
    TagBytes(f.tag, WT_STRING) + Delimited(Concat(ps))
  }

  /** One record for each item. */
  function UnpackedRecords(f: Field, ps: seq<seq<Byte>>): seq<Byte> {
    if ps == [] then [] else TagBytes(f.tag, WireType(f.ltype)) + ps[0] + UnpackedRecords(f, ps[1..])
  }

  lemma {:induction false} VarintFromComplete(p: seq<Byte>, bitpos: nat, result: nat, tail: seq<Byte>)
    requires SkipVarint(p) == Got((), [])
    ensures VarintFrom(p + tail, bitpos, result) == VarintFrom(p, bitpos, result).Before(tail)
    ensures VarintFrom(p, bitpos, result).Got? ==> VarintFrom(p, bitpos, result).rest == []
    decreases |p|
  {
    assert (p + tail)[1..] == p[1..] + tail;
    if p[0] >= 128 {
      VarintFromComplete(p[1..], bitpos + 7, Or(result, Shl(p[0] % 128, bitpos) % U64), tail);
    }
  }

  lemma {:induction false} Varint32FromComplete(p: seq<Byte>, bitpos: nat, result: nat, tail: seq<Byte>)
    requires SkipVarint(p) == Got((), [])
    ensures Varint32From(p + tail, bitpos, result) == Varint32From(p, bitpos, result).Before(tail)
    ensures Varint32From(p, bitpos, result).Got? ==> Varint32From(p, bitpos, result).rest == []
    decreases |p|
  {
    assert (p + tail)[1..] == p[1..] + tail;
    if p[0] >= 128 {
      var r := if bitpos >= 32 then result else Or(result, Shl(p[0] % 128, bitpos) % U32);
      Varint32FromComplete(p[1..], (bitpos + 7) % 256, r, tail);
    }
  }

  lemma Varint32Complete(p: seq<Byte>, tail: seq<Byte>)
    requires SkipVarint(p) == Got((), [])
    ensures ParseVarint32(p + tail) == ParseVarint32(p).Before(tail)
    ensures ParseVarint32(p).Got? ==> ParseVarint32(p).rest == []
  {
    assert (p + tail)[1..] == p[1..] + tail;
    if p[0] >= 128 { Varint32FromComplete(p[1..], 7, p[0] % 128, tail); }
  }

  /** An item is accepted or refused whatever follows it, and is read whole. */
  lemma ItemComplete(f: Field, p: seq<Byte>, tail: seq<Byte>)
    requires f.Packable() && IsItem(f, p)
    ensures DecodePlain(f, p + tail) == DecodePlain(f, p).Before(tail)
    ensures DecodePlain(f, p).Got? ==> DecodePlain(f, p).rest == []
    ensures p != []
  {
    match f.ltype
    case Bool => Varint32Complete(p, tail);
    case Varint => VarintFromComplete(p, 0, 0, tail);
    case UVarint => VarintFromComplete(p, 0, 0, tail);
    case SVarint => VarintFromComplete(p, 0, 0, tail);
    case Fixed32 => RawExtends(p, 4, tail);
    case Fixed64 => RawExtends(p, 8, tail);
  }

  /** One item at the front of a packed body. */
  lemma PackedStep(f: Field, items: seq<Val>, ps: seq<seq<Byte>>)
    requires WfField(f) && f.Packable() && ps != [] && IsItem(f, ps[0])
    requires forall k :: 0 <= k < |items| ==> ValFits(f, items[k], false)
    ensures DecodePlain(f, ps[0]).Got? ==> ValFits(f, DecodePlain(f, ps[0]).value, false)
    ensures DecodePacked(f, items, Concat(ps))
            == if |items| >= f.arraySize || DecodePlain(f, ps[0]).Fail? then None
               else DecodePacked(f, items + [DecodePlain(f, ps[0]).value], Concat(ps[1..]))
  {
    DefaultFits(f);
    ItemComplete(f, ps[0], Concat(ps[1..]));
    PlainDecodes(f, ps[0]);
    assert [] + Concat(ps[1..]) == Concat(ps[1..]);
  }

  lemma ItemAppends(f: Field, items: seq<Val>, p: seq<Byte>, tail: seq<Byte>)
    requires WfField(f) && f.Packable() && IsItem(f, p)
    requires forall k :: 0 <= k < |items| ==> ValFits(f, items[k], false)
    ensures DecodeRepeated(f, items, WireType(f.ltype), p + tail)
            == if |items| >= f.arraySize || DecodePlain(f, p).Fail? then Fail
               else Got(items + [DecodePlain(f, p).value], tail)
  {
    DefaultFits(f);
    ItemComplete(f, p, tail);
    assert [] + tail == tail;
  }

  /** One item in a record of its own. */
  lemma UnpackedStep(fields: seq<Field>, st: State, i: nat, items: seq<Val>, p: seq<Byte>, tail: seq<Byte>)
    requires Receiving(fields, st, i, items) && fields[i].Packable() && IsItem(fields[i], p)
    ensures DecodePlain(fields[i], p).Got? && |items| < fields[i].arraySize ==>
              Receiving(fields, Received(st, i, items + [DecodePlain(fields[i], p).value]), i, items + [DecodePlain(fields[i], p).value])
    ensures DecodeLoop(fields, st, TagBytes(fields[i].tag, WireType(fields[i].ltype)) + (p + tail))
            == if |items| >= fields[i].arraySize || DecodePlain(fields[i], p).Fail? then Failed
               else DecodeLoop(fields, Received(st, i, items + [DecodePlain(fields[i], p).value]), tail)
  {
    var f := fields[i];
    assert WfField(f);
    SlotAt(fields, st.slots, i, false);
    LoopDecodes(fields, st, i, WireType(f.ltype), p + tail);
    ItemAppends(f, items, p, tail);
  }

  lemma {:induction false} UnpackedIsPacked(fields: seq<Field>, st: State, i: nat, items: seq<Val>,
      ps: seq<seq<Byte>>, tail: seq<Byte>)
    requires Receiving(fields, st, i, items) && fields[i].Packable()
    requires forall k :: 0 <= k < |ps| ==> IsItem(fields[i], ps[k])
    ensures forall k :: 0 <= k < |items| ==> ValFits(fields[i], items[k], false)
    ensures WfField(fields[i])
    ensures var r := DecodePacked(fields[i], items, Concat(ps));
            && (r.Some? ==> StateFits(fields, Received(st, i, r.value)))
            && DecodeLoop(fields, st, UnpackedRecords(fields[i], ps) + tail)
               == if r.None? then Failed else DecodeLoop(fields, Received(st, i, r.value), tail)
    decreases |ps|
  {
    var f := fields[i];
    SlotAt(fields, st.slots, i, false);
    assert WfField(f);
    if ps == [] {
      assert UnpackedRecords(f, ps) + tail == tail;
      assert Received(st, i, items) == st;
    } else {
      PackedStep(f, items, ps);
      var rest := UnpackedRecords(f, ps[1..]) + tail;
      Regroup(TagBytes(f.tag, WireType(f.ltype)), ps[0], UnpackedRecords(f, ps[1..]), tail);
      UnpackedStep(fields, st, i, items, ps[0], rest);
      if |items| < f.arraySize && DecodePlain(f, ps[0]).Got? {
        var next := items + [DecodePlain(f, ps[0]).value];
        UnpackedIsPacked(fields, Received(st, i, next), i, next, ps[1..], tail);
        var r := DecodePacked(f, items, Concat(ps));
        if r.Some? { assert Received(Received(st, i, next), i, r.value) == Received(st, i, r.value); }
      }
    }
  }

  /** The state when fixed-count array `i` has been found and nothing of it received. */
  function Restarted(fields: seq<Field>, st: State, i: nat): (st': State)
    requires StateFits(fields, st) && i < |fields| && fields[i].FixedCount()
    ensures Receiving(fields, st', i, [])
  {
    StoreItemsFits(fields, st.slots, i, []);
    State(st.slots[i := Many([])], Some(i), st.seen)
  }

  lemma RestartedDecodes(fields: seq<Field>, st: State, i: nat, wireType: nat, bs: seq<Byte>)
    requires StateFits(fields, st) && i < |fields| && fields[i].FixedCount() && st.fixed != Some(i)
    ensures DecodeField(fields, st, i, wireType, bs)
            == if FixedDone(fields, st) then DecodeField(fields, Restarted(fields, st, i), i, wireType, bs) else Fail
  {
    SlotAt(fields, st.slots, i, false);
    var p := DecodeRepeated(fields[i], [], wireType, bs);
    if p.Got? { assert st.slots[i := Many([])][i := Many(p.value)] == st.slots[i := Many(p.value)]; }
  }

  lemma PackedDecodes(fields: seq<Field>, st: State, i: nat, items: seq<Val>, ps: seq<seq<Byte>>, tail: seq<Byte>)
    requires Receiving(fields, st, i, items) && fields[i].Packable()
    requires forall k :: 0 <= k < |ps| ==> IsItem(fields[i], ps[k])
    requires |Concat(ps)| < U32
    ensures DecodeLoop(fields, st, PackedRecord(fields[i], ps) + tail)
            == DecodeLoop(fields, st, UnpackedRecords(fields[i], ps) + tail)
  {
    var f := fields[i];
    SlotAt(fields, st.slots, i, false);
    var body := Delimited(Concat(ps)) + tail;
    assert PackedRecord(f, ps) + tail == TagBytes(f.tag, WT_STRING) + body;
    LoopDecodes(fields, st, i, WT_STRING, body);
    DelimitedInverts(Concat(ps), tail);
    UnpackedIsPacked(fields, st, i, items, ps, tail);
  }

  /** Wherever the loop stands, one packed record of some items and one record for each
      of them have the same effect: the same array, the same error. */
  lemma {:induction false} PackedAgreesWithUnpacked(fields: seq<Field>, st: State, i: nat, ps: seq<seq<Byte>>,
      tail: seq<Byte>)
    requires StateFits(fields, st) && i < |fields| && fields[i].htype.Repeated? && fields[i].Packable()
    requires forall k :: 0 <= k < |ps| ==> IsItem(fields[i], ps[k])
    requires |Concat(ps)| < U32 && (fields[i].FixedCount() ==> ps != [])
    ensures DecodeLoop(fields, st, PackedRecord(fields[i], ps) + tail)
            == DecodeLoop(fields, st, UnpackedRecords(fields[i], ps) + tail)
  {
    var f := fields[i];
    SlotAt(fields, st.slots, i, false);
    if f.FixedCount() && st.fixed != Some(i) {
      PackedAgreesAtStart(fields, st, i, ps, tail);
    } else {
      PackedDecodes(fields, st, i, st.slots[i].items, ps, tail);
    }
  }

  lemma PackedAgreesAtStart(fields: seq<Field>, st: State, i: nat, ps: seq<seq<Byte>>, tail: seq<Byte>)
    requires StateFits(fields, st) && i < |fields| && fields[i].htype.Repeated? && fields[i].Packable()
    requires forall k :: 0 <= k < |ps| ==> IsItem(fields[i], ps[k])
    requires |Concat(ps)| < U32 && fields[i].FixedCount() && ps != [] && st.fixed != Some(i)
    ensures DecodeLoop(fields, st, PackedRecord(fields[i], ps) + tail)
            == DecodeLoop(fields, st, UnpackedRecords(fields[i], ps) + tail)
  {
    var f := fields[i];
    var packed, unpacked := PackedRecord(f, ps) + tail, UnpackedRecords(f, ps) + tail;
    SlotAt(fields, st.slots, i, false);
    assert packed == TagBytes(f.tag, WT_STRING) + (Delimited(Concat(ps)) + tail);
    StartsWithRecord(fields, st, i, WT_STRING, packed, Delimited(Concat(ps)) + tail);
    Regroup(TagBytes(f.tag, WireType(f.ltype)), ps[0], UnpackedRecords(f, ps[1..]), tail);
    StartsWithRecord(fields, st, i, WireType(f.ltype), unpacked, ps[0] + (UnpackedRecords(f, ps[1..]) + tail));
    if FixedDone(fields, st) { PackedDecodes(fields, Restarted(fields, st, i), i, [], ps, tail); }
  }

  lemma StartsWithRecord(fields: seq<Field>, st: State, i: nat, wireType: nat, bs: seq<Byte>, body: seq<Byte>)
    requires StateFits(fields, st) && i < |fields| && fields[i].FixedCount() && st.fixed != Some(i)
    requires wireType < 8 && bs == TagBytes(fields[i].tag, wireType) + body
    ensures DecodeLoop(fields, st, bs)
            == if FixedDone(fields, st) then DecodeLoop(fields, Restarted(fields, st, i), bs) else Failed
  {
    LoopDecodes(fields, st, i, wireType, body);
    LoopDecodes(fields, Restarted(fields, st, i), i, wireType, body);
    RestartedDecodes(fields, st, i, wireType, body);
  }
}
