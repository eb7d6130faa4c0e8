/** How submessages are read: into what is stored for them, or, for the entries of an array,
    into new storage. */
module Submessages {
  import opened Bits
  import opened Wire
  import opened Wrappers
  import opened Message
  import opened EncodeSpec
  import opened DecodeSpec
  import opened Inverse
  import opened Merge
  import opened Keeping

  /** A record of a submessage: header, length and body. */
  function Record(f: Field, body: seq<Byte>): seq<Byte> {
    TagBytes(f.tag, 2) + Delimited(body)
  }

  /** The state after a submessage has been read. */
  function Put(fields: seq<Field>, st: State, i: nat, slots: seq<Slot>): State
    requires i < |fields| == |st.slots|
  {
    State(Store(fields, st.slots, i, Msg(slots)), st.fixed, Seen(fields, st.seen, i))
  }

  lemma TargetIsStart(fields: seq<Field>, st: State, i: nat)
    requires StateFits(fields, st) && i < |fields| && HoldsMessage(fields[i])
    ensures RightKind(fields[i], st.slots[i]) && !st.slots[i].Many? && WfField(fields[i])
    ensures Target(fields[i], st.slots[i]) == Msg(Start(fields[i], st.slots[i]))
    ensures ValFits(fields[i], Target(fields[i], st.slots[i]), false)
  {
    assert WfField(fields[i]);
    SlotAt(fields, st.slots, i, false);
    DefaultFits(fields[i]);
  }

  /** A submessage of a field that is not an array is read over what is stored. */
  lemma ReadsOver(f: Field, slots: seq<Slot>, body: seq<Byte>, tail: seq<Byte>)
    requires WfField(f) && HoldsMessage(f) && ValFits(f, Msg(slots), false) && |body| < U32
    ensures var m := DecodeNoinit(f.ltype.fields, slots, body);
            DecodeVal(f, Msg(slots), Delimited(body) + tail) == if m.Fail? then Fail else Got(Msg(m.value), tail)
  {
    DelimitedInverts(body, tail);
  }

  /** What one record of a submessage does: its body is read over what is stored. */
  lemma ReadsOne(fields: seq<Field>, st: State, i: nat, body: seq<Byte>, tail: seq<Byte>)
    requires StateFits(fields, st) && i < |fields| && HoldsMessage(fields[i]) && |body| < U32
    ensures WfFields(fields[i].ltype.fields) && Fits(fields[i].ltype.fields, Start(fields[i], st.slots[i]), false)
    ensures var m := DecodeNoinit(fields[i].ltype.fields, Start(fields[i], st.slots[i]), body);
            DecodeField(fields, st, i, 2, Delimited(body) + tail)
            == if m.Fail? then Fail else Got(Put(fields, st, i, m.value), tail)
  {
    StartFits(fields, st, i);
    TargetIsStart(fields, st, i);
    ReadsOver(fields[i], Start(fields[i], st.slots[i]), body, tail);
  }

  lemma LoopReadsOne(fields: seq<Field>, st: State, i: nat, body: seq<Byte>, tail: seq<Byte>)
    requires StateFits(fields, st) && i < |fields|
    ensures DecodeLoop(fields, st, Record(fields[i], body) + tail)
            == match DecodeField(fields, st, i, 2, Delimited(body) + tail)
               case Fail => Failed
               case Got(st', rest) => DecodeLoop(fields, st', rest)
  {
    assert Record(fields[i], body) + tail == TagBytes(fields[i].tag, 2) + (Delimited(body) + tail);
    LoopDecodes(fields, st, i, 2, Delimited(body) + tail);
  }

  /** What has been read is what the next record is read over, and replaces. */
  lemma PutTwice(fields: seq<Field>, st: State, i: nat, slots: seq<Slot>, others: seq<Slot>)
    requires StateFits(fields, st) && i < |fields| && HoldsMessage(fields[i])
    ensures Start(fields[i], Put(fields, st, i, slots).slots[i]) == slots
    ensures Put(fields, Put(fields, st, i, slots), i, others) == Put(fields, st, i, others)
  {
    SlotAt(fields, st.slots, i, false);
    var z := Put(fields, st, i, slots);
    assert Store(fields, z.slots, i, Msg(others)) == Store(fields, st.slots, i, Msg(others));
  }

  /** A submessage sent in two records is merged: from any state, the record of `a` followed by
      the record of `b` does what one record of `a` followed by `b` does, when both can be
      read, `a` is not ended by a zero tag, and `b` does not begin with the fixed-count array
      that `a` ended with; with that array the one record is refused. */
  lemma RecordsMerge(fields: seq<Field>, st: State, i: nat, a: seq<Byte>, b: seq<Byte>, tail: seq<Byte>)
    requires StateFits(fields, st) && i < |fields| && HoldsMessage(fields[i]) && |a| + |b| < U32
    requires WfFields(fields[i].ltype.fields) && Fits(fields[i].ltype.fields, Start(fields[i], st.slots[i]), false)
    requires var sub, slots := fields[i].ltype.fields, Start(fields[i], st.slots[i]);
             DecodeLoop(sub, State(slots, None, {}), a).AtEnd? && DecodeNoinit(sub, slots, a).Got?
             && DecodeNoinit(sub, DecodeNoinit(sub, slots, a).value, b).Got?
    ensures var sub, slots := fields[i].ltype.fields, Start(fields[i], st.slots[i]);
            var end := DecodeLoop(sub, State(slots, None, {}), a).st;
            var one := DecodeLoop(fields, st, Record(fields[i], a + b) + tail);
            if end.fixed.Some? && FirstFixed(sub, State(end.slots, None, {}), b) == end.fixed then one == Failed
            else one == DecodeLoop(fields, st, Record(fields[i], a) + (Record(fields[i], b) + tail))
  {
    var sub, slots := fields[i].ltype.fields, Start(fields[i], st.slots[i]);
    var first := DecodeNoinit(sub, slots, a).value;
    Concatenation(sub, slots, a, b);
    ReadsOne(fields, st, i, a + b, tail);
    LoopReadsOne(fields, st, i, a + b, tail);
    ReadsOne(fields, st, i, a, Record(fields[i], b) + tail);
    LoopReadsOne(fields, st, i, a, Record(fields[i], b) + tail);
    var z := Put(fields, st, i, first);
    PutTwice(fields, st, i, first, DecodeNoinit(sub, first, b).value);
    ReadsOne(fields, z, i, b, tail);
    LoopReadsOne(fields, z, i, b, tail);
  }

  /** An empty record of a submessage without required fields changes nothing. */
  lemma EmptyRecordKeeps(f: Field, slots: seq<Slot>, tail: seq<Byte>)
    requires WfField(f) && HoldsMessage(f) && ValFits(f, Msg(slots), false)
    requires forall sub :: sub in f.ltype.fields ==> !sub.htype.Required?
    ensures DecodeVal(f, Msg(slots), [0] + tail) == Got(Msg(slots), tail)
  {
    assert Delimited([]) + tail == [0] + tail;
    ReadsOver(f, slots, [], tail);
    NoneRequired(f.ltype.fields, |f.ltype.fields|);
  }

  lemma {:induction false} NoneRequired(fields: seq<Field>, i: nat)
    requires i <= |fields| && forall f :: f in fields ==> !f.htype.Required?
    ensures RequiredBefore(fields, i) == 0
  {
    if i > 0 { NoneRequired(fields, i - 1); }
  }

  // ------------------------------------------------ other values

  /** Of a number, string or bytes the last record wins: it replaces what is stored. */
  lemma LastOneWins(fields: seq<Field>, st: State, i: nat, wireType: nat, bs: seq<Byte>)
    requires StateFits(fields, st) && i < |fields| && !fields[i].ltype.Submessage? && !fields[i].htype.Repeated?
    ensures var p, q := DecodePlain(fields[i], bs), DecodeField(fields, st, i, wireType, bs);
            if p.Fail? then q.Fail?
            else q.Got? && q.rest == p.rest && |q.value.slots| == |fields| && Holds(fields[i], q.value.slots[i], p.value)
  {
    SlotAt(fields, st.slots, i, false);
    DefaultFits(fields[i]);
  }

  /** An entry of an array is appended after those that are there, if there is room. */
  lemma EntryIsAppended(f: Field, items: seq<Val>, wireType: nat, bs: seq<Byte>)
    requires WfField(f) && !f.ltype.Submessage? && f.htype.Repeated? && !(wireType == 2 && f.Packable())
    requires forall k :: 0 <= k < |items| ==> ValFits(f, items[k], false)
    ensures var p, q := DecodePlain(f, bs), DecodeRepeated(f, items, wireType, bs);
            if p.Fail? || |items| >= f.arraySize then q.Fail? else q == Got(items + [p.value], p.rest)
  {
    DefaultFits(f);
    PlainDecodes(f, bs);
  }

  // ------------------------------------------------ new storage

  /** An entry of an array of submessages is what pb_decode makes of its body, whatever the
      storage held. */
  lemma NewEntryIsDecoded(f: Field, items: seq<Val>, body: seq<Byte>, tail: seq<Byte>)
    requires WfField(f) && f.ltype.Submessage? && f.htype.Repeated? && |body| < U32
    requires forall k :: 0 <= k < |items| ==> ValFits(f, items[k], false)
    ensures var entry := Decode(f.ltype.fields, body);
            DecodeRepeated(f, items, 2, Delimited(body) + tail)
            == if |items| >= f.arraySize || entry.Fail? then Fail else Got(items + [Msg(entry.value)], tail)
  {
    DefaultFits(f);
    DelimitedInverts(body, tail);
    var bs := Delimited(body) + tail;
    assert SubmessageStart(f, DefaultVal(f)) == DefaultSlots(f.ltype.fields);
    assert DecodeVal(f, DefaultVal(f), bs)
        == match Decode(f.ltype.fields, body)
           case Fail => Fail
           case Got(slots, _) => Got(Msg(slots), tail);
  }

  /** And so is a union member that was not the current one; the others are cleared. */
  lemma NewMemberIsDecoded(fields: seq<Field>, st: State, i: nat, body: seq<Byte>, tail: seq<Byte>)
    requires StateFits(fields, st) && i < |fields| && |body| < U32
    requires fields[i].ltype.Submessage? && st.slots[i] == Member(None)
    ensures WfFields(fields[i].ltype.fields)
    ensures var member := Decode(fields[i].ltype.fields, body);
            var p := DecodeField(fields, st, i, 2, Delimited(body) + tail);
            if member.Fail? then p.Fail?
            else
              p.Got? && p.rest == tail && |p.value.slots| == |fields|
              && forall k :: 0 <= k < |fields| ==>
                   p.value.slots[k] == if k == i then Member(Some(Msg(member.value)))
                                       else if SameUnion(fields, i, k) then Member(None) else st.slots[k]
  {
    assert WfField(fields[i]);
    SlotAt(fields, st.slots, i, false);
    DefaultFits(fields[i]);
    DelimitedInverts(body, tail);
  }
}
