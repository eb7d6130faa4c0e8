/** What decoding leaves alone: storage that no record is for, at every depth. */
module Keeping {
  import opened Bits
  import opened Wire
  import opened Wrappers
  import opened Message
  import opened DecodeSpec
  import opened Presence

  // ------------------------------------------------ unions

  /** The members of a union follow each other, and all but the first are marked. */
  lemma {:induction false} UnionIsRun(fields: seq<Field>, i: nat, k: nat)
    requires i <= k < |fields|
    ensures SameUnion(fields, i, k)
       <==> (forall j :: i <= j <= k ==> fields[j].htype.OneOf?)
            && forall j :: i < j <= k ==> fields[j].dataOffset == 0xFFFF_FFFF
    decreases k - i
  {
    if i < k {
      UnionIsRun(fields, i, k - 1);
      if InUnionOfPrevious(fields, k) { assert UnionStart(fields, k) == UnionStart(fields, k - 1); }
    }
  }

  // ------------------------------------------------ places in a structure

  /** A field that holds one submessage, which its records are merged into. */
  predicate HoldsMessage(f: Field) {
    f.ltype.Submessage? && !f.htype.Repeated?
  }

  /** The field that a path of indices leads to, each but the last through a submessage. */
  function FieldAt(fields: seq<Field>, path: seq<nat>): Option<Field>
    decreases |path|
  {
    if path == [] || path[0] >= |fields| then None
    else if |path| == 1 then Some(fields[path[0]])
    else if HoldsMessage(fields[path[0]]) then FieldAt(fields[path[0]].ltype.fields, path[1..])
    else None
  }

  /** What is stored for a field; None for a union member that is not the current one. */
  function Held(s: Slot): Option<Val> {
    match s
    case Single(v) => Some(v)
    case Opt(_, v) => Some(v)
    case Many(_) => None
    case Member(cur) => cur
  }

  /** The storage that a path leads to. */
  function At(fields: seq<Field>, slots: seq<Slot>, path: seq<nat>): (s: Option<Slot>)
    ensures s.Some? ==> FieldAt(fields, path).Some?
    decreases |path|
  {
    if path == [] || path[0] >= |fields| || path[0] >= |slots| then None
    else if |path| == 1 then Some(slots[path[0]])
    else
      var v := Held(slots[path[0]]);
      if HoldsMessage(fields[path[0]]) && v.Some? && v.value.Msg? then
        At(fields[path[0]].ltype.fields, v.value.slots, path[1..])
      else None
  }

  // ------------------------------------------------ what the records are for

  /** Whether the loop meets a record for the storage at `path`, or for another member of a
      union on the way to it. */
  ghost predicate Meets(fields: seq<Field>, st: State, bs: seq<Byte>, path: seq<nat>)
    requires StateFits(fields, st)
    decreases |bs|, 2
  {
    bs != []
    && var t := ParseTag(bs);
       t.Tag?
       && (RecordMeets(fields, st, t.number, t.rest, path)
           || var p := DecodeRecord(fields, st, t.number, t.wireType, t.rest);
              p.Got? && Meets(fields, p.value, p.rest, path))
  }

  ghost predicate RecordMeets(fields: seq<Field>, st: State, tag: nat, bs: seq<Byte>, path: seq<nat>)
    requires StateFits(fields, st)
    decreases |bs|, 1
  {
    var k := FindField(fields, tag);
    path != [] && path[0] < |fields| && k.Some?
    && if k.value != path[0] then SameUnion(fields, path[0], k.value)
       else if |path| == 1 || !HoldsMessage(fields[k.value]) then true
       else BodyMeets(fields, st, k.value, bs, path[1..])
  }

  /** Inside a submessage, read over what is stored for it. */
  ghost predicate BodyMeets(fields: seq<Field>, st: State, i: nat, bs: seq<Byte>, path: seq<nat>)
    requires StateFits(fields, st) && i < |fields| && HoldsMessage(fields[i])
    decreases |bs|, 0
  {
    var sub, p := fields[i].ltype.fields, ParseDelimited(bs);
    p.Got?
    && (StartFits(fields, st, i);
        Meets(sub, State(Start(fields[i], st.slots[i]), None, {}), p.value, path))
  }

  /** What a submessage is read over: what is stored, or defaults for a union member that is
      not the current one. */
  function Start(f: Field, s: Slot): seq<Slot>
    requires HoldsMessage(f)
  {
    if Held(s).Some? && Held(s).value.Msg? then Held(s).value.slots else DefaultSlots(f.ltype.fields)
  }

  lemma StartFits(fields: seq<Field>, st: State, i: nat)
    requires StateFits(fields, st) && i < |fields| && HoldsMessage(fields[i])
    ensures WfFields(fields[i].ltype.fields) && Fits(fields[i].ltype.fields, Start(fields[i], st.slots[i]), false)
  {
    assert WfField(fields[i]);
    SlotAt(fields, st.slots, i, false);
    DefaultsFit(fields[i].ltype.fields);
  }

  // ------------------------------------------------ one record

  /** What is there after a value has been read: it is marked as present. */
  predicate Holds(f: Field, s: Slot, v: Val) {
    match f.htype
    case Required => s == Single(v)
    case Optional => s == if f.sizeOffset != 0 then Opt(true, v) else Single(v)
    case Repeated => false
    case OneOf => s == Member(Some(v))
  }

  /** A submessage is merged into what is stored for it, and marked as present. */
  lemma MergesInto(fields: seq<Field>, st: State, i: nat, wireType: nat, bs: seq<Byte>)
    requires StateFits(fields, st) && i < |fields| && HoldsMessage(fields[i])
    requires DecodeField(fields, st, i, wireType, bs).Got?
    ensures WfFields(fields[i].ltype.fields) && Fits(fields[i].ltype.fields, Start(fields[i], st.slots[i]), false)
    ensures var z, body := DecodeField(fields, st, i, wireType, bs).value, ParseDelimited(bs);
            body.Got?
            && var m := DecodeNoinit(fields[i].ltype.fields, Start(fields[i], st.slots[i]), body.value);
               m.Got? && Holds(fields[i], z.slots[i], Msg(m.value))
  {
    StartFits(fields, st, i);
    SlotAt(fields, st.slots, i, false);
    DefaultFits(fields[i]);
  }

  /** A record of another field, and not of a member of the same union. */
  lemma OthersStay(fields: seq<Field>, st: State, k: nat, wireType: nat, bs: seq<Byte>, i: nat)
    requires StateFits(fields, st) && k < |fields| && i < |fields| && i != k && !SameUnion(fields, i, k)
    requires DecodeField(fields, st, k, wireType, bs).Got?
    ensures DecodeField(fields, st, k, wireType, bs).value.slots[i] == st.slots[i]
  {
    SlotAt(fields, st.slots, k, false);
    SlotAt(fields, st.slots, i, false);
  }

  lemma AtSame(fields: seq<Field>, slots: seq<Slot>, others: seq<Slot>, path: seq<nat>)
    requires path != [] && path[0] < |fields| == |slots| == |others| && slots[path[0]] == others[path[0]]
    ensures At(fields, slots, path) == At(fields, others, path)
  {
  }

  lemma {:induction false} RecordKeeps(fields: seq<Field>, st: State, tag: nat, wireType: nat, bs: seq<Byte>, path: seq<nat>)
    requires StateFits(fields, st) && At(fields, st.slots, path).Some?
    requires DecodeRecord(fields, st, tag, wireType, bs).Got? && !RecordMeets(fields, st, tag, bs, path)
    ensures At(fields, DecodeRecord(fields, st, tag, wireType, bs).value.slots, path) == At(fields, st.slots, path)
    decreases |bs|, 0
  {
    var k := FindField(fields, tag);
    if k.Some? {
      var i := path[0];
      var z := DecodeField(fields, st, k.value, wireType, bs).value;
      if k.value != i {
        OthersStay(fields, st, k.value, wireType, bs, i);
        AtSame(fields, st.slots, z.slots, path);
      } else {
        MergesInto(fields, st, i, wireType, bs);
        NoinitKeeps(fields[i].ltype.fields, Start(fields[i], st.slots[i]), ParseDelimited(bs).value, path[1..]);
      }
    }
  }

  // ------------------------------------------------ messages

  lemma {:induction false} LoopKeeps(fields: seq<Field>, st: State, bs: seq<Byte>, path: seq<nat>)
    requires StateFits(fields, st) && At(fields, st.slots, path).Some?
    requires !DecodeLoop(fields, st, bs).Failed? && !Meets(fields, st, bs, path)
    ensures At(fields, DecodeLoop(fields, st, bs).st.slots, path) == At(fields, st.slots, path)
    decreases |bs|, 1
  {
    if bs != [] && ParseTag(bs).Tag? {
      var t := ParseTag(bs);
      RecordKeeps(fields, st, t.number, t.wireType, t.rest, path);
      var p := DecodeRecord(fields, st, t.number, t.wireType, t.rest);
      LoopKeeps(fields, p.value, p.rest, path);
    }
  }

  /** pb_decode_noinit, at every depth: what no record is for, and no record of a union that
      it belongs to, is what it was. */
  lemma {:induction false} NoinitKeeps(fields: seq<Field>, slots: seq<Slot>, bs: seq<Byte>, path: seq<nat>)
    requires WfFields(fields) && Fits(fields, slots, false) && At(fields, slots, path).Some?
    requires DecodeNoinit(fields, slots, bs).Got? && !Meets(fields, State(slots, None, {}), bs, path)
    ensures At(fields, DecodeNoinit(fields, slots, bs).value, path) == At(fields, slots, path)
    decreases |bs|, 2
  {
    LoopKeeps(fields, State(slots, None, {}), bs, path);
  }

  /** For a field of the message itself: neither its tag nor that of a member of its union. */
  lemma {:induction false} MeetsOwnTag(fields: seq<Field>, st: State, bs: seq<Byte>, i: nat)
    requires StateFits(fields, st) && i < |fields|
    requires fields[i].tag !in TagsMet(fields, st, bs)
    requires forall k :: 0 <= k < |fields| && SameUnion(fields, i, k) ==> fields[k].tag !in TagsMet(fields, st, bs)
    ensures !Meets(fields, st, bs, [i])
    decreases |bs|
  {
    if bs != [] && ParseTag(bs).Tag? {
      var t := ParseTag(bs);
      assert t.number in TagsMet(fields, st, bs);
      var p := DecodeRecord(fields, st, t.number, t.wireType, t.rest);
      if p.Got? { MeetsOwnTag(fields, p.value, p.rest, i); }
    }
  }

  lemma UnmetIsKept(fields: seq<Field>, slots: seq<Slot>, bs: seq<Byte>, i: nat, met: set<nat>)
    requires WfFields(fields) && Fits(fields, slots, false) && i < |fields| && DecodeNoinit(fields, slots, bs).Got?
    requires met == TagsMet(fields, State(slots, None, {}), bs)
    requires fields[i].tag !in met && forall k :: 0 <= k < |fields| && SameUnion(fields, i, k) ==> fields[k].tag !in met
    ensures DecodeNoinit(fields, slots, bs).value[i] == slots[i]
  {
    MeetsOwnTag(fields, State(slots, None, {}), bs, i);
    NoinitKeeps(fields, slots, bs, [i]);
  }
}
