/** Decoding into a structure that already holds a message: decoding the concatenation
    of two encodings is decoding one after the other ("Last One Wins"). */
module Merge {
  import opened Bits
  import opened Wire
  import opened WireProofs
  import opened Wrappers
  import opened Message
  import opened DecodeSpec

  // ------------------------------------ reading ignores what follows a record

  lemma PlainExtends(f: Field, bs: seq<Byte>, tail: seq<Byte>)
    requires DecodePlain(f, bs).Got?
    ensures DecodePlain(f, bs + tail) == DecodePlain(f, bs).Before(tail)
  {
    match f.ltype
    case Bool => Varint32Extends(bs, tail);
    case Varint => VarintExtends(bs, tail);
    case UVarint => VarintExtends(bs, tail);
    case SVarint => VarintExtends(bs, tail);
    case Fixed32 => RawExtends(bs, 4, tail);
    case Fixed64 => RawExtends(bs, 8, tail);
    case BytesArray => StringExtends(bs, tail);
    case CString => StringExtends(bs, tail);
    case FixedLengthBytes => StringExtends(bs, tail);
    case Submessage(_) =>
    case Extension =>
  }

  lemma StringExtends(bs: seq<Byte>, tail: seq<Byte>)
    requires ParseVarint32(bs).Got?
    ensures ParseVarint32(bs + tail) == ParseVarint32(bs).Before(tail)
    ensures ParseVarint32(bs).value <= |ParseVarint32(bs).rest| ==>
              ParseRaw(ParseVarint32(bs).rest + tail, ParseVarint32(bs).value)
              == ParseRaw(ParseVarint32(bs).rest, ParseVarint32(bs).value).Before(tail)
  {
    Varint32Extends(bs, tail);
    var p := ParseVarint32(bs);
    if p.value <= |p.rest| { RawExtends(p.rest, p.value, tail); }
  }

  lemma ValExtends(f: Field, cur: Val, bs: seq<Byte>, tail: seq<Byte>)
    requires WfField(f) && ValFits(f, cur, false) && DecodeVal(f, cur, bs).Got?
    ensures DecodeVal(f, cur, bs + tail) == DecodeVal(f, cur, bs).Before(tail)
  {
    if f.ltype.Submessage? { DelimitedExtends(bs, tail); } else { PlainExtends(f, bs, tail); }
  }

  lemma RepeatedExtends(f: Field, items: seq<Val>, wireType: nat, bs: seq<Byte>, tail: seq<Byte>)
    requires WfField(f) && forall k :: 0 <= k < |items| ==> ValFits(f, items[k], false)
    requires DecodeRepeated(f, items, wireType, bs).Got?
    ensures DecodeRepeated(f, items, wireType, bs + tail) == DecodeRepeated(f, items, wireType, bs).Before(tail)
  {
    if wireType == WT_STRING && f.Packable() {
      DelimitedExtends(bs, tail);
    } else {
      DefaultFits(f);
      ValExtends(f, DefaultVal(f), bs, tail);
    }
  }

  lemma FieldExtends(fields: seq<Field>, st: State, i: nat, wireType: nat, bs: seq<Byte>, tail: seq<Byte>)
    requires StateFits(fields, st) && i < |fields| && DecodeField(fields, st, i, wireType, bs).Got?
    ensures DecodeField(fields, st, i, wireType, bs + tail) == DecodeField(fields, st, i, wireType, bs).Before(tail)
  {
    var f := fields[i];
    SlotAt(fields, st.slots, i, false);
    if f.htype.Repeated? {
      RepeatedExtends(f, if f.FixedCount() && st.fixed != Some(i) then [] else st.slots[i].items, wireType, bs, tail);
    } else {
      DefaultFits(f);
      ValExtends(f, Target(f, st.slots[i]), bs, tail);
    }
  }

  lemma RecordExtends(fields: seq<Field>, st: State, tag: nat, wireType: nat, bs: seq<Byte>, tail: seq<Byte>)
    requires StateFits(fields, st) && DecodeRecord(fields, st, tag, wireType, bs).Got?
    ensures DecodeRecord(fields, st, tag, wireType, bs + tail) == DecodeRecord(fields, st, tag, wireType, bs).Before(tail)
  {
    match FindField(fields, tag)
    case Some(i) => FieldExtends(fields, st, i, wireType, bs, tail);
    case None => SkipExtends(wireType, bs, tail);
  }

  /** The loop over `a` followed by `b`, when it gets to the end of `a`, goes on with `b`
      from the state reached there. */
  lemma {:induction false} LoopAppends(fields: seq<Field>, st: State, a: seq<Byte>, b: seq<Byte>)
    requires StateFits(fields, st) && DecodeLoop(fields, st, a).AtEnd?
    ensures DecodeLoop(fields, st, a + b) == DecodeLoop(fields, DecodeLoop(fields, st, a).st, b)
    decreases |a|
  {
    if a == [] {
      assert a + b == b;
    } else {
      var t := ParseTag(a);
      TagExtends(a, b);
      RecordExtends(fields, st, t.number, t.wireType, t.rest, b);
      var p := DecodeRecord(fields, st, t.number, t.wireType, t.rest);
      LoopAppends(fields, p.value, p.rest, b);
    }
  }

  /** A zero tag ends the message: what follows it is not looked at. */
  lemma {:induction false} LoopStopsAtZero(fields: seq<Field>, st: State, a: seq<Byte>, b: seq<Byte>)
    requires StateFits(fields, st) && DecodeLoop(fields, st, a).AtZero?
    ensures DecodeLoop(fields, st, a + b)
            == AtZero(DecodeLoop(fields, st, a).st, DecodeLoop(fields, st, a).rest + b)
    decreases |a|
  {
    TagExtends(a, b);
    var t := ParseTag(a);
    if t.Tag? {
      RecordExtends(fields, st, t.number, t.wireType, t.rest, b);
      var p := DecodeRecord(fields, st, t.number, t.wireType, t.rest);
      LoopStopsAtZero(fields, p.value, p.rest, b);
    }
  }

  // ---------------------------------------------------- starting afresh

  /** The first fixed-count array of which the loop meets a record. */
  function FirstFixed(fields: seq<Field>, st: State, bs: seq<Byte>): Option<nat>
    requires StateFits(fields, st)
    decreases |bs|
  {
    if bs == [] then None
    else
      match ParseTag(bs)
      case BadTag => None
      case ZeroTag(_) => None
      case Tag(tag, wireType, rest) =>
        var i := FindField(fields, tag);
        if i.Some? && fields[i.value].FixedCount() then i
        else
          match DecodeRecord(fields, st, tag, wireType, rest)
          case Fail => None
          case Got(st', rest') => FirstFixed(fields, st', rest')
  }

  /** `st` has got at least as far as `u` with the same structure: it has seen more
      required fields, and either both are receiving the same fixed-count array or `u`
      is receiving none and will not start with the one that `st` has completed. */
  ghost predicate Ahead(fields: seq<Field>, st: State, u: State, bs: seq<Byte>) {
    && StateFits(fields, st) && StateFits(fields, u)
    && st.slots == u.slots && u.seen <= st.seen
    && (u.fixed == st.fixed
        || (u.fixed.None? && FixedDone(fields, st) && FirstFixed(fields, u, bs) != st.fixed))
  }

  /** A field that has a count, or none at all, does not look at the array in progress. */
  lemma CountedIgnoresFixed(fields: seq<Field>, st: State, u: State, i: nat, wireType: nat, bs: seq<Byte>)
    requires StateFits(fields, st) && StateFits(fields, u) && st.slots == u.slots
    requires i < |fields| && !fields[i].FixedCount()
    ensures DecodeField(fields, st, i, wireType, bs)
            == match DecodeField(fields, u, i, wireType, bs)
               case Fail => Fail
               case Got(u', rest) => Got(State(u'.slots, st.fixed, Seen(fields, st.seen, i)), rest)
  {
    SlotAt(fields, st.slots, i, false);
  }

  /** Storing into a field leaves the elements of every other array as they are. */
  lemma OtherArraysKept(fields: seq<Field>, st: State, i: nat, wireType: nat, bs: seq<Byte>, j: nat)
    requires StateFits(fields, st) && i < |fields| && j < |fields| && j != i && fields[j].htype.Repeated?
    requires DecodeField(fields, st, i, wireType, bs).Got?
    ensures DecodeField(fields, st, i, wireType, bs).value.slots[j] == st.slots[j]
  {
    SlotAt(fields, st.slots, i, false);
    SlotAt(fields, st.slots, j, false);
  }

  lemma FieldKeepsAhead(fields: seq<Field>, st: State, u: State, i: nat, wireType: nat, bs: seq<Byte>)
    requires StateFits(fields, st) && StateFits(fields, u) && st.slots == u.slots && u.seen <= st.seen
    requires i < |fields| && DecodeField(fields, u, i, wireType, bs).Got?
    requires u.fixed == st.fixed || (u.fixed.None? && FixedDone(fields, st) && Some(i) != st.fixed)
    ensures DecodeField(fields, st, i, wireType, bs).Got?
    ensures var p, q := DecodeField(fields, st, i, wireType, bs), DecodeField(fields, u, i, wireType, bs);
            && p.rest == q.rest && p.value.slots == q.value.slots && q.value.seen <= p.value.seen
            && (p.value.fixed == q.value.fixed
                || (q.value.fixed.None? && p.value.fixed == st.fixed && FixedDone(fields, p.value) && !fields[i].FixedCount()))
  {
    SlotAt(fields, st.slots, i, false);
    if fields[i].FixedCount() {
    } else {
      CountedIgnoresFixed(fields, st, u, i, wireType, bs);
      CountedIgnoresFixed(fields, u, u, i, wireType, bs);
      if st.fixed.Some? {
        OtherArraysKept(fields, u, i, wireType, bs, st.fixed.value);
      }
    }
  }

  lemma {:induction false} Resumes(fields: seq<Field>, st: State, u: State, bs: seq<Byte>)
    requires Ahead(fields, st, u, bs)
    requires Finish(fields, DecodeLoop(fields, u, bs)).Got?
    ensures Finish(fields, DecodeLoop(fields, st, bs)) == Finish(fields, DecodeLoop(fields, u, bs))
    decreases |bs|
  {
    if bs != [] {
      var t := ParseTag(bs);
      if t.Tag? {
        var i := FindField(fields, t.number);
        if i.Some? {
          FieldKeepsAhead(fields, st, u, i.value, t.wireType, t.rest);
        }
        var p, q := DecodeRecord(fields, st, t.number, t.wireType, t.rest), DecodeRecord(fields, u, t.number, t.wireType, t.rest);
        Resumes(fields, p.value, q.value, q.rest);
      }
    }
  }

  // ------------------------------- the fixed-count array that is continued

  /** `st` holds all elements of fixed-count array `j`, which `u` has yet to receive
      again; otherwise the two are alike. */
  ghost predicate Full(fields: seq<Field>, st: State, u: State, j: nat) {
    && StateFits(fields, st) && StateFits(fields, u) && j < |fields|
    && st.fixed == Some(j) && FixedDone(fields, st)
    && st.slots == u.slots[j := st.slots[j]]
  }

  lemma CountedIgnoresArray(fields: seq<Field>, st: State, u: State, j: nat, i: nat, wireType: nat, bs: seq<Byte>)
    requires Full(fields, st, u, j) && i < |fields| && !fields[i].FixedCount()
    requires DecodeField(fields, u, i, wireType, bs).Got?
    ensures DecodeField(fields, st, i, wireType, bs).Got?
    ensures var p, q := DecodeField(fields, st, i, wireType, bs), DecodeField(fields, u, i, wireType, bs);
            && p.rest == q.rest && q.value.fixed == u.fixed && q.value.slots[j] == u.slots[j]
            && Full(fields, p.value, q.value, j)
  {
    SlotAt(fields, st.slots, i, false);
    SlotAt(fields, st.slots, j, false);
    SlotAt(fields, u.slots, i, false);
    var p, q := DecodeField(fields, st, i, wireType, bs), DecodeField(fields, u, i, wireType, bs);
    assert st.slots[i] == u.slots[i];
    assert p.value.slots == q.value.slots[j := st.slots[j]];
  }

  /** The only record that a full array takes is an empty packed one. */
  lemma FullTakesNothing(f: Field, items: seq<Val>, others: seq<Val>, wireType: nat, bs: seq<Byte>)
    requires WfField(f) && |items| == f.arraySize
    requires forall k :: 0 <= k < |items| ==> ValFits(f, items[k], false)
    requires forall k :: 0 <= k < |others| ==> ValFits(f, others[k], false)
    requires DecodeRepeated(f, items, wireType, bs).Got?
    ensures DecodeRepeated(f, items, wireType, bs).value == items
    ensures DecodeRepeated(f, others, wireType, bs) == Got(others, DecodeRepeated(f, items, wireType, bs).rest)
  {
  }

  /** More elements for a full array are refused; a packed record may be empty. */
  lemma FullRefuses(fields: seq<Field>, st: State, u: State, j: nat, wireType: nat, bs: seq<Byte>)
    requires Full(fields, st, u, j) && (u.fixed.None? || u.fixed == Some(j))
    requires DecodeField(fields, u, j, wireType, bs).Got? && DecodeField(fields, st, j, wireType, bs).Got?
    ensures var p, q := DecodeField(fields, st, j, wireType, bs), DecodeField(fields, u, j, wireType, bs);
            && p.rest == q.rest && q.value.fixed == Some(j) && Full(fields, p.value, q.value, j)
            && q.value.slots[j] == if u.fixed.None? then Many([]) else u.slots[j]
  {
    SlotAt(fields, st.slots, j, false);
    SlotAt(fields, u.slots, j, false);
    assert WfField(fields[j]);
    FullTakesNothing(fields[j], st.slots[j].items, if u.fixed.None? then [] else u.slots[j].items, wireType, bs);
  }

  /** Another fixed-count array is refused while one is incomplete. */
  lemma IncompleteBlocks(fields: seq<Field>, u: State, i: nat, wireType: nat, bs: seq<Byte>)
    requires StateFits(fields, u) && i < |fields| && fields[i].FixedCount()
    requires u.fixed.Some? && u.fixed != Some(i) && !FixedDone(fields, u)
    ensures DecodeField(fields, u, i, wireType, bs) == Fail
  {
  }

  lemma {:induction false} FullIsStuck(fields: seq<Field>, st: State, u: State, j: nat, bs: seq<Byte>)
    requires Full(fields, st, u, j)
    requires if u.fixed.None? then FirstFixed(fields, u, bs) == Some(j) else u.fixed == Some(j) && !FixedDone(fields, u)
    requires Finish(fields, DecodeLoop(fields, u, bs)).Got?
    ensures DecodeLoop(fields, st, bs).Failed?
    decreases |bs|
  {
    var t := ParseTag(bs);
    var i := FindField(fields, t.number);
    var p, q := DecodeRecord(fields, st, t.number, t.wireType, t.rest), DecodeRecord(fields, u, t.number, t.wireType, t.rest);
    if i == Some(j) {
      assert WfField(fields[j]);
      if p.Got? {
        FullRefuses(fields, st, u, j, t.wireType, t.rest);
        FullIsStuck(fields, p.value, q.value, j, q.rest);
      }
    } else if i.None? {
      FullIsStuck(fields, p.value, q.value, j, q.rest);
    } else if !fields[i.value].FixedCount() {
      CountedIgnoresArray(fields, st, u, j, i.value, t.wireType, t.rest);
      FullIsStuck(fields, p.value, q.value, j, q.rest);
    } else {
      if u.fixed.Some? { IncompleteBlocks(fields, u, i.value, t.wireType, t.rest); }
      assert false;
    }
  }

  /** Decoding A and then B into the result, when both succeed and A is not ended by a
      zero tag, is decoding A followed by B, unless the first fixed-count array in B is
      the one that A ended with: then A followed by B is refused. */
  lemma Concatenation(fields: seq<Field>, slots: seq<Slot>, a: seq<Byte>, b: seq<Byte>)
    requires WfFields(fields) && Fits(fields, slots, false)
    requires DecodeLoop(fields, State(slots, None, {}), a).AtEnd?
    requires DecodeNoinit(fields, slots, a).Got?
    requires DecodeNoinit(fields, DecodeNoinit(fields, slots, a).value, b).Got?
    ensures var st := DecodeLoop(fields, State(slots, None, {}), a).st;
            DecodeNoinit(fields, slots, a + b)
            == if st.fixed.Some? && FirstFixed(fields, State(st.slots, None, {}), b) == st.fixed then Fail
               else DecodeNoinit(fields, DecodeNoinit(fields, slots, a).value, b)
  {
    LoopAppends(fields, State(slots, None, {}), a, b);
    var st := DecodeLoop(fields, State(slots, None, {}), a).st;
    var u := State(st.slots, None, {});
    if st.fixed.Some? && FirstFixed(fields, u, b) == st.fixed {
      FullIsStuck(fields, st, u, st.fixed.value, b);
    } else {
      Resumes(fields, st, u, b);
    }
  }

  lemma OneAsFixed32(f: Field, body: seq<Byte>)
    requires f.ltype.Fixed32? && body == [1, 0, 0, 0]
    ensures DecodePlain(f, body) == Got(Num(1), [])
  {
    assert body[..4] == body && body[4..] == [];
    assert body[1..] == [0, 0, 0] && body[1..][1..] == [0, 0] && body[1..][1..][1..] == [0];
    assert FromLittleEndian([0]) == 0 by { assert [0][1..] == []; }
    assert FromLittleEndian([0, 0]) == 0 by { assert [0, 0][1..] == [0]; }
    assert FromLittleEndian([0, 0, 0]) == 0 by { assert [0, 0, 0][1..] == [0, 0]; }
    assert FromLittleEndian(body) == 1;
  }

  /** A record of the only element of a fixed-count array, read when none is being received. */
  lemma OneElement(fields: seq<Field>, st: State, a: seq<Byte>)
    requires fields == [Field(1, Fixed32, Repeated, Static, 0, 0, 4, 1, None)] && a == [13, 1, 0, 0, 0]
    requires StateFits(fields, st) && st.fixed == None && st.seen == {}
    ensures DecodeLoop(fields, st, a) == AtEnd(State([Many([Num(1)])], Some(0), {}))
    ensures FirstFixed(fields, st, a) == Some(0)
  {
    var body: seq<Byte> := [1, 0, 0, 0];
    SlotAt(fields, st.slots, 0, false);
    assert ParseTag(a) == Tag(1, WT_32BIT, body) by { assert a[1..] == body; }
    OneAsFixed32(fields[0], body);
    DefaultFits(fields[0]);
    assert [] + [Num(1)] == [Num(1)] && st.slots[0 := Many([Num(1)])] == [Many([Num(1)])];
    assert DecodeRepeated(fields[0], [], WT_32BIT, body) == Got([Num(1)], []);
    assert FindField(fields, 1) == Some(0);
    assert DecodeRecord(fields, st, 1, WT_32BIT, body) == Got(State([Many([Num(1)])], Some(0), {}), []);
  }

  /** The smallest exception: a record of an array of one element, sent twice. Either record
      can be decoded after the other, but not both together. */
  lemma FixedCountIsOverfull(fields: seq<Field>, slots: seq<Slot>, a: seq<Byte>)
    requires fields == [Field(1, Fixed32, Repeated, Static, 0, 0, 4, 1, None)] && slots == [Many([])]
    requires a == [13, 1, 0, 0, 0]
    ensures WfFields(fields) && Fits(fields, slots, false) && Fits(fields, [Many([Num(1)])], false)
    ensures DecodeNoinit(fields, slots, a) == DecodeNoinit(fields, [Many([Num(1)])], a) == Got([Many([Num(1)])], [])
    ensures DecodeNoinit(fields, slots, a + a) == Fail
  {
    assert WfField(fields[0]);
    var full := [Many([Num(1)])];
    assert SlotFits(fields[0], slots[0], false) && SlotFits(fields[0], full[0], false);
    OneElement(fields, State(slots, None, {}), a);
    OneElement(fields, State(full, None, {}), a);
    assert RequiredBefore(fields, 1) == RequiredBefore(fields, 0) == 0;
    Concatenation(fields, slots, a, a);
  }

  /** For descriptors without fixed-count arrays there is no exception. */
  lemma ConcatenationWithCounts(fields: seq<Field>, slots: seq<Slot>, a: seq<Byte>, b: seq<Byte>)
    requires WfFields(fields) && Fits(fields, slots, false)
    requires forall f :: f in fields ==> !f.FixedCount()
    requires DecodeLoop(fields, State(slots, None, {}), a).AtEnd?
    requires DecodeNoinit(fields, slots, a).Got?
    requires DecodeNoinit(fields, DecodeNoinit(fields, slots, a).value, b).Got?
    ensures DecodeNoinit(fields, slots, a + b) == DecodeNoinit(fields, DecodeNoinit(fields, slots, a).value, b)
  {
    Concatenation(fields, slots, a, b);
  }

  /** When A is ended by a zero tag, nothing of B is read. */
  lemma {:induction false} ConcatenationAfterZero(fields: seq<Field>, slots: seq<Slot>, a: seq<Byte>, b: seq<Byte>)
    requires WfFields(fields) && Fits(fields, slots, false)
    requires DecodeLoop(fields, State(slots, None, {}), a).AtZero?
    ensures DecodeNoinit(fields, slots, a + b) == DecodeNoinit(fields, slots, a).Before(b)
  {
    LoopStopsAtZero(fields, State(slots, None, {}), a, b);
  }

  // -------------------------------------------------------- unknown fields

  /** One complete field, of a tag that the descriptors do not have. */
  predicate IsUnknownField(fields: seq<Field>, field: seq<Byte>) {
    var t := ParseTag(field);
    t.Tag? && FindField(fields, t.number).None? && SkipField(t.wireType, t.rest) == Got((), [])
  }

  /** Inserting any complete field whose tag the descriptors do not have, where the loop
      is between two fields, changes nothing: not the message, not the bytes left over,
      not whether decoding succeeds. */
  lemma {:induction false} UnknownFieldIsInvisible(fields: seq<Field>, slots: seq<Slot>, a: seq<Byte>,
      field: seq<Byte>, b: seq<Byte>)
    requires WfFields(fields) && Fits(fields, slots, false)
    requires DecodeLoop(fields, State(slots, None, {}), a).AtEnd?
    requires IsUnknownField(fields, field)
    ensures DecodeNoinit(fields, slots, a + field + b) == DecodeNoinit(fields, slots, a + b)
  {
    var st := DecodeLoop(fields, State(slots, None, {}), a).st;
    LoopAppends(fields, State(slots, None, {}), a, b);
    LoopAppends(fields, State(slots, None, {}), a, field + b);
    assert a + (field + b) == a + field + b;
    LoopAppends(fields, st, field, b);
  }
}
