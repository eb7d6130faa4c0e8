/** When decoding reports a missing required field. */
module Presence {
  import opened Bits
  import opened Wire
  import opened Wrappers
  import opened Message
  import opened EncodeSpec
  import opened DecodeSpec
  import opened Inverse

  /** The tags of the records that the loop meets. */
  function TagsMet(fields: seq<Field>, st: State, bs: seq<Byte>): set<nat>
    requires StateFits(fields, st)
    decreases |bs|
  {
    if bs == [] then {}
    else
      match ParseTag(bs)
      case BadTag => {}
      case ZeroTag(_) => {}
      case Tag(tag, wireType, rest) =>
        {tag} +
        match DecodeRecord(fields, st, tag, wireType, rest)
        case Fail => {}
        case Got(st', rest') => TagsMet(fields, st', rest')
  }

  /** Required field `i` is among those that are kept track of. */
  predicate Tracked(fields: seq<Field>, i: nat)
    requires i < |fields|
  {
    fields[i].htype.Required? && RequiredBefore(fields, i) < MAX_REQUIRED_FIELDS
  }

  /** Every number belongs to a required field. */
  lemma {:induction false} NumberedField(fields: seq<Field>, n: nat, k: nat) returns (i: nat)
    requires k <= |fields| && n < RequiredBefore(fields, k)
    ensures i < k && fields[i].htype.Required? && RequiredBefore(fields, i) == n
  {
    if fields[k - 1].htype.Required? && RequiredBefore(fields, k - 1) == n {
      i := k - 1;
    } else {
      i := NumberedField(fields, n, k - 1);
    }
  }

  lemma SeenGrows(fields: seq<Field>, st: State, i: nat, wireType: nat, bs: seq<Byte>)
    requires StateFits(fields, st) && i < |fields| && DecodeField(fields, st, i, wireType, bs).Got?
    ensures DecodeField(fields, st, i, wireType, bs).value.seen == Seen(fields, st.seen, i)
  {
    SlotAt(fields, st.slots, i, false);
  }

  /** fields_seen after the loop: the numbers of the tracked fields whose tags were met,
      besides those that were there before. */
  lemma {:induction false} SeenIsMet(fields: seq<Field>, st: State, bs: seq<Byte>, i: nat)
    requires StateFits(fields, st) && i < |fields| && Tracked(fields, i)
    requires !DecodeLoop(fields, st, bs).Failed?
    ensures RequiredBefore(fields, i) in DecodeLoop(fields, st, bs).st.seen
            <==> RequiredBefore(fields, i) in st.seen || fields[i].tag in TagsMet(fields, st, bs)
    decreases |bs|
  {
    if bs != [] && ParseTag(bs).Tag? {
      var t := ParseTag(bs);
      var p := DecodeRecord(fields, st, t.number, t.wireType, t.rest);
      SeenIsMet(fields, p.value, p.rest, i);
      var k := FindField(fields, t.number);
      FindFromFinds(fields, i, 0);
      if k.Some? {
        SeenGrows(fields, st, k.value, t.wireType, t.rest);
        if k.value < i && fields[k.value].htype.Required? { NumbersIncrease(fields, k.value, i); }
        if i < k.value { NumbersIncrease(fields, i, k.value); }
      }
    }
  }

  /** When every record of the stream decodes and the last fixed-count array is complete,
      pb_decode_noinit fails exactly if one of the first 64 required fields has no record. */
  lemma FailsIffRequiredMissing(fields: seq<Field>, slots: seq<Slot>, bs: seq<Byte>)
    requires WfFields(fields) && Fits(fields, slots, false)
    requires var l := DecodeLoop(fields, State(slots, None, {}), bs); !l.Failed? && FixedDone(fields, l.st)
    ensures DecodeNoinit(fields, slots, bs).Fail?
            <==> exists i :: 0 <= i < |fields| && Tracked(fields, i)
                             && fields[i].tag !in TagsMet(fields, State(slots, None, {}), bs)
  {
    var st := State(slots, None, {});
    var seen := DecodeLoop(fields, st, bs).st.seen;
    forall i | 0 <= i < |fields| && Tracked(fields, i)
      ensures RequiredBefore(fields, i) in seen <==> fields[i].tag in TagsMet(fields, st, bs)
      ensures RequiredBefore(fields, i) < RequiredBefore(fields, |fields|)
    {
      SeenIsMet(fields, st, bs, i);
      NumbersIncrease(fields, i, |fields|);
    }
    if !AllRequiredSeen(fields, seen) {
      var k: nat :| k < RequiredBefore(fields, |fields|) && k < MAX_REQUIRED_FIELDS && k !in seen;
      var i := NumberedField(fields, k, |fields|);
      assert Tracked(fields, i);
    }
  }

  /** The required fields before field `i`. */
  function RequiredAmong(fields: seq<Field>, i: nat): set<nat>
    requires i <= |fields|
  {
    set k: nat | k < i && fields[k].htype.Required?
  }

  lemma {:induction false} RequiredAreCounted(fields: seq<Field>, i: nat)
    requires i <= |fields|
    ensures RequiredBefore(fields, i) == |RequiredAmong(fields, i)|
  {
    if i > 0 {
      RequiredAreCounted(fields, i - 1);
      assert RequiredAmong(fields, i)
          == RequiredAmong(fields, i - 1) + if fields[i - 1].htype.Required? then {i - 1} else {};
    }
  }

  /** So after a successful decoding each required field with fewer than 64 before it has had
      a record. */
  lemma RequiredWereSent(fields: seq<Field>, slots: seq<Slot>, bs: seq<Byte>, i: nat)
    requires WfFields(fields) && Fits(fields, slots, false) && DecodeNoinit(fields, slots, bs).Got?
    requires i < |fields| && fields[i].htype.Required? && |RequiredAmong(fields, i)| < 64
    ensures fields[i].tag in TagsMet(fields, State(slots, None, {}), bs)
  {
    RequiredAreCounted(fields, i);
    FailsIffRequiredMissing(fields, slots, bs);
    assert Tracked(fields, i);
  }

  // ------------------------------------------------ complete arrays

  /** One record, as far as fixed-count array `i` goes: it is begun or continued, or another
      one is begun when it is complete, or it stays. */
  lemma FixedStep(fields: seq<Field>, st: State, k: nat, wireType: nat, bs: seq<Byte>, i: nat)
    requires StateFits(fields, st) && k < |fields| && i < |fields| && fields[i].FixedCount() && st.slots[i].Many?
    requires DecodeField(fields, st, k, wireType, bs).Got?
    ensures var z := DecodeField(fields, st, k, wireType, bs).value;
            z.slots[i].Many?
            && if k == i then z.fixed == Some(i)
               else z.slots[i] == st.slots[i]
                    && (z.fixed == st.fixed || (st.fixed == Some(i) ==> |st.slots[i].items| == fields[i].arraySize))
  {
    SlotAt(fields, st.slots, k, false);
    SlotAt(fields, st.slots, i, false);
  }

  lemma {:induction false} FixedInLoop(fields: seq<Field>, st: State, bs: seq<Byte>, i: nat, met: bool)
    requires StateFits(fields, st) && i < |fields| && fields[i].FixedCount() && st.slots[i].Many?
    requires met ==> st.fixed == Some(i) || |st.slots[i].items| == fields[i].arraySize
    requires !DecodeLoop(fields, st, bs).Failed?
    ensures var end := DecodeLoop(fields, st, bs).st;
            end.slots[i].Many?
            && (met || fields[i].tag in TagsMet(fields, st, bs) ==>
                  end.fixed == Some(i) || |end.slots[i].items| == fields[i].arraySize)
    decreases |bs|
  {
    if bs != [] && ParseTag(bs).Tag? {
      var t := ParseTag(bs);
      var p := DecodeRecord(fields, st, t.number, t.wireType, t.rest);
      var k := FindField(fields, t.number);
      FindFromFinds(fields, i, 0);
      if k.Some? { FixedStep(fields, st, k.value, t.wireType, t.rest, i); }
      FixedInLoop(fields, p.value, p.rest, i, met || k == Some(i));
    }
  }

  /** And each fixed-count array that has had a record has all its elements. */
  lemma FixedCountsAreComplete(fields: seq<Field>, slots: seq<Slot>, bs: seq<Byte>, i: nat)
    requires WfFields(fields) && Fits(fields, slots, false) && DecodeNoinit(fields, slots, bs).Got?
    requires i < |fields| && fields[i].FixedCount() && fields[i].tag in TagsMet(fields, State(slots, None, {}), bs)
    ensures DecodeNoinit(fields, slots, bs).value[i].Many?
    ensures |DecodeNoinit(fields, slots, bs).value[i].items| == fields[i].arraySize
  {
    SlotAt(fields, slots, i, false);
    FixedInLoop(fields, State(slots, None, {}), bs, i, false);
  }

  // ------------------------------------------------ more than 64 required fields

  /** `n` required fields. */
  function Flags(n: nat): seq<Field> {
    seq(n, i requires 0 <= i < n => Field(i + 1, Bool, Required, Static, 0, 0, 1, 0, None))
  }

  /** A record for each of them from the i-th on, up to the n-th. */
  function Records(i: nat, n: nat): seq<Byte>
    decreases n - i
  {
    if i >= n then [] else TagBytes(i + 1, WT_VARINT) + ([1] + Records(i + 1, n))
  }

  lemma {:induction false} FlagsCounted(n: nat, i: nat)
    requires i <= n
    ensures RequiredBefore(Flags(n), i) == i
  {
    if i > 0 { FlagsCounted(n, i - 1); }
  }

  lemma FlagsWf(n: nat)
    requires 0 < n < 0x1000_0000
    ensures WfFields(Flags(n))
  {
    forall i | 0 <= i < n ensures WfField(Flags(n)[i]) {}
  }

  lemma FlagDecodes(fields: seq<Field>, st: State, i: nat, rest: seq<Byte>)
    requires StateFits(fields, st) && i < |fields| && fields[i].ltype.Bool? && fields[i].htype.Required?
    ensures var p := DecodeField(fields, st, i, WT_VARINT, [1] + rest);
            p.Got? && p.rest == rest && p.value.fixed == st.fixed
  {
    SlotAt(fields, st.slots, i, false);
    assert ([1] + rest)[1..] == rest;
    assert ParseVarint32([1] + rest) == Got(1, rest);
  }

  predicate IsFlag(fields: seq<Field>, i: nat) {
    i < |fields| && fields[i].tag == i + 1 && fields[i].ltype.Bool? && fields[i].htype.Required? && i < 0x1000_0000
  }

  /** One record of the i-th field, and others. */
  lemma FlagMet(fields: seq<Field>, st: State, i: nat, rest: seq<Byte>) returns (next: State)
    requires StateFits(fields, st) && IsFlag(fields, i)
    ensures StateFits(fields, next) && next.fixed == st.fixed
    ensures DecodeLoop(fields, st, TagBytes(i + 1, WT_VARINT) + ([1] + rest)) == DecodeLoop(fields, next, rest)
    ensures TagsMet(fields, st, TagBytes(i + 1, WT_VARINT) + ([1] + rest)) == {i + 1} + TagsMet(fields, next, rest)
  {
    TagInverts(i + 1, WT_VARINT, [1] + rest);
    FindFromFinds(fields, i, 0);
    FlagDecodes(fields, st, i, rest);
    next := DecodeField(fields, st, i, WT_VARINT, [1] + rest).value;
  }

  /** Between `i` and `n`, neither more nor fewer. */
  ghost predicate Between(tags: set<nat>, i: nat, n: nat) {
    forall t :: t in tags <==> i < t <= n
  }

  ghost predicate AllMet(fields: seq<Field>, st: State, i: nat, n: nat, bs: seq<Byte>)
    requires StateFits(fields, st)
  {
    DecodeLoop(fields, st, bs).AtEnd? && DecodeLoop(fields, st, bs).st.fixed == st.fixed
    && Between(TagsMet(fields, st, bs), i, n)
  }

  lemma OneMoreMet(tags: set<nat>, i: nat, n: nat)
    requires Between(tags, i + 1, n) && i < n
    ensures Between({i + 1} + tags, i, n)
  {
  }

  lemma {:induction false} RecordsMet(fields: seq<Field>, st: State, i: nat, n: nat)
    requires StateFits(fields, st) && i <= n && forall k :: i <= k < n ==> IsFlag(fields, k)
    ensures AllMet(fields, st, i, n, Records(i, n))
    decreases n - i
  {
    if i < n {
      var rest := Records(i + 1, n);
      var next := FlagMet(fields, st, i, rest);
      RecordsMet(fields, next, i + 1, n);
      OneMoreMet(TagsMet(fields, next, rest), i, n);
    }
  }

  lemma NoneMissing(fields: seq<Field>, slots: seq<Slot>, bs: seq<Byte>)
    requires WfFields(fields) && Fits(fields, slots, false)
    requires var l := DecodeLoop(fields, State(slots, None, {}), bs); !l.Failed? && FixedDone(fields, l.st)
    requires forall i :: 0 <= i < |fields| && Tracked(fields, i) ==> fields[i].tag in TagsMet(fields, State(slots, None, {}), bs)
    ensures DecodeNoinit(fields, slots, bs).Got?
  {
    FailsIffRequiredMissing(fields, slots, bs);
  }

  /** Of 65 required fields the last is never sent, and decoding succeeds. */
  lemma LastIsNotChecked(fields: seq<Field>, slots: seq<Slot>)
    requires fields == Flags(65) && Fits(fields, slots, false)
    ensures WfFields(fields) && fields[64].htype.Required?
    ensures fields[64].tag !in TagsMet(fields, State(slots, None, {}), Records(0, 64))
    ensures DecodeNoinit(fields, slots, Records(0, 64)).Got?
  {
    FlagsWf(65);
    var st := State(slots, None, {});
    RecordsMet(fields, st, 0, 64);
    forall i | 0 <= i < 65 && Tracked(fields, i) ensures fields[i].tag in TagsMet(fields, st, Records(0, 64)) {
      FlagsCounted(65, i);
    }
    NoneMissing(fields, slots, Records(0, 64));
  }
}
