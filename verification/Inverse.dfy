/** Reading back, record by record, what pb_encode writes for a message. */
module Inverse {
  import opened Bits
  import opened Wire
  import opened WireProofs
  import opened Wrappers
  import opened Message
  import opened EncodeSpec
  import opened DecodeSpec

  // ------------------------------------------------- what is compared

  /** A structure with the storage that carries no information normalised: characters
      after a string's terminator dropped, and the storage of an optional field whose
      has_ member is false set to its default. */
  function Canon(fields: seq<Field>, slots: seq<Slot>): (r: seq<Slot>)
    requires |slots| == |fields|
    ensures |r| == |fields|
    decreases fields, 1
  {
    seq(|fields|, i requires 0 <= i < |fields| => CanonSlot(fields[i], slots[i]))
  }

  function CanonSlot(f: Field, s: Slot): Slot
    decreases f, 1
  {
    match s
    case Single(v) => Single(CanonVal(f, v))
    case Opt(has, v) => Opt(has, if has then CanonVal(f, v) else DefaultVal(f))
    case Many(items) => Many(seq(|items|, k requires 0 <= k < |items| => CanonVal(f, items[k])))
    case Member(cur) => Member(if cur.Some? then Some(CanonVal(f, cur.value)) else None)
  }

  function CanonVal(f: Field, v: Val): Val
    decreases f, 0
  {
    match v
    case Num(_) => v
    case Bytes(bs) => if f.ltype.CString? then Bytes(UpToNul(bs)) else v
    case Msg(slots) =>
      if f.ltype.Submessage? && |slots| == |f.ltype.fields| then Msg(Canon(f.ltype.fields, slots)) else v
  }

  /** The conditions the format puts on what is sent: every string has its terminator
      within data_size, and every length prefix is below 2^32. */
  ghost predicate Sendable(fields: seq<Field>, slots: seq<Slot>)
    requires Fits(fields, slots, true)
    decreases fields, 1
  {
    forall i :: 0 <= i < |fields| ==> SlotSendable(fields[i], slots[i])
  }

  ghost predicate SlotSendable(f: Field, s: Slot)
    requires SlotFits(f, s, true)
    decreases f, 1
  {
    match f.htype
    case Required => ValSendable(f, s.v)
    case Optional => IsPresent(f, s) ==> ValSendable(f, s.v)
    case Repeated =>
      && (forall k :: 0 <= k < |s.items| ==> ValSendable(f, s.items[k]))
      && (f.Packable() && EncodeItems(f, s.items).Some? ==> |EncodeItems(f, s.items).value| < U32)
    case OneOf => s.cur.Some? ==> ValSendable(f, s.cur.value)
  }

  ghost predicate ValSendable(f: Field, v: Val)
    requires ValFits(f, v, true)
    decreases f, 0
  {
    && (f.ltype.CString? ==> |UpToNul(v.bytes)| < f.dataSize)
    && (f.ltype.Submessage? ==>
          && Sendable(f.ltype.fields, v.slots)
          && (Encode(f.ltype.fields, v.slots).Some? ==> |Encode(f.ltype.fields, v.slots).value| < U32))
  }

  // --------------------------------------------------------------- headers

  lemma TagInverts(number: nat, wireType: nat, tail: seq<Byte>)
    requires 1 <= number < 0x2000_0000 && wireType < 8
    ensures ParseTag(TagBytes(number, wireType) + tail) == Tag(number, wireType, tail)
  {
    Varint32Inverts(8 * number + wireType, tail);
  }

  lemma DelimitedInverts(body: seq<Byte>, tail: seq<Byte>)
    requires |body| < U32
    ensures ParseDelimited(Delimited(body) + tail) == Got(body, tail)
  {
    assert Delimited(body) + tail == VarintBytes(|body|) + (body + tail);
    Varint32Inverts(|body|, body + tail);
    assert (body + tail)[..|body|] == body && (body + tail)[|body|..] == tail;
  }

  /** A record of a known field is handled by decode_field. */
  lemma LoopDecodes(fields: seq<Field>, st: State, i: nat, wireType: nat, body: seq<Byte>)
    requires StateFits(fields, st) && i < |fields| && wireType < 8
    ensures DecodeLoop(fields, st, TagBytes(fields[i].tag, wireType) + body)
            == match DecodeField(fields, st, i, wireType, body)
               case Fail => Failed
               case Got(st', rest) => DecodeLoop(fields, st', rest)
  {
    assert WfField(fields[i]);
    TagInverts(fields[i].tag, wireType, body);
    FindFromFinds(fields, i, 0);
  }

  // ---------------------------------------------------------------- values

  /** A value in the range of its storage survives the casts on the way. */
  lemma CastsKeep(size: nat, n: int)
    requires Values(size) > 0 && -(Values(size) / 2) <= n < Values(size) / 2
    ensures CastSigned(size, n) == n
    ensures (if size == 8 then ToSigned(U64, n % U64) else ToSigned(U32, n % U64 % U32)) == n
  {
    if n < 0 { assert n % U64 == n + U64; }
  }

  lemma SignedInverts(f: Field, v: Val, tail: seq<Byte>)
    requires WfField(f) && f.ltype.Varint? && Plain(f, v)
    ensures DecodePlain(f, VarintBytes(v.n % U64) + tail) == Got(v, tail)
  {
    CastsKeep(f.dataSize, v.n);
    VarintInverts(v.n % U64, tail);
  }

  lemma ZigZagFieldInverts(f: Field, v: Val, tail: seq<Byte>)
    requires WfField(f) && f.ltype.SVarint? && Plain(f, v)
    ensures DecodePlain(f, VarintBytes(ZigZag(v.n)) + tail) == Got(v, tail)
  {
    CastsKeep(f.dataSize, v.n);
    ZigZagInverts(v.n);
    VarintInverts(ZigZag(v.n), tail);
  }

  lemma UnsignedInverts(f: Field, v: Val, tail: seq<Byte>)
    requires WfField(f) && f.ltype.UVarint? && Plain(f, v)
    ensures DecodePlain(f, VarintBytes(v.n) + tail) == Got(v, tail)
  {
    SmallMod(v.n, Values(f.dataSize));
    VarintInverts(v.n, tail);
  }

  lemma CStringInverts(f: Field, v: Val, tail: seq<Byte>)
    requires WfField(f) && Plain(f, v) && f.ltype.CString? && |UpToNul(v.bytes)| < f.dataSize
    ensures DecodePlain(f, Delimited(UpToNul(v.bytes)) + tail) == Got(Bytes(UpToNul(v.bytes)), tail)
  {
    StringInverts(UpToNul(v.bytes), tail);
  }

  lemma BytesInvert(f: Field, v: Val, tail: seq<Byte>)
    requires WfField(f) && Plain(f, v) && f.ltype.BytesArray? && |v.bytes| + 4 <= f.dataSize
    ensures DecodePlain(f, Delimited(v.bytes) + tail) == Got(v, tail)
  {
    StringInverts(v.bytes, tail);
  }

  lemma FixedBytesInvert(f: Field, v: Val, tail: seq<Byte>)
    requires WfField(f) && Plain(f, v) && f.ltype.FixedLengthBytes?
    ensures DecodePlain(f, Delimited(v.bytes) + tail) == Got(v, tail)
  {
    StringInverts(v.bytes, tail);
    if v.bytes == [] { assert v.bytes + tail == tail; assert ZeroScalar(f).bytes == []; }
  }

  lemma PlainInverts(f: Field, v: Val, tail: seq<Byte>)
    requires WfField(f) && Plain(f, v) && EncodePlain(f, v).Some?
    requires f.ltype.CString? ==> |UpToNul(v.bytes)| < f.dataSize
    ensures DecodePlain(f, EncodePlain(f, v).value + tail) == Got(CanonVal(f, v), tail)
  {
    match f.ltype
    case Bool => Varint32Inverts(v.n, tail);
    case Varint => SignedInverts(f, v, tail);
    case UVarint => UnsignedInverts(f, v, tail);
    case SVarint => ZigZagFieldInverts(f, v, tail);
    case Fixed32 => FixedInverts(4, v.n, tail);
    case Fixed64 => FixedInverts(8, v.n, tail);
    case BytesArray => BytesInvert(f, v, tail);
    case CString => CStringInverts(f, v, tail);
    case FixedLengthBytes => FixedBytesInvert(f, v, tail);
  }

  lemma FixedInverts(n: nat, v: nat, tail: seq<Byte>)
    requires (n == 4 && v < U32) || (n == 8 && v < U64)
    ensures FixedValue(LittleEndian(n, v) + tail, n) == Got(Num(v), tail)
  {
    Pow2At32(); Pow2At64();
    LittleEndianInverts(n, v);
    var bs := LittleEndian(n, v) + tail;
    assert bs[..n] == LittleEndian(n, v) && bs[n..] == tail;
  }

  lemma StringInverts(s: seq<Byte>, tail: seq<Byte>)
    requires |s| < U32
    ensures ParseVarint32(Delimited(s) + tail) == Got(|s|, s + tail)
    ensures ParseRaw(s + tail, |s|) == Got(s, tail)
  {
    assert Delimited(s) + tail == VarintBytes(|s|) + (s + tail);
    Varint32Inverts(|s|, s + tail);
    assert (s + tail)[..|s|] == s && (s + tail)[|s|..] == tail;
  }

  lemma {:induction false} ValInverts(f: Field, v: Val, cur: Val, tail: seq<Byte>)
    requires WfField(f) && ValFits(f, v, true) && ValSendable(f, v) && EncodeVal(f, v).Some?
    requires ValFits(f, cur, false) && (f.ltype.Submessage? ==> cur == DefaultVal(f))
    ensures DecodeVal(f, cur, EncodeVal(f, v).value + tail) == Got(CanonVal(f, v), tail)
    decreases f, 0
  {
    if f.ltype.Submessage? {
      var sub := f.ltype.fields;
      DelimitedInverts(Encode(sub, v.slots).value, tail);
      MessageInverts(sub, v.slots);
    } else {
      PlainInverts(f, v, tail);
    }
  }

  // -------------------------------------------------------------- messages

  /** The state after reading what was sent for field `i`. */
  function After(fields: seq<Field>, st: State, i: nat, s: Slot): State
    requires i < |fields| == |st.slots|
  {
    State(st.slots[i := CanonSlot(fields[i], s)],
          if fields[i].FixedCount() && s.Many? && s.items != [] then Some(i) else st.fixed,
          Seen(fields, st.seen, i))
  }

  lemma {:induction false} CanonFits(fields: seq<Field>, slots: seq<Slot>)
    requires WfFields(fields) && Fits(fields, slots, true)
    ensures Fits(fields, Canon(fields, slots), false)
    decreases fields, 2
  {
    forall i | 0 <= i < |fields| ensures SlotFits(fields[i], Canon(fields, slots)[i], false) {
      SlotAt(fields, slots, i, true);
      CanonSlotFits(fields[i], slots[i]);
    }
  }

  lemma {:induction false} CanonSlotFits(f: Field, s: Slot)
    requires WfField(f) && SlotFits(f, s, true)
    ensures SlotFits(f, CanonSlot(f, s), false)
    decreases f, 1
  {
    match s
    case Single(v) => CanonValFits(f, v);
    case Opt(has, v) => CanonValFits(f, v); DefaultFits(f);
    case Many(items) =>
      forall k | 0 <= k < |items| ensures ValFits(f, CanonVal(f, items[k]), false) {
        CanonValFits(f, items[k]);
      }
    case Member(cur) => if cur.Some? { CanonValFits(f, cur.value); }
  }

  lemma {:induction false} CanonValFits(f: Field, v: Val)
    requires WfField(f) && ValFits(f, v, true)
    ensures ValFits(f, CanonVal(f, v), false)
    decreases f, 0
  {
    if f.ltype.Submessage? { CanonFits(f.ltype.fields, v.slots); }
  }

  // ---------------------------------------------------- what is not sent

  /** A proto3 singular value that is not sent is equal to the default. */
  lemma {:induction false} ZeroIsDefault(f: Field, v: Val)
    requires WfField(f) && ValFits(f, v, true) && IsZero(f, v)
    requires f.default.Some? ==> f.default.value == ZeroScalar(f)
    ensures CanonVal(f, v) == DefaultVal(f)
    decreases f, 0
  {
    if f.ltype.Submessage? {
      var sub := f.ltype.fields;
      forall i | 0 <= i < |sub| ensures Canon(sub, v.slots)[i] == DefaultSlots(sub)[i] {
        SlotAt(sub, v.slots, i, true);
        DefaultSlotIsDefault(sub[i], v.slots[i]);
      }
      assert Canon(sub, v.slots) == DefaultSlots(sub);
    } else {
      assert v.Bytes? ==> CanonVal(f, v).bytes == [] == ZeroScalar(f).bytes;
    }
  }

  lemma {:induction false} DefaultSlotIsDefault(f: Field, s: Slot)
    requires WfField(f) && SlotFits(f, s, true) && IsDefault(f, s)
    ensures CanonSlot(f, s) == DefaultSlot(f)
    decreases f, 1
  {
    if s.Single? { ZeroIsDefault(f, s.v); }
  }

  lemma NothingSent(f: Field, s: Slot)
    requires WfField(f) && SlotFits(f, s, true) && EncodeSlot(f, s) == Some([])
    ensures CanonSlot(f, s) == DefaultSlot(f) && !f.htype.Required?
    ensures s.Many? ==> s.items == []
    ensures s.Member? ==> s.cur.None?
  {
    if s.Single? {
      if f.htype.Optional? && IsZero(f, s.v) { ZeroIsDefault(f, s.v); } else { RecordNonempty(f, s.v); }
    } else if s.Opt? {
      if s.has { RecordNonempty(f, s.v); }
    } else if s.Member? {
      if s.cur.Some? { RecordNonempty(f, s.cur.value); }
    } else if s.items != [] {
      ArrayNonempty(f, s.items);
    }
  }

  lemma RecordNonempty(f: Field, v: Val)
    requires ValFits(f, v, true)
    ensures EncodeRecord(f, v) != Some([])
  {
  }

  lemma ArrayNonempty(f: Field, items: seq<Val>)
    requires items != [] && forall k :: 0 <= k < |items| ==> ValFits(f, items[k], true)
    ensures EncodeArray(f, items) != Some([])
  {
    RecordNonempty(f, items[0]);
  }

  /** Before field `i` is read: it has its default, the fixed-count array before it is
      complete, and no other member of its union is set if this one is about to be. */
  ghost predicate Ready(fields: seq<Field>, st: State, i: nat, s: Slot) {
    && StateFits(fields, st) && i < |fields|
    && st.slots[i] == DefaultSlot(fields[i])
    && FixedDone(fields, st) && st.fixed != Some(i)
    && (s.Member? && s.cur.Some? ==>
          forall k :: 0 <= k < |fields| && k != i && SameUnion(fields, i, k) ==> st.slots[k] == Member(None))
  }

  lemma {:induction false} SingleInverts(fields: seq<Field>, st: State, i: nat, s: Slot, v: Val, tail: seq<Byte>)
    requires Ready(fields, st, i, s) && SlotFits(fields[i], s, true)
    requires (s == Single(v) || s == Opt(true, v) || s == Member(Some(v))) && !fields[i].htype.Repeated?
    requires ValSendable(fields[i], v) && EncodeRecord(fields[i], v).Some?
    ensures StateFits(fields, After(fields, st, i, s))
    ensures DecodeLoop(fields, st, EncodeRecord(fields[i], v).value + tail)
            == DecodeLoop(fields, After(fields, st, i, s), tail)
    decreases fields[i], 1
  {
    var f := fields[i];
    var body := EncodeVal(f, v).value + tail;
    assert ValFits(f, DefaultVal(f), false) && DecodeVal(f, DefaultVal(f), body) == Got(CanonVal(f, v), tail) by {
      assert WfField(f);
      DefaultFits(f);
      ValInverts(f, v, DefaultVal(f), tail);
    }
    StoresCanon(fields, st, i, s, v);
    ReadsSingle(fields, st, i, WireType(f.ltype), body, CanonVal(f, v), tail);
    RecordSplits(f, v, tail);
  }

  lemma RecordSplits(f: Field, v: Val, tail: seq<Byte>)
    requires ValFits(f, v, true) && EncodeRecord(f, v).Some?
    ensures EncodeRecord(f, v).value + tail == TagBytes(f.tag, WireType(f.ltype)) + (EncodeVal(f, v).value + tail)
  {
    assert EncodeRecord(f, v).value == TagBytes(f.tag, WireType(f.ltype)) + EncodeVal(f, v).value;
  }

  lemma StoresCanon(fields: seq<Field>, st: State, i: nat, s: Slot, v: Val)
    requires Ready(fields, st, i, s) && SlotFits(fields[i], s, true)
    requires (s == Single(v) || s == Opt(true, v) || s == Member(Some(v))) && !fields[i].htype.Repeated?
    ensures After(fields, st, i, s)
         == State(Store(fields, st.slots, i, CanonVal(fields[i], v)), st.fixed, Seen(fields, st.seen, i))
  {
    SlotAt(fields, st.slots, i, false);
  }

  /** The loop on the record of a field that is not repeated and has its default. */
  lemma ReadsSingle(fields: seq<Field>, st: State, i: nat, wireType: nat, bs: seq<Byte>, v: Val, tail: seq<Byte>)
    requires StateFits(fields, st) && i < |fields| && wireType < 8 && !fields[i].htype.Repeated?
    requires st.slots[i] == DefaultSlot(fields[i])
    requires ValFits(fields[i], DefaultVal(fields[i]), false)
    requires DecodeVal(fields[i], DefaultVal(fields[i]), bs) == Got(v, tail)
    ensures var z := State(Store(fields, st.slots, i, v), st.fixed, Seen(fields, st.seen, i));
            StateFits(fields, z)
            && DecodeLoop(fields, st, TagBytes(fields[i].tag, wireType) + bs) == DecodeLoop(fields, z, tail)
  {
    LoopDecodes(fields, st, i, wireType, bs);
  }

  // ---------------------------------------------------------------- arrays

  function CanonItems(f: Field, items: seq<Val>): (r: seq<Val>)
    ensures |r| == |items|
  {
    seq(|items|, k requires 0 <= k < |items| => CanonVal(f, items[k]))
  }

  lemma CanonItemsStep(f: Field, prev: seq<Val>, items: seq<Val>)
    requires items != []
    ensures (prev + [CanonVal(f, items[0])]) + CanonItems(f, items[1..]) == prev + CanonItems(f, items)
  {
  }

  lemma {:induction false} ItemsInvert(f: Field, prev: seq<Val>, items: seq<Val>)
    requires WfField(f) && f.Packable() && |prev| + |items| <= f.arraySize
    requires forall k :: 0 <= k < |prev| ==> ValFits(f, prev[k], false)
    requires forall k :: 0 <= k < |items| ==> ValFits(f, items[k], true)
    requires EncodeItems(f, items).Some?
    ensures DecodePacked(f, prev, EncodeItems(f, items).value) == Some(prev + CanonItems(f, items))
    decreases f, 2, |items|
  {
    if items == [] {
      assert prev + CanonItems(f, items) == prev;
    } else {
      var rest := EncodeItems(f, items[1..]).value;
      DefaultFits(f);
      ValInverts(f, items[0], DefaultVal(f), rest);
      CanonValFits(f, items[0]);
      ItemsInvert(f, prev + [CanonVal(f, items[0])], items[1..]);
      CanonItemsStep(f, prev, items);
      PackableNonempty(f, items[0]);
    }
  }

  lemma PackableNonempty(f: Field, v: Val)
    requires f.Packable() && ValFits(f, v, true) && EncodeVal(f, v).Some?
    ensures EncodeVal(f, v).value != []
  {
  }

  /** The state while array field `i` is being received. */
  ghost predicate Receiving(fields: seq<Field>, st: State, i: nat, prev: seq<Val>) {
    && StateFits(fields, st) && i < |fields| && fields[i].htype.Repeated?
    && st.slots[i] == Many(prev)
    && (fields[i].FixedCount() ==> st.fixed == Some(i))
  }

  /** The first of some records is decoded and appended. */
  lemma {:induction false} RecordInverts(fields: seq<Field>, st: State, i: nat, prev: seq<Val>, items: seq<Val>,
      tail: seq<Byte>)
    requires Receiving(fields, st, i, prev) && !fields[i].Packable() && items != []
    requires |prev| < fields[i].arraySize
    requires forall k :: 0 <= k < |items| ==> ValFits(fields[i], items[k], true)
    requires ValSendable(fields[i], items[0]) && EncodeRecords(fields[i], items).Some?
    ensures Receiving(fields, Received(st, i, prev + [CanonVal(fields[i], items[0])]), i, prev + [CanonVal(fields[i], items[0])])
    ensures DecodeLoop(fields, st, EncodeRecords(fields[i], items).value + tail)
            == DecodeLoop(fields, Received(st, i, prev + [CanonVal(fields[i], items[0])]),
                          EncodeRecords(fields[i], items[1..]).value + tail)
    decreases fields[i], 1
  {
    var f := fields[i];
    assert WfField(f);
    FirstOfRecords(f, items, tail);
    var rest := EncodeRecords(f, items[1..]).value + tail;
    LoopDecodes(fields, st, i, WireType(f.ltype), EncodeVal(f, items[0]).value + rest);
    DefaultFits(f);
    ValInverts(f, items[0], DefaultVal(f), rest);
  }

  lemma FirstOfRecords(f: Field, items: seq<Val>, tail: seq<Byte>)
    requires items != [] && forall k :: 0 <= k < |items| ==> ValFits(f, items[k], true)
    requires EncodeRecords(f, items).Some?
    ensures EncodeVal(f, items[0]).Some? && EncodeRecords(f, items[1..]).Some?
    ensures EncodeRecords(f, items).value + tail
            == TagBytes(f.tag, WireType(f.ltype)) + (EncodeVal(f, items[0]).value + (EncodeRecords(f, items[1..]).value + tail))
  {
    assert EncodeRecord(f, items[0]).Some?;
    Regroup(TagBytes(f.tag, WireType(f.ltype)), EncodeVal(f, items[0]).value, EncodeRecords(f, items[1..]).value, tail);
  }

  lemma Regroup(a: seq<Byte>, b: seq<Byte>, c: seq<Byte>, d: seq<Byte>)
    ensures a + b + c + d == a + (b + (c + d))
  {
  }

  function Received(st: State, i: nat, items: seq<Val>): State
    requires i < |st.slots|
  {
    st.(slots := st.slots[i := Many(items)])
  }

  lemma {:induction false} RecordsInvert(fields: seq<Field>, st: State, i: nat, prev: seq<Val>, items: seq<Val>,
      tail: seq<Byte>)
    requires Receiving(fields, st, i, prev) && !fields[i].Packable()
    requires |prev| + |items| <= fields[i].arraySize
    requires forall k :: 0 <= k < |items| ==> ValFits(fields[i], items[k], true) && ValSendable(fields[i], items[k])
    requires EncodeRecords(fields[i], items).Some?
    ensures StateFits(fields, Received(st, i, prev + CanonItems(fields[i], items)))
    ensures DecodeLoop(fields, st, EncodeRecords(fields[i], items).value + tail)
            == DecodeLoop(fields, Received(st, i, prev + CanonItems(fields[i], items)), tail)
    decreases fields[i], 2, |items|
  {
    var f := fields[i];
    if items == [] {
      assert prev + CanonItems(f, items) == prev;
      assert st.slots[i := Many(prev)] == st.slots;
      assert EncodeRecords(f, items).value + tail == tail;
    } else {
      var next := prev + [CanonVal(f, items[0])];
      RecordInverts(fields, st, i, prev, items, tail);
      RecordsInvert(fields, Received(st, i, next), i, next, items[1..], tail);
      CanonItemsStep(f, prev, items);
      assert Received(Received(st, i, next), i, prev + CanonItems(f, items)) == Received(st, i, prev + CanonItems(f, items));
    }
  }

  /** The first record of an array starts the receipt of a fixed-count field. */
  function Started(st: State, f: Field, i: nat): State {
    if f.FixedCount() then st.(fixed := Some(i)) else st
  }

  lemma ArrayStarts(fields: seq<Field>, st: State, i: nat, s: Slot, tail: seq<Byte>)
    requires Ready(fields, st, i, s) && SlotFits(fields[i], s, true)
    requires s.Many? && s.items != [] && EncodeRecords(fields[i], s.items).Some?
    ensures Receiving(fields, Started(st, fields[i], i), i, [])
    ensures DecodeLoop(fields, st, EncodeRecords(fields[i], s.items).value + tail)
            == DecodeLoop(fields, Started(st, fields[i], i), EncodeRecords(fields[i], s.items).value + tail)
  {
    var f := fields[i];
    FirstOfRecords(f, s.items, tail);
    var body := EncodeVal(f, s.items[0]).value + (EncodeRecords(f, s.items[1..]).value + tail);
    LoopDecodes(fields, st, i, WireType(f.ltype), body);
    LoopDecodes(fields, Started(st, f, i), i, WireType(f.ltype), body);
  }

  lemma {:induction false} PackedInverts(fields: seq<Field>, st: State, i: nat, s: Slot, tail: seq<Byte>)
    requires Ready(fields, st, i, s) && SlotFits(fields[i], s, true) && SlotSendable(fields[i], s)
    requires fields[i].htype.Repeated? && s.items != [] && fields[i].Packable() && EncodeArray(fields[i], s.items).Some?
    ensures StateFits(fields, After(fields, st, i, s))
    ensures DecodeLoop(fields, st, EncodeArray(fields[i], s.items).value + tail)
            == DecodeLoop(fields, After(fields, st, i, s), tail)
    decreases fields[i], 3
  {
    var f, items := fields[i], s.items;
    assert WfField(f);
    var body := EncodeItems(f, items).value;
    assert EncodeArray(f, items).value + tail == TagBytes(f.tag, WT_STRING) + (Delimited(body) + tail);
    LoopDecodes(fields, st, i, WT_STRING, Delimited(body) + tail);
    DelimitedInverts(body, tail);
    ItemsInvert(f, [], items);
    assert [] + CanonItems(f, items) == CanonItems(f, items) == CanonSlot(f, s).items;
  }

  lemma {:induction false} UnpackedInverts(fields: seq<Field>, st: State, i: nat, s: Slot, tail: seq<Byte>)
    requires Ready(fields, st, i, s) && SlotFits(fields[i], s, true) && SlotSendable(fields[i], s)
    requires fields[i].htype.Repeated? && s.items != [] && !fields[i].Packable() && EncodeArray(fields[i], s.items).Some?
    ensures StateFits(fields, After(fields, st, i, s))
    ensures DecodeLoop(fields, st, EncodeArray(fields[i], s.items).value + tail)
            == DecodeLoop(fields, After(fields, st, i, s), tail)
    decreases fields[i], 3
  {
    var f, items := fields[i], s.items;
    ArrayStarts(fields, st, i, s, tail);
    RecordsInvert(fields, Started(st, f, i), i, [], items, tail);
    assert [] + CanonItems(f, items) == CanonItems(f, items) == CanonSlot(f, s).items;
  }

  lemma {:induction false} SlotInverts(fields: seq<Field>, st: State, i: nat, s: Slot, tail: seq<Byte>)
    requires Ready(fields, st, i, s) && SlotFits(fields[i], s, true) && SlotSendable(fields[i], s)
    requires EncodeSlot(fields[i], s).Some?
    ensures StateFits(fields, After(fields, st, i, s))
    ensures DecodeLoop(fields, st, EncodeSlot(fields[i], s).value + tail)
            == DecodeLoop(fields, After(fields, st, i, s), tail)
    decreases fields[i], 4
  {
    var f := fields[i];
    assert WfField(f);
    var e := EncodeSlot(f, s).value;
    if e == [] {
      assert e + tail == tail;
      NothingSent(f, s);
      assert After(fields, st, i, s) == st by { assert st.slots[i := st.slots[i]] == st.slots; }
    } else if f.htype.Repeated? {
      if f.Packable() { PackedInverts(fields, st, i, s, tail); } else { UnpackedInverts(fields, st, i, s, tail); }
    } else {
      SingleInverts(fields, st, i, s, if f.htype.OneOf? then s.cur.value else s.v, tail);
    }
  }

  // -------------------------------------------------------------- messages

  /** The structure when the fields before `i` have been read. */
  function Partial(fields: seq<Field>, slots: seq<Slot>, i: nat): (r: seq<Slot>)
    requires |slots| == |fields|
    ensures |r| == |fields|
  {
    seq(|fields|, k requires 0 <= k < |fields| =>
      if k < i then CanonSlot(fields[k], slots[k]) else DefaultSlot(fields[k]))
  }

  ghost predicate ReadUpTo(fields: seq<Field>, slots: seq<Slot>, st: State, i: nat)
    requires |slots| == |fields| && i <= |fields|
  {
    && StateFits(fields, st)
    && st.slots == Partial(fields, slots, i)
    && FixedDone(fields, st)
    && (st.fixed.Some? ==> st.fixed.value < i)
    && (forall k: nat :: k < RequiredBefore(fields, i) && k < MAX_REQUIRED_FIELDS ==> k in st.seen)
  }

  lemma PartialStep(fields: seq<Field>, slots: seq<Slot>, i: nat)
    requires |slots| == |fields| && i < |fields|
    ensures Partial(fields, slots, i)[i := CanonSlot(fields[i], slots[i])] == Partial(fields, slots, i + 1)
  {
  }

  lemma SeenStep(fields: seq<Field>, seen: set<nat>, i: nat)
    requires i < |fields|
    requires forall k: nat :: k < RequiredBefore(fields, i) && k < MAX_REQUIRED_FIELDS ==> k in seen
    ensures forall k: nat :: k < RequiredBefore(fields, i + 1) && k < MAX_REQUIRED_FIELDS ==> k in Seen(fields, seen, i)
  {
  }

  lemma ReadOneMore(fields: seq<Field>, slots: seq<Slot>, st: State, i: nat)
    requires WfFields(fields) && Fits(fields, slots, true) && i < |fields|
    requires ReadUpTo(fields, slots, st, i)
    requires StateFits(fields, After(fields, st, i, slots[i]))
    ensures ReadUpTo(fields, slots, After(fields, st, i, slots[i]), i + 1)
  {
    SlotAt(fields, slots, i, true);
    PartialStep(fields, slots, i);
    SeenStep(fields, st.seen, i);
  }

  lemma ReadyFor(fields: seq<Field>, slots: seq<Slot>, st: State, i: nat)
    requires WfFields(fields) && Fits(fields, slots, true) && i < |fields|
    requires ReadUpTo(fields, slots, st, i)
    ensures Ready(fields, st, i, slots[i])
  {
    if slots[i].Member? && slots[i].cur.Some? {
      forall k | 0 <= k < |fields| && k != i && SameUnion(fields, i, k) ensures st.slots[k] == Member(None) {
        SlotAt(fields, slots, i, true);
        SlotAt(fields, slots, k, true);
        assert slots[k].cur.None?;
      }
    }
  }

  lemma {:induction false} FieldInverts(fields: seq<Field>, slots: seq<Slot>, i: nat, st: State)
    requires WfFields(fields) && Fits(fields, slots, true)
    requires i < |fields| && EncodeSlots(fields, slots, i).Some?
    requires SlotFits(fields[i], slots[i], true) && SlotSendable(fields[i], slots[i])
    requires ReadUpTo(fields, slots, st, i)
    ensures ReadUpTo(fields, slots, After(fields, st, i, slots[i]), i + 1)
    ensures EncodeSlots(fields, slots, i + 1).Some?
    ensures DecodeLoop(fields, st, EncodeSlots(fields, slots, i).value)
            == DecodeLoop(fields, After(fields, st, i, slots[i]), EncodeSlots(fields, slots, i + 1).value)
    decreases fields, 4
  {
    SlotAt(fields, slots, i, true);
    ReadyFor(fields, slots, st, i);
    SlotInverts(fields, st, i, slots[i], EncodeSlots(fields, slots, i + 1).value);
    ReadOneMore(fields, slots, st, i);
  }

  lemma {:induction false} FieldsInvert(fields: seq<Field>, slots: seq<Slot>, i: nat, st: State) returns (end: State)
    requires WfFields(fields) && Fits(fields, slots, true) && Sendable(fields, slots)
    requires i <= |fields| && EncodeSlots(fields, slots, i).Some?
    requires ReadUpTo(fields, slots, st, i)
    ensures DecodeLoop(fields, st, EncodeSlots(fields, slots, i).value) == AtEnd(end)
    ensures ReadUpTo(fields, slots, end, |fields|)
    decreases fields, 5, |fields| - i
  {
    if i == |fields| {
      end := st;
    } else {
      SlotAt(fields, slots, i, true);
      FieldInverts(fields, slots, i, st);
      end := FieldsInvert(fields, slots, i + 1, After(fields, st, i, slots[i]));
    }
  }

  lemma {:induction false} MessageInverts(fields: seq<Field>, slots: seq<Slot>)
    requires WfFields(fields) && Fits(fields, slots, true) && Sendable(fields, slots)
    requires Encode(fields, slots).Some?
    ensures Fits(fields, DefaultSlots(fields), false)
    ensures DecodeNoinit(fields, DefaultSlots(fields), Encode(fields, slots).value) == Got(Canon(fields, slots), [])
    decreases fields, 6
  {
    DefaultsFit(fields);
    var st := State(DefaultSlots(fields), None, {});
    assert st.slots == Partial(fields, slots, 0);
    var end := FieldsInvert(fields, slots, 0, st);
    assert end.slots == Canon(fields, slots);
  }
}
