/** What pb_decode_noinit and pb_decode do to a message structure, as functions of the
    bytes in the stream. Bytes after the part that was read are returned as `rest`. */
module DecodeSpec {
  import opened Bits
  import opened Wire
  import opened WireProofs
  import opened Wrappers
  import opened Message

  /** PB_MAX_REQUIRED_FIELDS. */
  const MAX_REQUIRED_FIELDS: nat := 64

  // ---------------------------------------------------------------- fields

  /** pb_field_iter_find: the field with that tag. */
  function FindField(fields: seq<Field>, tag: nat): (r: Option<nat>)
    ensures r.Some? ==> r.value < |fields| && fields[r.value].tag == tag && !fields[r.value].ltype.Extension?
    ensures r.None? ==> forall i :: 0 <= i < |fields| && fields[i].tag == tag ==> fields[i].ltype.Extension?
  {
    FindFrom(fields, tag, 0)
  }

  function FindFrom(fields: seq<Field>, tag: nat, i: nat): (r: Option<nat>)
    requires i <= |fields|
    ensures r.Some? ==> i <= r.value < |fields| && fields[r.value].tag == tag && !fields[r.value].ltype.Extension?
    ensures r.None? ==> forall k :: i <= k < |fields| && fields[k].tag == tag ==> fields[k].ltype.Extension?
    decreases |fields| - i
  {
    if i == |fields| then None
    else if fields[i].tag == tag && !fields[i].ltype.Extension? then Some(i)
    else FindFrom(fields, tag, i + 1)
  }

  /** The number of required fields among the first `i`: the iterator's
      required_field_index at field `i`. */
  function RequiredBefore(fields: seq<Field>, i: nat): (n: nat)
    requires i <= |fields|
    ensures n <= i
  {
    if i == 0 then 0
    else RequiredBefore(fields, i - 1) + if fields[i - 1].htype.Required? then 1 else 0
  }

  // ---------------------------------------------------------------- values

  /** The check at the end of pb_dec_varint, pb_dec_uvarint and pb_dec_svarint. */
  function Checked(stored: int, read: int, rest: seq<Byte>): Parsed<Val> {
    if stored != read then Fail else Got(Num(read), rest)
  }

  /** `(intN_t)x` for an integer field of `size` bytes. */
  function CastSigned(size: nat, x: int): int {
    if Values(size) == 0 then x else ToSigned(Values(size), x % Values(size))
  }

  /** The pb_dec_* functions of fields other than submessages. */
  function DecodePlain(f: Field, bs: seq<Byte>): (p: Parsed<Val>)
    ensures p.Got? ==> |p.rest| < |bs|
  {
    match f.ltype
    case Bool =>
      (match ParseVarint32(bs)
       case Fail => Fail
       case Got(v, rest) => Got(Num(if v != 0 then 1 else 0), rest))
    case Varint =>
      (match ParseVarint(bs)
       case Fail => Fail
       case Got(v, rest) =>
         var sv := if f.dataSize == 8 then ToSigned(U64, v) else ToSigned(U32, v % U32);
         if Values(f.dataSize) == 0 then Fail else Checked(CastSigned(f.dataSize, sv), sv, rest))
    case UVarint =>
      (match ParseVarint(bs)
       case Fail => Fail
       case Got(v, rest) =>
         if Values(f.dataSize) == 0 then Fail else Checked(v % Values(f.dataSize), v, rest))
    case SVarint =>
      (match ParseVarint(bs)
       case Fail => Fail
       case Got(v, rest) =>
         if Values(f.dataSize) == 0 then Fail
         else Checked(CastSigned(f.dataSize, UnZigZag(v)), UnZigZag(v), rest))
    case Fixed32 => FixedValue(bs, 4)
    case Fixed64 => FixedValue(bs, 8)
    case BytesArray =>
      (match ParseVarint32(bs)
       case Fail => Fail
       case Got(n, rest) => if n + 4 > f.dataSize then Fail else AsBytes(ParseRaw(rest, n)))
    case CString =>
      (match ParseVarint32(bs)
       case Fail => Fail
       case Got(n, rest) =>
         if (n + 1) % U32 < n || (n + 1) % U32 > f.dataSize then Fail else AsBytes(ParseRaw(rest, n)))
    case FixedLengthBytes =>
      (match ParseVarint32(bs)
       case Fail => Fail
       case Got(n, rest) =>
         if n == 0 then Got(ZeroScalar(f), rest)
         else if n != f.dataSize then Fail else AsBytes(ParseRaw(rest, n)))
    case Submessage(_) => Fail
    case Extension => Fail
  }

  function FixedValue(bs: seq<Byte>, n: nat): Parsed<Val> {
    match ParseRaw(bs, n)
    case Fail => Fail
    case Got(raw, rest) => Got(Num(FromLittleEndian(raw)), rest)
  }

  function AsBytes(p: Parsed<seq<Byte>>): Parsed<Val> {
    match p
    case Fail => Fail
    case Got(raw, rest) => Got(Bytes(raw), rest)
  }

  /** What a submessage is decoded into: array entries are new, others have been initialized. */
  function SubmessageStart(f: Field, cur: Val): (slots: seq<Slot>)
    requires WfField(f) && ValFits(f, cur, false) && f.ltype.Submessage?
    ensures Fits(f.ltype.fields, slots, false)
  {
    DefaultsFit(f.ltype.fields);
    if f.htype.Repeated? then DefaultSlots(f.ltype.fields) else cur.slots
  }

  /** Reads one value into storage that holds `cur`. Only a submessage looks at it: an
      array entry starts from defaults (pb_decode), any other submessage is merged into
      (pb_decode_noinit). */
  function DecodeVal(f: Field, cur: Val, bs: seq<Byte>): (p: Parsed<Val>)
    requires WfField(f) && ValFits(f, cur, false)
    ensures p.Got? ==> |p.rest| < |bs| && ValFits(f, p.value, false)
    decreases |bs|, 0
  {
    if f.ltype.Submessage? then
      match ParseDelimited(bs)
      case Fail => Fail
      case Got(body, rest) =>
        match DecodeNoinit(f.ltype.fields, SubmessageStart(f, cur), body)
        case Fail => Fail
        case Got(slots, _) => Got(Msg(slots), rest)
    else
      PlainDecodes(f, bs);
      DecodePlain(f, bs)
  }

  lemma PlainDecodes(f: Field, bs: seq<Byte>)
    requires WfField(f) && !f.ltype.Submessage?
    ensures DecodePlain(f, bs).Got? ==> Plain(f, DecodePlain(f, bs).value)
  {
    if f.ltype.Fixed32? {
      FixedBound(bs, 4);
    } else if f.ltype.Fixed64? {
      FixedBound(bs, 8);
    } else if f.ltype.BytesArray? || f.ltype.CString? || f.ltype.FixedLengthBytes? {
      BytesDecode(f, bs);
    } else {
      NumberDecodes(f, bs);
    }
  }

  lemma NumberDecodes(f: Field, bs: seq<Byte>)
    requires WfField(f) && (f.ltype.Bool? || f.ltype.Varint? || f.ltype.UVarint? || f.ltype.SVarint? || f.ltype.Extension?)
    ensures DecodePlain(f, bs).Got? ==> Plain(f, DecodePlain(f, bs).value)
  {
  }

  lemma BytesDecode(f: Field, bs: seq<Byte>)
    requires WfField(f) && (f.ltype.BytesArray? || f.ltype.CString? || f.ltype.FixedLengthBytes?)
    ensures DecodePlain(f, bs).Got? ==> Plain(f, DecodePlain(f, bs).value)
  {
  }

  lemma FixedBound(bs: seq<Byte>, n: nat)
    requires n == 4 || n == 8
    ensures |bs| >= n ==> FromLittleEndian(bs[..n]) < if n == 4 then U32 else U64
  {
    if |bs| >= n { FromLittleEndianBound(bs[..n]); }
    Pow2At32(); Pow2At64();
  }

  /** The body of a packed array, appended to the items received so far. */
  function DecodePacked(f: Field, items: seq<Val>, body: seq<Byte>): (r: Option<seq<Val>>)
    requires WfField(f)
    requires forall k :: 0 <= k < |items| ==> ValFits(f, items[k], false)
    ensures r.Some? ==> forall k :: 0 <= k < |r.value| ==> ValFits(f, r.value[k], false)
    decreases |body|, 1
  {
    if body == [] then Some(items)
    else if |items| >= f.arraySize then None
    else
      DefaultFits(f);
      match DecodeVal(f, DefaultVal(f), body)
      case Fail => None
      case Got(v, rest) => DecodePacked(f, items + [v], rest)
  }

  /** decode_static_field for a repeated field. */
  function DecodeRepeated(f: Field, items: seq<Val>, wireType: nat, bs: seq<Byte>): (p: Parsed<seq<Val>>)
    requires WfField(f)
    requires forall k :: 0 <= k < |items| ==> ValFits(f, items[k], false)
    ensures p.Got? ==> |p.rest| < |bs| && forall k :: 0 <= k < |p.value| ==> ValFits(f, p.value[k], false)
    decreases |bs|, 2
  {
    if wireType == WT_STRING && f.Packable() then
      match ParseDelimited(bs)
      case Fail => Fail
      case Got(body, rest) =>
        match DecodePacked(f, items, body)
        case None => Fail
        case Some(received) => Got(received, rest)
    else if |items| >= f.arraySize then Fail
    else
      DefaultFits(f);
      match DecodeVal(f, DefaultVal(f), bs)
      case Fail => Fail
      case Got(v, rest) => Got(items + [v], rest)
  }

  // --------------------------------------------------------------- messages

  /** The state of pb_decode_noinit's loop: the structure, the fixed-count array being
      received, and the indices (among required fields) of the required fields seen. */
  datatype State = State(slots: seq<Slot>, fixed: Option<nat>, seen: set<nat>)

  ghost predicate StateFits(fields: seq<Field>, st: State) {
    && WfFields(fields)
    && Fits(fields, st.slots, false)
    && (st.fixed.Some? ==> st.fixed.value < |fields| && fields[st.fixed.value].FixedCount()
                           && RightKind(fields[st.fixed.value], st.slots[st.fixed.value]))
  }

  /** The array being received has all its elements. */
  predicate FixedDone(fields: seq<Field>, st: State)
    requires |st.slots| == |fields|
    requires st.fixed.Some? ==> st.fixed.value < |fields| && st.slots[st.fixed.value].Many?
  {
    st.fixed.Some? ==> |st.slots[st.fixed.value].items| == fields[st.fixed.value].arraySize
  }

  predicate AllRequiredSeen(fields: seq<Field>, seen: set<nat>) {
    forall k: nat :: k < RequiredBefore(fields, |fields|) && k < MAX_REQUIRED_FIELDS ==> k in seen
  }

  /** Storing into union member `i` overwrites the other members of its union. */
  function SetMember(fields: seq<Field>, slots: seq<Slot>, i: nat, v: Val): (r: seq<Slot>)
    requires i < |fields| == |slots|
    ensures |r| == |slots|
  {
    seq(|slots|, k requires 0 <= k < |slots| =>
      if k == i then Member(Some(v)) else if SameUnion(fields, i, k) then Member(None) else slots[k])
  }

  /** The storage a value of field `i` (not repeated) is read into. A union member that
      was not the current one is zeroed and set to defaults first. */
  function Target(f: Field, s: Slot): Val
    requires s.Single? || s.Opt? || s.Member?
  {
    match s
    case Single(v) => v
    case Opt(_, v) => v
    case Member(cur) => if cur.Some? then cur.value else DefaultVal(f)
  }

  /** decode_field on field `i`. */
  function DecodeField(fields: seq<Field>, st: State, i: nat, wireType: nat, bs: seq<Byte>): (p: Parsed<State>)
    requires StateFits(fields, st) && i < |fields|
    ensures p.Got? ==> |p.rest| < |bs| && StateFits(fields, p.value)
    decreases |bs|, 3
  {
    var f := fields[i];
    SlotAt(fields, st.slots, i, false);
    match f.htype
    case Repeated =>
      var restart := f.FixedCount() && st.fixed != Some(i);
      if restart && !FixedDone(fields, st) then Fail
      else
        var items := if restart then [] else st.slots[i].items;
        (match DecodeRepeated(f, items, wireType, bs)
         case Fail => Fail
         case Got(received, rest) =>
           var slots := st.slots[i := Many(received)];
           StoreItemsFits(fields, st.slots, i, received);
           Got(State(slots, if f.FixedCount() then Some(i) else st.fixed, st.seen), rest))
    case _ =>
      DefaultFits(f);
      match DecodeVal(f, Target(f, st.slots[i]), bs)
      case Fail => Fail
      case Got(v, rest) =>
        StoreFits(fields, st.slots, i, v);
        Got(State(Store(fields, st.slots, i, v), st.fixed, Seen(fields, st.seen, i)), rest)
  }

  /** The structure after reading `v` into field `i`, which is not repeated. */
  function Store(fields: seq<Field>, slots: seq<Slot>, i: nat, v: Val): (r: seq<Slot>)
    requires i < |fields| == |slots|
    ensures |r| == |slots|
  {
    match slots[i]
    case Opt(_, _) => slots[i := Opt(true, v)]
    case Member(_) => SetMember(fields, slots, i, v)
    case _ => slots[i := Single(v)]
  }

  lemma StoreFits(fields: seq<Field>, slots: seq<Slot>, i: nat, v: Val)
    requires WfFields(fields) && Fits(fields, slots, false)
    requires i < |fields| && !fields[i].htype.Repeated? && ValFits(fields[i], v, false)
    ensures Fits(fields, Store(fields, slots, i, v), false)
  {
    var r := Store(fields, slots, i, v);
    forall k | 0 <= k < |fields| ensures SlotFits(fields[k], r[k], false) {
      SlotAt(fields, slots, k, false);
      SlotAt(fields, slots, i, false);
    }
    StoreKeepsUnions(fields, slots, i, v);
  }

  lemma StoreKeepsUnions(fields: seq<Field>, slots: seq<Slot>, i: nat, v: Val)
    requires i < |fields| == |slots| && OneMemberPerUnion(fields, slots)
    ensures OneMemberPerUnion(fields, Store(fields, slots, i, v))
  {
    var r := Store(fields, slots, i, v);
    forall j, k | 0 <= j < |fields| && 0 <= k < |fields| && j != k && SameUnion(fields, j, k)
                  && r[j].Member? && r[j].cur.Some? && r[k].Member?
      ensures r[k].cur.None?
    {
      if j != i && k != i { assert r[j] == slots[j]; }
    }
  }

  lemma StoreItemsFits(fields: seq<Field>, slots: seq<Slot>, i: nat, items: seq<Val>)
    requires Fits(fields, slots, false)
    requires i < |fields| && fields[i].htype.Repeated?
    requires forall k :: 0 <= k < |items| ==> ValFits(fields[i], items[k], false)
    ensures Fits(fields, slots[i := Many(items)], false)
  {
    var r := slots[i := Many(items)];
    forall k | 0 <= k < |fields| ensures SlotFits(fields[k], r[k], false) {
      SlotAt(fields, slots, k, false);
    }
    assert OneMemberPerUnion(fields, r) by {
      SlotAt(fields, slots, i, false);
      assert forall k :: 0 <= k < |r| && r[k].Member? ==> r[k] == slots[k];
    }
  }

  /** fields_seen. */
  function Seen(fields: seq<Field>, seen: set<nat>, i: nat): set<nat>
    requires i < |fields|
  {
    if fields[i].htype.Required? && RequiredBefore(fields, i) < MAX_REQUIRED_FIELDS
    then seen + {RequiredBefore(fields, i)} else seen
  }

  /** One record after its tag: a known field is decoded, any other is skipped. */
  function DecodeRecord(fields: seq<Field>, st: State, tag: nat, wireType: nat, bs: seq<Byte>): (p: Parsed<State>)
    requires StateFits(fields, st)
    ensures p.Got? ==> |p.rest| < |bs| && StateFits(fields, p.value)
    decreases |bs|, 4
  {
    match FindField(fields, tag)
    case Some(i) => DecodeField(fields, st, i, wireType, bs)
    case None =>
      match SkipField(wireType, bs)
      case Fail => Fail
      case Got(_, rest) => Got(st, rest)
  }

  /** How the loop ends: with an error, at the end of the stream, or at a zero tag. */
  datatype Loop = Failed | AtEnd(st: State) | AtZero(st: State, rest: seq<Byte>)

  function DecodeLoop(fields: seq<Field>, st: State, bs: seq<Byte>): (l: Loop)
    requires StateFits(fields, st)
    ensures !l.Failed? ==> StateFits(fields, l.st)
    decreases |bs|, 5
  {
    if bs == [] then AtEnd(st)
    else
      match ParseTag(bs)
      case BadTag => Failed
      case ZeroTag(rest) => AtZero(st, rest)
      case Tag(tag, wireType, rest) =>
        match DecodeRecord(fields, st, tag, wireType, rest)
        case Fail => Failed
        case Got(st', rest') => DecodeLoop(fields, st', rest')
  }

  /** The checks after the loop. */
  function Finish(fields: seq<Field>, l: Loop): (p: Parsed<seq<Slot>>)
    requires !l.Failed? ==> StateFits(fields, l.st)
  {
    if l.Failed? then Fail
    else if FixedDone(fields, l.st) && AllRequiredSeen(fields, l.st.seen)
    then Got(l.st.slots, if l.AtZero? then l.rest else [])
    else Fail
  }

  /** pb_decode_noinit. */
  function DecodeNoinit(fields: seq<Field>, slots: seq<Slot>, bs: seq<Byte>): (p: Parsed<seq<Slot>>)
    requires WfFields(fields) && Fits(fields, slots, false)
    ensures p.Got? ==> Fits(fields, p.value, false)
    decreases |bs|, 6
  {
    Finish(fields, DecodeLoop(fields, State(slots, None, {}), bs))
  }

  /** pb_decode: every field of the structure is first set to its default. */
  function Decode(fields: seq<Field>, bs: seq<Byte>): (p: Parsed<seq<Slot>>)
    requires WfFields(fields)
    ensures p.Got? ==> Fits(fields, p.value, false)
  {
    DefaultsFit(fields);
    DecodeNoinit(fields, DefaultSlots(fields), bs)
  }

  lemma {:induction false} FindFromFinds(fields: seq<Field>, i: nat, k: nat)
    requires WfFields(fields) && k <= i < |fields|
    ensures FindFrom(fields, fields[i].tag, k) == Some(i)
    decreases i - k
  {
    assert WfField(fields[i]);
    if k < i { FindFromFinds(fields, i, k + 1); }
  }

  /** Different required fields have different numbers. */
  lemma {:induction false} NumbersIncrease(fields: seq<Field>, i: nat, k: nat)
    requires i < k <= |fields| && fields[i].htype.Required?
    ensures RequiredBefore(fields, i) < RequiredBefore(fields, k)
  {
    if i + 1 < k { NumbersIncrease(fields, i, k - 1); }
  }
}
