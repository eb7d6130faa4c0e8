/** The wire format in numbers: what is sent for each type, and what is skipped and refused. */
module Format {
  import opened Bits
  import opened Wire
  import opened WireProofs
  import opened Wrappers
  import opened Message
  import opened EncodeSpec
  import opened DecodeSpec

  // ------------------------------------------------ base 128

  /** The number that groups of seven bits make up, the low ones first. */
  function Groups(bs: seq<Byte>): nat {
    if bs == [] then 0 else bs[0] % 128 + 128 * Groups(bs[1..])
  }

  /** An encoded varint: its groups are those of the value, every byte but the last says that
      more follow, and there are no more than the value needs. */
  lemma {:induction false} VarintIsBase128(v: nat)
    ensures var bs := VarintBytes(v);
            Groups(bs) == v && bs[|bs| - 1] < 128 && (|bs| > 1 ==> bs[|bs| - 1] > 0)
            && forall k :: 0 <= k < |bs| - 1 ==> bs[k] >= 128
    decreases v
  {
    LowSeven(v);
    if v >= 128 {
      VarintIsBase128(v / 128);
      assert VarintBytes(v)[1..] == VarintBytes(v / 128);
    }
  }

  // ------------------------------------------------ skipping

  /** A varint ends with the first byte below 128. */
  lemma {:induction false} VarintIsSkipped(bs: seq<Byte>, k: nat)
    requires k < |bs| && bs[k] < 128 && forall j :: 0 <= j < k ==> bs[j] >= 128
    ensures SkipVarint(bs) == Got((), bs[k + 1..])
  {
    if k > 0 {
      VarintIsSkipped(bs[1..], k - 1);
      assert bs[1..][k..] == bs[k + 1..];
    }
  }

  lemma {:induction false} EndlessVarint(bs: seq<Byte>)
    requires forall j :: 0 <= j < |bs| ==> bs[j] >= 128
    ensures SkipVarint(bs) == Fail
  {
    if bs != [] { EndlessVarint(bs[1..]); }
  }

  /** What each wire type skips: 1 eight bytes and 5 four, 0 a varint of any length, 2 a length
      and so many bytes; there are no others. */
  lemma SkipsByWireType(wireType: nat, bs: seq<Byte>)
    ensures wireType == 0 ==>
              (forall k :: 0 <= k < |bs| && bs[k] < 128 && (forall j :: 0 <= j < k ==> bs[j] >= 128) ==>
                 SkipField(0, bs) == Got((), bs[k + 1..]))
              && ((forall j :: 0 <= j < |bs| ==> bs[j] >= 128) ==> SkipField(0, bs) == Fail)
    ensures wireType == 1 ==> SkipField(1, bs) == if |bs| >= 8 then Got((), bs[8..]) else Fail
    ensures wireType == 2 ==>
              SkipField(2, bs) == match ParseVarint32(bs)
                                  case Fail => Fail
                                  case Got(n, rest) => if |rest| >= n then Got((), rest[n..]) else Fail
    ensures wireType == 5 ==> SkipField(5, bs) == if |bs| >= 4 then Got((), bs[4..]) else Fail
    ensures wireType !in {0, 1, 2, 5} ==> SkipField(wireType, bs) == Fail
  {
    forall k | 0 <= k < |bs| && bs[k] < 128 && (forall j :: 0 <= j < k ==> bs[j] >= 128)
      ensures SkipVarint(bs) == Got((), bs[k + 1..])
    {
      VarintIsSkipped(bs, k);
    }
    if forall j :: 0 <= j < |bs| ==> bs[j] >= 128 { EndlessVarint(bs); }
  }

  // ------------------------------------------------ headers

  /** The wire type of a value. */
  function HeaderNumber(l: LType): nat {
    match l
    case Fixed32 => 5
    case Fixed64 => 1
    case Bool => 0
    case Varint => 0
    case UVarint => 0
    case SVarint => 0
    case _ => 2
  }

  /** The wire type of what is sent for a field: arrays of numbers are packed. */
  function FieldNumber(f: Field): nat {
    if f.htype.Repeated? && HeaderNumber(f.ltype) != 2 then 2 else HeaderNumber(f.ltype)
  }

  lemma RecordIs(f: Field, v: Val)
    requires ValFits(f, v, true) && EncodeRecord(f, v).Some? && !f.ltype.Extension?
    ensures EncodeVal(f, v).Some?
            && EncodeRecord(f, v).value == VarintBytes(8 * f.tag + HeaderNumber(f.ltype)) + EncodeVal(f, v).value
  {
  }

  lemma FirstRecord(f: Field, items: seq<Val>)
    requires items != [] && forall k :: 0 <= k < |items| ==> ValFits(f, items[k], true)
    requires EncodeRecords(f, items).Some? && !f.ltype.Extension?
    ensures VarintBytes(8 * f.tag + HeaderNumber(f.ltype)) <= EncodeRecords(f, items).value
  {
    RecordIs(f, items[0]);
  }

  /** What is sent for a field starts with the varint of eight times its tag plus the wire
      type, if anything is sent. */
  lemma {:induction false} FieldStartsWithHeader(f: Field, s: Slot)
    requires SlotFits(f, s, true) && EncodeSlot(f, s).Some? && EncodeSlot(f, s).value != [] && !f.ltype.Extension?
    ensures VarintBytes(8 * f.tag + FieldNumber(f)) <= EncodeSlot(f, s).value
  {
    match f.htype
    case Required => RecordIs(f, s.v);
    case Optional => RecordIs(f, s.v);
    case OneOf => RecordIs(f, s.cur.value);
    case Repeated =>
      if f.Packable() {
        ArrayIsPacked(f, s.items);
      } else {
        assert EncodeArray(f, s.items) == EncodeRecords(f, s.items);
        FirstRecord(f, s.items);
      }
  }

  /** An array of numbers is sent as one record: header, length and items, nothing between. */
  lemma ArrayIsPacked(f: Field, items: seq<Val>)
    requires HeaderNumber(f.ltype) != 2 && items != [] && forall k :: 0 <= k < |items| ==> ValFits(f, items[k], true)
    requires EncodeArray(f, items).Some? && !f.ltype.Extension?
    ensures EncodeItems(f, items).Some?
            && var body := EncodeItems(f, items).value;
               EncodeArray(f, items).value == VarintBytes(8 * f.tag + 2) + (VarintBytes(|body| % U64) + body)
  {
  }

  // ------------------------------------------------ strings

  /** What is sent of a char array: all of it before the first zero. */
  lemma {:induction false} StringIsUpToNul(bs: seq<Byte>)
    ensures var r := UpToNul(bs);
            r == bs[..|r|] && (|r| < |bs| ==> bs[|r|] == 0) && forall k :: 0 <= k < |r| ==> r[k] != 0
  {
    if bs != [] && bs[0] != 0 { StringIsUpToNul(bs[1..]); }
  }

  // ------------------------------------------------ numbers

  /** The number that a varint stands for. Of an int field of less than 64 bits only the low
      32 bits count. */
  function Number(f: Field, v: nat): int {
    match f.ltype
    case Varint =>
      if f.dataSize == 8 then (if v < 0x8000_0000_0000_0000 then v else v - 0x1_0000_0000_0000_0000)
      else
        var low := v % 0x1_0000_0000;
        if low < 0x8000_0000 then low else low - 0x1_0000_0000
    case SVarint => if v % 2 == 0 then v / 2 else -(v / 2) - 1
    case _ => v
  }

  /** One more than the largest number of a signed field of so many bytes. */
  function Half(size: nat): int {
    if size == 1 then 0x80 else if size == 2 then 0x8000 else if size == 4 then 0x8000_0000 else 0x8000_0000_0000_0000
  }

  predicate CanHold(f: Field, n: int) {
    if f.ltype.UVarint? then n < 2 * Half(f.dataSize) else -Half(f.dataSize) <= n < Half(f.dataSize)
  }

  /** A number is stored if its field can hold it, and refused otherwise; a bool is true unless
      it is zero. */
  lemma NumbersAreChecked(f: Field, bs: seq<Byte>)
    requires f.dataSize in {1, 2, 4, 8}
    ensures f.ltype.Bool? ==>
              DecodePlain(f, bs) == match ParseVarint32(bs)
                                    case Fail => Fail
                                    case Got(v, rest) => Got(Num(if v == 0 then 0 else 1), rest)
    ensures f.ltype.Varint? || f.ltype.UVarint? || f.ltype.SVarint? ==>
              DecodePlain(f, bs) == match ParseVarint(bs)
                                    case Fail => Fail
                                    case Got(v, rest) =>
                                      if CanHold(f, Number(f, v)) then Got(Num(Number(f, v)), rest) else Fail
  {
    var p := ParseVarint(bs);
    if p.Got? {
      match f.ltype
      case Varint => CastIsRange(f.dataSize, Number(f, p.value));
      case SVarint =>
        UnZigZagIs(p.value);
        CastIsRange(f.dataSize, Number(f, p.value));
      case UVarint => RemainderIsRange(f.dataSize, p.value);
      case _ =>
    }
  }

  lemma CastIsRange(size: nat, n: int)
    requires size in {1, 2, 4, 8}
    ensures CastSigned(size, n) == n <==> -Half(size) <= n < Half(size)
  {
  }

  lemma RemainderIsRange(size: nat, v: nat)
    requires size in {1, 2, 4, 8}
    ensures v % Values(size) == v <==> v < 2 * Half(size)
  {
  }

  lemma UnZigZagIs(v: nat)
    requires v < U64
    ensures UnZigZag(v) == if v % 2 == 0 then v / 2 else -(v / 2) - 1
  {
  }

  /** Strings and bytes are stored if their field can hold them, strings with a terminator and
      bytes with a count of four bytes; of a fixed length, exactly that length or, for none,
      zeros. */
  lemma LengthsAreChecked(f: Field, bs: seq<Byte>)
    requires f.ltype.CString? || f.ltype.BytesArray? || f.ltype.FixedLengthBytes?
    requires f.dataSize <= PB_SIZE_MAX
    ensures DecodePlain(f, bs)
         == match ParseVarint32(bs)
            case Fail => Fail
            case Got(n, rest) =>
              if f.ltype.FixedLengthBytes? && n == 0 then Got(Bytes(seq(f.dataSize, _ => 0)), rest)
              else if |rest| >= n
                      && (if f.ltype.CString? then n + 1 <= f.dataSize
                          else if f.ltype.BytesArray? then 4 + n <= f.dataSize else n == f.dataSize)
              then Got(Bytes(rest[..n]), rest[n..]) else Fail
  {
  }

  // ------------------------------------------------ one message of each kind

  lemma PlainRecord(f: Field, v: Val, record: seq<Byte>)
    requires Plain(f, v) && f.tag == 1 && !f.ltype.Extension?
    requires record != [] && record[0] == 8 + HeaderNumber(f.ltype) && EncodePlain(f, v) == Some(record[1..])
    ensures EncodeRecord(f, v) == Some(record)
  {
    assert EncodeVal(f, v) == Some(record[1..]);
    assert VarintBytes(record[0]) == [record[0]];
    assert [record[0]] + record[1..] == record;
  }

  /** A number of every type, in a field of tag 1. */
  lemma NumbersSent(f: Field)
    requires f.tag == 1 && f.dataSize == 4
    ensures f.ltype.Bool? ==> EncodeRecord(f, Num(1)) == Some([8, 1])
    ensures f.ltype.UVarint? ==> EncodeRecord(f, Num(300)) == Some([8, 172, 2])
    ensures f.ltype.SVarint? ==> EncodeRecord(f, Num(-2)) == Some([8, 3])
  {
    match f.ltype
    case Bool => PlainRecord(f, Num(1), [8, 1]);
    case UVarint =>
      assert VarintBytes(300) == [172] + VarintBytes(2) == [172, 2];
      PlainRecord(f, Num(300), [8, 172, 2]);
    case SVarint =>
      ZigZagInverts(-2);
      PlainRecord(f, Num(-2), [8, 3]);
    case _ =>
  }

  /** A negative number takes ten bytes. */
  lemma NegativeSent(f: Field)
    requires f.tag == 1 && f.dataSize == 4 && f.ltype.Varint?
    ensures EncodeRecord(f, Num(-1)) == Some([8, 255, 255, 255, 255, 255, 255, 255, 255, 255, 1])
  {
    MinusOne();
    assert (-1) % U64 == 0xFFFF_FFFF_FFFF_FFFF;
    PlainRecord(f, Num(-1), [8, 255, 255, 255, 255, 255, 255, 255, 255, 255, 1]);
  }

  lemma Fixed32Sent(f: Field)
    requires f.tag == 1 && f.ltype.Fixed32?
    ensures EncodeRecord(f, Num(258)) == Some([13, 2, 1, 0, 0])
  {
    FourBytes(258);
    PlainRecord(f, Num(258), [13, 2, 1, 0, 0]);
  }

  lemma Fixed64Sent(f: Field)
    requires f.tag == 1 && f.ltype.Fixed64?
    ensures EncodeRecord(f, Num(258)) == Some([9, 2, 1, 0, 0, 0, 0, 0, 0])
  {
    EightBytes(258);
    PlainRecord(f, Num(258), [9, 2, 1, 0, 0, 0, 0, 0, 0]);
  }

  lemma MinusOne()
    ensures VarintBytes(0xFFFF_FFFF_FFFF_FFFF) == [255, 255, 255, 255, 255, 255, 255, 255, 255, 1]
  {
    AllOnes(0xFFFF_FFFF_FFFF_FFFF, 0x1FF_FFFF_FFFF_FFFF);
    AllOnes(0x1FF_FFFF_FFFF_FFFF, 0x3_FFFF_FFFF_FFFF);
    AllOnes(0x3_FFFF_FFFF_FFFF, 0x7FF_FFFF_FFFF);
    AllOnes(0x7FF_FFFF_FFFF, 0xF_FFFF_FFFF);
    AllOnes(0xF_FFFF_FFFF, 0x1FFF_FFFF);
    AllOnes(0x1FFF_FFFF, 0x3F_FFFF);
    AllOnes(0x3F_FFFF, 0x7FFF);
    AllOnes(0x7FFF, 0xFF);
    AllOnes(0xFF, 1);
  }

  lemma AllOnes(v: nat, rest: nat)
    requires v == 128 * rest + 127 && rest > 0
    ensures VarintBytes(v) == [255] + VarintBytes(rest)
  {
  }

  lemma ShortDelimited(bs: seq<Byte>)
    requires |bs| < 128
    ensures Delimited(bs) == [|bs|] + bs
  {
  }

  /** Strings and bytes. */
  lemma StringsSent(f: Field)
    requires f.tag == 1 && f.dataSize == 8
    ensures f.ltype.CString? ==> EncodeRecord(f, Bytes([65, 0, 66])) == Some([10, 1, 65])
    ensures f.ltype.BytesArray? ==> EncodeRecord(f, Bytes([65, 0, 66])) == Some([10, 3, 65, 0, 66])
  {
    if f.ltype.CString? {
      assert [65, 0, 66][1..] == [0, 66];
      assert UpToNul([65, 0, 66]) == [65] + UpToNul([0, 66]) == [65];
      ShortDelimited([65]);
      assert [10, 1, 65][1..] == [1] + [65];
      PlainRecord(f, Bytes([65, 0, 66]), [10, 1, 65]);
    } else if f.ltype.BytesArray? {
      ShortDelimited([65, 0, 66]);
      assert [10, 3, 65, 0, 66][1..] == [3] + [65, 0, 66];
      PlainRecord(f, Bytes([65, 0, 66]), [10, 3, 65, 0, 66]);
    }
  }

  /** An array of two bools, in one record. */
  lemma ArraySent(f: Field)
    requires f.tag == 1 && f.ltype.Bool? && f.arraySize == 2
    ensures EncodeArray(f, [Num(1), Num(0)]) == Some([10, 2, 1, 0])
  {
    var items := [Num(1), Num(0)];
    assert items[1..] == [Num(0)];
    assert EncodeVal(f, items[0]) == Some([1]) && EncodeVal(f, items[1]) == Some([0]);
    assert EncodeItems(f, []) == Some([]);
    assert EncodeItems(f, [Num(0)]) == Some([0] + []) by { assert [Num(0)][1..] == []; }
    assert EncodeItems(f, items).Some? && EncodeItems(f, items).value == [1] + EncodeItems(f, items[1..]).value;
    assert EncodeItems(f, items).value == [1, 0];
    ShortDelimited([1, 0]);
    assert [10] + ([2] + [1, 0]) == [10, 2, 1, 0];
  }

  /** A submessage of one bool. */
  lemma MessageSent(f: Field, v: Val)
    requires f.tag == 1 && f.ltype == Submessage([Field(1, Bool, Required, Static, 0, 0, 1, 0, None)])
    requires v == Msg([Single(Num(1))])
    ensures ValFits(f, v, true) && EncodeRecord(f, v) == Some([10, 2, 8, 1])
  {
    var sub := f.ltype.fields;
    assert SlotFits(sub[0], v.slots[0], true);
    PlainRecord(sub[0], Num(1), [8, 1]);
    assert EncodeSlot(sub[0], v.slots[0]) == Some([8, 1]);
    assert EncodeSlots(sub, v.slots, 1) == Some([]);
    assert EncodeSlots(sub, v.slots, 0) == Some([8, 1] + []);
    ShortDelimited([8, 1]);
    assert EncodeSlots(sub, v.slots, 0).value == [8, 1];
    assert EncodeVal(f, v) == Some(Delimited([8, 1]));
    assert [10] + ([2] + [8, 1]) == [10, 2, 8, 1];
  }

  // ------------------------------------------------ what is left out

  lemma RecordIsSomething(f: Field, v: Val)
    requires ValFits(f, v, true)
    ensures EncodeRecord(f, v) != Some([])
  {
    if EncodeRecord(f, v).Some? {
      assert |EncodeRecord(f, v).value| == |TagBytes(f.tag, WireType(f.ltype))| + |EncodeVal(f, v).value|;
    }
  }

  lemma ArrayIsSomething(f: Field, items: seq<Val>)
    requires items != [] && forall k :: 0 <= k < |items| ==> ValFits(f, items[k], true)
    ensures EncodeArray(f, items) != Some([])
  {
    if !f.Packable() && EncodeArray(f, items).Some? { RecordIsSomething(f, items[0]); }
  }

  /** A field counts as default exactly if nothing is sent for it. */
  lemma DefaultIsNotSent(f: Field, s: Slot)
    requires WfField(f) && SlotFits(f, s, true) && EncodeSlot(f, s).Some?
    ensures IsDefault(f, s) <==> EncodeSlot(f, s).value == []
  {
    match f.htype
    case Required => RecordIsSomething(f, s.v);
    case Optional => RecordIsSomething(f, s.v);
    case Repeated => if s.items != [] { ArrayIsSomething(f, s.items); }
    case OneOf => if s.cur.Some? { RecordIsSomething(f, s.cur.value); }
  }

  lemma {:induction false} NothingFrom(fields: seq<Field>, slots: seq<Slot>, i: nat)
    requires WfFields(fields) && Fits(fields, slots, true) && i <= |fields| && EncodeSlots(fields, slots, i).Some?
    ensures EncodeSlots(fields, slots, i).value == [] <==> forall k :: i <= k < |fields| ==> IsDefault(fields[k], slots[k])
    decreases |fields| - i
  {
    if i < |fields| {
      SlotAt(fields, slots, i, true);
      assert WfField(fields[i]);
      DefaultIsNotSent(fields[i], slots[i]);
      NothingFrom(fields, slots, i + 1);
      var first, rest := EncodeSlot(fields[i], slots[i]).value, EncodeSlots(fields, slots, i + 1).value;
      assert first + rest == [] <==> first == [] && rest == [];
    }
  }

  /** A field without a has_ flag is left out exactly if it holds nothing but zeros: the number
      0, the empty string, no bytes, or a submessage for which nothing is sent. */
  lemma ZeroIsNotSent(f: Field, v: Val)
    requires WfField(f) && f.htype.Optional? && f.sizeOffset == 0 && ValFits(f, v, true)
    requires EncodeSlot(f, Single(v)).Some?
    requires f.ltype.Submessage? ==> Encode(f.ltype.fields, v.slots).Some?
    ensures EncodeSlot(f, Single(v)).value == []
       <==> match v
            case Num(n) => n == 0
            case Msg(slots) => Encode(f.ltype.fields, slots).value == []
            case Bytes(bs) =>
              if f.ltype.CString? then bs == [] || bs[0] == 0
              else if f.ltype.BytesArray? then bs == [] else f.dataSize == 0
  {
    DefaultIsNotSent(f, Single(v));
    if f.ltype.Submessage? { NothingFrom(f.ltype.fields, v.slots, 0); }
  }
}
