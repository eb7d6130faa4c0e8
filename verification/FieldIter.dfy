/** pb_field_iter_t: walking the fields of a structure in step with its memory. */
module FieldIteration {
  import opened Message
  import opened DecodeSpec

  /** sizeof(void*). */
  const POINTER_SIZE: nat := 8

  /** pb_membersize: the bytes a member takes in the structure. */
  function MemberSize(f: Field): nat {
    if f.atype.Static? && f.htype.Repeated? then f.dataSize * f.arraySize
    else if f.atype.Pointer? then POINTER_SIZE
    else f.dataSize
  }

  /** The bytes that a structure sets aside for a member. */
  function SizeOf(f: Field): nat {
    match f.atype
    case Pointer => 8
    case Static => if f.htype.Repeated? then f.arraySize * f.dataSize else f.dataSize
    case Callback => f.dataSize
  }

  /** The data_offset entries that the PB_DATAOFFSET_ macros give a structure whose
      members are at the given offsets: the distance from the end of the previous
      member, or a mark on the members of a union after the first. */
  predicate LaidOut(fields: seq<Field>, offsets: seq<nat>) {
    && |offsets| == |fields|
    && (fields != [] ==> fields[0].dataOffset == offsets[0])
    && (forall i :: 0 < i < |fields| ==>
          if InUnionOfPrevious(fields, i) then offsets[i] == offsets[i - 1]
          else fields[i].dataOffset == offsets[i] - offsets[i - 1] - SizeOf(fields[i - 1]))
  }

  /** Where the iterator's arithmetic puts field `i`. */
  function Offset(fields: seq<Field>, i: nat): nat
    requires i < |fields| || i == 0
  {
    if fields == [] then 0
    else if i == 0 then fields[0].dataOffset
    else if InUnionOfPrevious(fields, i) then Offset(fields, i - 1)
    else Offset(fields, i - 1) + MemberSize(fields[i - 1]) + fields[i].dataOffset
  }

  /** It is where the member is, through unions, arrays and pointers. */
  lemma {:induction false} OffsetIsTrue(fields: seq<Field>, offsets: seq<nat>, i: nat)
    requires LaidOut(fields, offsets) && i < |fields|
    ensures Offset(fields, i) == offsets[i]
  {
    if i > 0 { OffsetIsTrue(fields, offsets, i - 1); }
  }

  /** A field with that tag that pb_field_iter_find may return. */
  predicate Matches(f: Field, tag: nat) {
    f.tag == tag && !f.ltype.Extension?
  }

  /** `k` comes before `b` when going round from `a`. */
  predicate Passed(a: nat, k: nat, b: nat) {
    if a <= b then a <= k < b else a <= k || k < b
  }

  /** What the iterator needs of a descriptor list: tags are not the terminator's. */
  predicate Walkable(fields: seq<Field>) {
    fields != [] && (forall i :: 0 <= i < |fields| ==> fields[i].tag != 0) && UnionsShareSize(fields)
  }

  lemma WfIsWalkable(fields: seq<Field>)
    requires WfFields(fields)
    ensures Walkable(fields)
  {
    assert forall i :: 0 <= i < |fields| ==> WfField(fields[i]);
  }

  class FieldIter {
    const fields: seq<Field>       // start, up to the terminator
    const base: nat                // dest_struct
    var pos: nat
    var pData: nat
    var pSize: int
    var requiredFieldIndex: nat

    /** The iterator stands at a field, and points to it. */
    ghost predicate Valid()
      reads this
    {
      && Walkable(fields) && pos < |fields|
      && pData == base + Offset(fields, pos)
      && requiredFieldIndex == RequiredBefore(fields, pos)
      && (fields[pos].FixedCount() || SizeInPlace())
    }

    /** `pSize` is what the descriptor says. The decoder points it elsewhere at
        fixed-count arrays. */
    ghost predicate SizeInPlace()
      requires pos < |fields|
      reads this
    {
      pSize == pData + fields[pos].sizeOffset
    }

    /** pb_field_iter_begin, on an iterator just declared. */
    constructor Begin(fields: seq<Field>, base: nat)
      requires Walkable(fields)
      ensures this.fields == fields && this.base == base
      ensures Valid() && pos == 0 && SizeInPlace()
    {
      this.fields, this.base := fields, base;
      pos := 0;
      requiredFieldIndex := 0;
      pData := base + fields[0].dataOffset;
      pSize := base + fields[0].dataOffset + fields[0].sizeOffset;
    }

    /** pb_field_iter_next: false when it wraps to the first field. */
    method Next() returns (more: bool)
      requires Valid()
      modifies this
      ensures Valid() && SizeInPlace()
      ensures more == (old(pos) + 1 < |fields|)
      ensures pos == if more then old(pos) + 1 else 0
    {
      var prev := fields[pos];
      pos := pos + 1;
      if pos == |fields| {
        pos := 0;
        requiredFieldIndex := 0;
        pData := base + fields[0].dataOffset;
        pSize := pData + fields[0].sizeOffset;
        return false;
      }
      var prevSize := prev.dataSize;
      if prev.htype.OneOf? && fields[pos].htype.OneOf? && fields[pos].dataOffset == PB_SIZE_MAX {
        return true;
      } else if prev.atype.Static? && prev.htype.Repeated? {
        prevSize := prevSize * prev.arraySize;
      } else if prev.atype.Pointer? {
        prevSize := POINTER_SIZE;
      }
      if prev.htype.Required? {
        requiredFieldIndex := requiredFieldIndex + 1;
      }
      pData := pData + prevSize + fields[pos].dataOffset;
      pSize := pData + fields[pos].sizeOffset;
      return true;
    }

    /** pb_field_iter_find: goes round the fields from the current one, and is back
        there when no field has the tag. */
    method Find(tag: nat) returns (found: bool)
      requires Valid()
      modifies this
      ensures Valid()
      ensures found <==> exists i :: 0 <= i < |fields| && Matches(fields[i], tag)
      ensures found ==> Matches(fields[pos], tag)
      ensures found ==> forall k :: 0 <= k < |fields| && Passed(old(pos), k, pos) ==> !Matches(fields[k], tag)
      ensures !found ==> pos == old(pos) && SizeInPlace()
      ensures found ==> if pos == old(pos) then pSize == old(pSize) else SizeInPlace()
    {
      var start := pos;
      ghost var wrapped := false;
      while true
        invariant Valid()
        invariant wrapped == (pos < start)
        invariant forall k :: 0 <= k < |fields| && Passed(start, k, pos) ==> !Matches(fields[k], tag)
        invariant if pos == start then pSize == old(pSize) else SizeInPlace()
        decreases !wrapped, |fields| - pos
      {
        if fields[pos].tag == tag && !fields[pos].ltype.Extension? { return true; }
        var more := Next();
        if pos == start { break; }
        wrapped := pos < start;
      }
      return false;
    }

    /** find_extension_field: the same walk for the extension placeholder. */
    method FindExtension() returns (found: bool)
      requires Valid()
      modifies this
      ensures Valid()
      ensures found <==> exists i :: 0 <= i < |fields| && fields[i].ltype.Extension?
      ensures found ==> fields[pos].ltype.Extension?
      ensures !found ==> pos == old(pos) && SizeInPlace()
    {
      var start := pos;
      ghost var wrapped := false;
      while true
        invariant Valid()
        invariant wrapped == (pos < start)
        invariant forall k :: 0 <= k < |fields| && Passed(start, k, pos) ==> !fields[k].ltype.Extension?
        decreases !wrapped, |fields| - pos
      {
        if fields[pos].ltype.Extension? { return true; }
        var more := Next();
        if pos == start { break; }
        wrapped := pos < start;
      }
      return false;
    }
  }
}
