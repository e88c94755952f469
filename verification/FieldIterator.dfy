/** The descriptor iterator of `pb_common.c` and the layout macros of `pb.h`. */
module FieldIterator {
  import opened Descriptors

  const ADDRESS_SIZE: nat := 8

  /** PB_LAST_FIELD, which closes every descriptor list. */
  const LAST_FIELD: Field := Field(0, Required, Static, Varint, 0, 0, 0, 0, NoDefault)

  function At(fields: seq<Field>, i: nat): Field {
    if i < |fields| then fields[i] else LAST_FIELD
  }

  /** PB_LAST_FIELD is recognised by its tag alone. */
  predicate TagsNonzero(fields: seq<Field>) { forall i :: 0 <= i < |fields| ==> fields[i].tag != 0 }

  lemma OkTagsNonzero(fields: seq<Field>)
    requires FieldsOk(fields)
    ensures TagsNonzero(fields)
  {
    assert forall i :: 0 <= i < |fields| ==> FieldOk(fields[i]);
  }

  predicate Matches(f: Field, tag: nat) { f.tag == tag && !f.ltype.Extension? }

  /** Bytes that a field occupies in the struct. */
  function FieldExtent(f: Field): nat {
    if f.atype.Static? && f.htype.Repeated? then f.dataSize * f.arraySize
    else if f.atype.Pointer? then ADDRESS_SIZE
    else f.dataSize
  }

  /** The data pointer of field i by the running sum of the deltas. */
  function DataAt(fields: seq<Field>, base: int, i: nat): int {
    if i == 0 then base + At(fields, 0).dataOffset
    else if SharesUnion(At(fields, i - 1), At(fields, i)) then DataAt(fields, base, i - 1)
    else DataAt(fields, base, i - 1) + FieldExtent(At(fields, i - 1)) + At(fields, i).dataOffset
  }

  function SizeAt(fields: seq<Field>, base: int, i: nat): int {
    if i > 0 && SharesUnion(At(fields, i - 1), At(fields, i)) then SizeAt(fields, base, i - 1)
    else DataAt(fields, base, i) + At(fields, i).sizeOffset
  }

  class FieldIter {
    const fields: seq<Field>
    const destStruct: int
    var pos: nat
    var requiredFieldIndex: nat
    var pData: int
    var pSize: int

    /** The pointers and the counter are those of the field at pos. */
    ghost predicate Valid()
      reads this
    {
      && (pos < |fields| || pos == |fields| == 0)
      && requiredFieldIndex == RequiredBefore(fields, pos)
      && pData == DataAt(fields, destStruct, pos)
      && pSize == SizeAt(fields, destStruct, pos)
    }

    constructor (fields: seq<Field>, destStruct: int)
      ensures Valid() && pos == 0 && this.fields == fields && this.destStruct == destStruct
    {
      this.fields := fields;
      this.destStruct := destStruct;
      new;
      var _ := Begin();
    }

    method Begin() returns (nonEmpty: bool)
      modifies this
      ensures Valid() && pos == 0
      ensures nonEmpty <==> At(fields, 0).tag != 0
    {
      pos := 0;
      requiredFieldIndex := 0;
      pData := destStruct + At(fields, pos).dataOffset;
      pSize := pData + At(fields, pos).sizeOffset;
      nonEmpty := At(fields, pos).tag != 0;
    }

    /** One step around the descriptor list. */
    method Next() returns (more: bool)
      requires Valid() && TagsNonzero(fields)
      modifies this
      ensures Valid()
      ensures more <==> old(pos) + 1 < |fields|
      ensures pos == if more then old(pos) + 1 else 0
    {
      var prev := At(fields, pos);
      if prev.tag == 0 {
        return false;
      }
      pos := pos + 1;
      var here := At(fields, pos);
      if here.tag == 0 {
        var _ := Begin();
        return false;
      }
      var prevSize := prev.dataSize;
      if SharesUnion(prev, here) {
        return true;
      } else if prev.atype.Static? && prev.htype.Repeated? {
        prevSize := prevSize * prev.arraySize;
      } else if prev.atype.Pointer? {
        prevSize := ADDRESS_SIZE;
      }
      if prev.htype.Required? {
        requiredFieldIndex := requiredFieldIndex + 1;
      }
      pData := pData + prevSize + here.dataOffset;
      pSize := pData + here.sizeOffset;
      return true;
    }

    /** Searches at most one lap; succeeds iff some field matches (an empty list matches tag 0). */
    method Find(tag: nat) returns (found: bool)
      requires Valid() && TagsNonzero(fields)
      modifies this
      ensures Valid()
      ensures found ==> Matches(At(fields, pos), tag)
      ensures found <==> (exists i :: 0 <= i < |fields| && Matches(fields[i], tag)) || (|fields| == 0 && tag == 0)
      ensures !found ==> pos == old(pos)
    {
      var start := pos;
      ghost var wrapped := false;
      while true
        invariant Valid()
        invariant if wrapped then pos < start else start <= pos
        invariant forall i :: start <= i < (if wrapped then |fields| else pos) ==> !Matches(fields[i], tag)
        invariant wrapped ==> forall i :: 0 <= i < pos ==> !Matches(fields[i], tag)
        decreases !wrapped, |fields| - pos
      {
        if Matches(At(fields, pos), tag) {
          return true;
        }
        var more := Next();
        wrapped := wrapped || !more;
        if pos == start {
          return false;
        }
      }
    }

    /** Searches at most one lap for the extension placeholder. */
    method FindExtension() returns (found: bool)
      requires Valid() && TagsNonzero(fields)
      modifies this
      ensures Valid()
      ensures found ==> At(fields, pos).ltype.Extension?
      ensures found <==> exists i :: 0 <= i < |fields| && fields[i].ltype.Extension?
      ensures !found ==> pos == old(pos)
    {
      var start := pos;
      ghost var wrapped := false;
      while true
        invariant Valid()
        invariant if wrapped then pos < start else start <= pos
        invariant forall i :: start <= i < (if wrapped then |fields| else pos) ==> !fields[i].ltype.Extension?
        invariant wrapped ==> forall i :: 0 <= i < pos ==> !fields[i].ltype.Extension?
        decreases !wrapped, |fields| - pos
      {
        if At(fields, pos).ltype.Extension? {
          return true;
        }
        var more := Next();
        wrapped := wrapped || !more;
        if pos == start {
          return false;
        }
      }
    }
  }

  /** All members of a union share one data pointer and one selector. */
  lemma {:induction false} UnionSharesPointers(fields: seq<Field>, base: int, i: nat)
    requires i < |fields|
    ensures var g := Group(fields, i);
            DataAt(fields, base, i) == DataAt(fields, base, g) && SizeAt(fields, base, i) == SizeAt(fields, base, g)
  {
    if i > 0 && SharesUnion(fields[i - 1], fields[i]) {
      UnionSharesPointers(fields, base, i - 1);
    }
  }

  // ----- the macros that fill in the deltas

  datatype Placement = PlaceFirst | PlaceOther | PlaceUnion

  /** A struct member as the compiler lays it out: where it starts, where its has_, _count or which_
    * member starts (none for required, singular and callback fields), and its item size. */
  datatype Member = Member(tag: nat, htype: HType, atype: AType, ltype: LType, placement: Placement,
                           offset: nat, sizeMember: SizeMember, itemSize: nat, arraySize: nat, default: Default)

  datatype SizeMember = NoSizeMember | SizeMember(offset: nat)

  /** pb_membersize of the whole member */
  function MemberSize(m: Member): nat {
    if m.atype.Pointer? then ADDRESS_SIZE
    else if m.atype.Static? && m.htype.Repeated? then m.itemSize * m.arraySize
    else m.itemSize
  }

  function DataOffset(members: seq<Member>, i: nat): int
    requires i < |members|
  {
    match members[i].placement
    case PlaceFirst => members[i].offset
    case PlaceOther => if i == 0 then 0 else members[i].offset - members[i - 1].offset - MemberSize(members[i - 1])
    case PlaceUnion => PB_SIZE_MAX
  }

  /** What the C struct rules give: members in order without overlap, union members on one offset with
    * one selector, every delta within pb_size_t and below its maximum. */
  predicate LaidOut(members: seq<Member>) {
    forall i :: 0 <= i < |members| ==>
      && (members[i].placement.PlaceFirst? <==> i == 0)
      && (!members[i].placement.PlaceUnion? ==>
            && 0 <= DataOffset(members, i) < PB_SIZE_MAX
            && forall k :: 0 <= k < i ==> members[k].offset + MemberSize(members[k]) <= members[i].offset)
      && (members[i].placement.PlaceUnion? ==>
            && members[i].htype.Oneof? && members[i - 1].htype.Oneof?
            && members[i].offset == members[i - 1].offset
            && members[i].sizeMember == members[i - 1].sizeMember)
  }

  /** One descriptor, by the PB_<rules>_<allocation> macros. */
  function Describe(members: seq<Member>, i: nat): Field
    requires i < |members| && LaidOut(members)
  {
    var m := members[i];
    Field(m.tag, m.htype, m.atype, m.ltype, DataOffset(members, i),
          if m.sizeMember.SizeMember? then m.sizeMember.offset - m.offset else 0,
          m.itemSize, m.arraySize, m.default)
  }

  function DescribeAll(members: seq<Member>): (fields: seq<Field>)
    requires LaidOut(members)
    ensures |fields| == |members|
    ensures forall i :: 0 <= i < |members| ==> fields[i] == Describe(members, i)
  {
    seq(|members|, i requires 0 <= i < |members| => Describe(members, i))
  }

  /** One step of the running sum. */
  lemma DeltaStep(members: seq<Member>, i: nat)
    requires LaidOut(members) && 0 < i < |members|
    ensures var fields := DescribeAll(members);
            && (SharesUnion(fields[i - 1], fields[i]) <==> members[i].placement.PlaceUnion?)
            && (!members[i].placement.PlaceUnion? ==>
                  members[i].offset == members[i - 1].offset + FieldExtent(fields[i - 1]) + fields[i].dataOffset)
  {
    var fields := DescribeAll(members);
    assert fields[i] == Describe(members, i) && fields[i - 1] == Describe(members, i - 1);
  }

  /** The running sum undoes the macros' deltas: the iterator points at the member itself ... */
  lemma {:induction false} IteratorFindsMember(members: seq<Member>, base: int, i: nat)
    requires LaidOut(members) && i < |members|
    ensures DataAt(DescribeAll(members), base, i) == base + members[i].offset
  {
    if i == 0 {
      assert DescribeAll(members)[0] == Describe(members, 0);
    } else {
      IteratorFindsMember(members, base, i - 1);
      DeltaStep(members, i);
      hide DescribeAll, FieldExtent, SharesUnion, DataOffset;
    }
  }

  /** ... and at its size member when it has one. */
  lemma {:induction false} IteratorFindsSizeMember(members: seq<Member>, base: int, i: nat)
    requires LaidOut(members) && i < |members|
    ensures SizeAt(DescribeAll(members), base, i) ==
            base + (if members[i].sizeMember.SizeMember? then members[i].sizeMember.offset else members[i].offset)
  {
    IteratorFindsMember(members, base, i);
    assert DescribeAll(members)[i] == Describe(members, i);
    if i > 0 {
      IteratorFindsSizeMember(members, base, i - 1);
      DeltaStep(members, i);
      hide DescribeAll, DataAt, SharesUnion, DataOffset;
    }
  }

  /** The memory of two fields overlaps only inside one union. */
  lemma {:induction false} MembersApart(members: seq<Member>, i: nat, j: nat)
    requires LaidOut(members) && i < j < |members|
    requires Group(DescribeAll(members), i) != Group(DescribeAll(members), j)
    ensures members[i].offset + MemberSize(members[i]) <= members[j].offset
  {
    var fields := DescribeAll(members);
    assert fields[j] == Describe(members, j) && fields[j - 1] == Describe(members, j - 1);
    if members[j].placement.PlaceUnion? {
      MembersApart(members, i, j - 1);
    }
  }
}
