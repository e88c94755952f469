/** Field descriptors (`pb_field_t`) and the structs they describe.
  *
  * A struct is a `Message`: one slot per descriptor, in descriptor order, and the `which_` selectors.
  * The `FieldIterator` module shows that the iterator's data pointer identifies the slot. */
module Descriptors {
  import opened Bits
  import opened Wire

  // The build defines PB_FIELD_32BIT, so pb_size_t is a 32-bit word.
  const PB_SIZE_MAX: nat := 0xFFFF_FFFF
  const BYTES_HEADER: nat := 4
  const MAX_REQUIRED_FIELDS: nat := 64

  datatype HType = Required | Optional | Repeated | Oneof

  datatype AType = Static | Pointer | Callback

  datatype LType =
    | Varint | UVarint | SVarint | Fixed32 | Fixed64
    | Bytes | String | Submessage(fields: seq<Field>) | Extension | FixedLengthBytes
  {
    /** LTYPE <= PB_LTYPE_LAST_PACKABLE */
    predicate Packable() { Varint? || UVarint? || SVarint? || Fixed32? || Fixed64? }
  }

  datatype Default = NoDefault | Default(v: Value)

  datatype Field = Field(tag: nat, htype: HType, atype: AType, ltype: LType,
                         dataOffset: nat, sizeOffset: int, dataSize: nat, arraySize: nat,
                         default: Default)
  {
    /** Optional with a has_ member; without one it is a proto3-style singular field. */
    predicate HasFlag() { htype.Optional? && sizeOffset != 0 }
    predicate Singular() { htype.Optional? && sizeOffset == 0 }
  }

  /** One item of a field. Buffers keep whatever lies behind the bytes in use. */
  datatype Value =
    | IntV(i: int)
    | BytesV(size: nat, buf: seq<Byte>)
    | BufV(buf: seq<Byte>)
    | MsgV(msg: Message)

  datatype Slot =
    | One(v: Value)
    | Opt(has: bool, v: Value)
    | Many(count: nat, items: seq<Value>)

  datatype Message = Message(slots: seq<Slot>, which: map<nat, nat>)

  /** The selector of a union; all selectors are zero until set. */
  function Which(m: Message, group: nat): nat {
    if group in m.which then m.which[group] else 0
  }

  /** The union that member i belongs to, named by its first member: the iterator stays on the same
    * pointers while the offset of a oneof member that follows a oneof member is PB_SIZE_MAX. */
  function Group(fields: seq<Field>, i: nat): (g: nat)
    requires i < |fields|
    ensures g <= i
  {
    if i > 0 && SharesUnion(fields[i - 1], fields[i]) then Group(fields, i - 1) else i
  }

  predicate SharesUnion(prev: Field, next: Field) {
    prev.htype.Oneof? && next.htype.Oneof? && next.dataOffset == PB_SIZE_MAX
  }

  function RequiredBefore(fields: seq<Field>, i: nat): (n: nat)
    requires i <= |fields|
    ensures n <= i
  {
    if i == 0 then 0
    else RequiredBefore(fields, i - 1) + if fields[i - 1].htype.Required? then 1 else 0
  }

  // ----- well-formed descriptors

  predicate IntSize(n: nat) { n == 1 || n == 2 || n == 4 || n == 8 }

  predicate UniqueTags(fields: seq<Field>) {
    forall i, j :: 0 <= i < j < |fields| ==> fields[i].tag != fields[j].tag
  }

  /** What the bitmap of two words can check. */
  predicate BitmapCovers(required: nat) {
    required == 0 || (required < MAX_REQUIRED_FIELDS && required % 32 != 0)
  }

  predicate FieldsOk(fields: seq<Field>)
    decreases fields
  {
    && (forall i :: 0 <= i < |fields| ==> FieldOk(fields[i]))
    && UniqueTags(fields)
    && BitmapCovers(RequiredBefore(fields, |fields|))
  }

  predicate FieldOk(f: Field)
    decreases f, 1
  {
    && 0 < f.tag < 0x2000_0000
    && f.atype.Static?
    && (f.htype.Repeated? || f.htype.Oneof? ==> f.sizeOffset != 0)
    && f.dataSize <= PB_SIZE_MAX && f.arraySize <= PB_SIZE_MAX
    && TypeOk(f)
    && match f.default
       case NoDefault => true
       case Default(v) => !f.ltype.Submessage? && ValueOk(f, v)
  }

  predicate TypeOk(f: Field)
    decreases f, 0
  {
    match f.ltype
    case Varint => IntSize(f.dataSize)
    case UVarint => IntSize(f.dataSize)
    case SVarint => IntSize(f.dataSize)
    case Fixed32 => f.dataSize == 4
    case Fixed64 => f.dataSize == 8
    case Bytes => f.dataSize >= BYTES_HEADER
    case String => f.dataSize > 0
    case FixedLengthBytes => true
    case Submessage(sub) => FieldsOk(sub)
    case Extension => false
  }

  // ----- structs that match their descriptors

  predicate IntOk(f: Field, i: int) {
    match f.ltype
    case Varint => IntSize(f.dataSize) ==> FitsSigned(i, 8 * f.dataSize)
    case SVarint => IntSize(f.dataSize) ==> FitsSigned(i, 8 * f.dataSize)
    case UVarint => 0 <= i && (IntSize(f.dataSize) ==> i < Pow2(8 * f.dataSize))
    case Fixed32 => 0 <= i < TWO32
    case Fixed64 => 0 <= i < TWO64
    case _ => false
  }

  predicate ValueOk(f: Field, v: Value)
    decreases f, 0
  {
    match f.ltype
    case Bytes => v.BytesV? && |v.buf| + BYTES_HEADER == f.dataSize
    case String => v.BufV? && |v.buf| == f.dataSize
    case FixedLengthBytes => v.BufV? && |v.buf| == f.dataSize
    case Submessage(sub) => v.MsgV? && MsgOk(sub, v.msg)
    case Extension => false
    case _ => v.IntV? && IntOk(f, v.i)
  }

  predicate SlotOk(f: Field, s: Slot)
    decreases f, 1
  {
    match f.htype
    case Optional => if f.HasFlag() then s.Opt? && ValueOk(f, s.v) else s.One? && ValueOk(f, s.v)
    case Repeated => s.Many? && |s.items| == f.arraySize && forall j :: 0 <= j < |s.items| ==> ValueOk(f, s.items[j])
    case _ => s.One? && ValueOk(f, s.v)
  }

  predicate MsgOk(fields: seq<Field>, m: Message)
    decreases fields
  {
    && |m.slots| == |fields|
    && (forall i :: 0 <= i < |fields| ==> SlotOk(fields[i], m.slots[i]))
    && m.which.Keys <= Groups(fields, |fields|)
  }

  // ----- writing a slot

  /** Storing slot i; a oneof member also sets its selector. */
  function Put(fields: seq<Field>, m: Message, i: nat, s: Slot): (m': Message)
    requires i < |fields| && MsgOk(fields, m) && SlotOk(fields[i], s)
    ensures MsgOk(fields, m')
  {
    Message(m.slots[i := s],
            if fields[i].htype.Oneof? then m.which[Group(fields, i) := fields[i].tag] else m.which)
  }

  // ----- zeroed memory and default values

  function Zeros(n: nat): (p: seq<Byte>)
    ensures |p| == n
  {
    seq(n, _ => 0)
  }

  function ZeroValue(f: Field): (v: Value)
    requires FieldOk(f)
    ensures ValueOk(f, v)
    decreases f, 0
  {
    assert TypeOk(f);
    match f.ltype
    case Bytes => BytesV(0, Zeros(f.dataSize - BYTES_HEADER))
    case String => BufV(Zeros(f.dataSize))
    case FixedLengthBytes => BufV(Zeros(f.dataSize))
    case Submessage(sub) => MsgV(ZeroMessage(sub))
    case Extension => assert false; IntV(0)
    case _ => IntV(0)
  }

  function ZeroSlot(f: Field): (s: Slot)
    requires FieldOk(f)
    ensures SlotOk(f, s)
    decreases f, 1
  {
    match f.htype
    case Optional => if f.HasFlag() then Opt(false, ZeroValue(f)) else One(ZeroValue(f))
    case Repeated => Many(0, seq(f.arraySize, _ => ZeroValue(f)))
    case _ => One(ZeroValue(f))
  }

  /** memset of a whole struct */
  function ZeroMessage(fields: seq<Field>): (m: Message)
    requires FieldsOk(fields)
    ensures MsgOk(fields, m)
    decreases fields
  {
    Message(seq(|fields|, i requires 0 <= i < |fields| => ZeroSlot(fields[i])), map[])
  }

  function InitValue(f: Field, v: Value): (v': Value)
    requires FieldOk(f) && ValueOk(f, v)
    ensures ValueOk(f, v')
    decreases f, 0
  {
    assert TypeOk(f);
    match f.ltype
    case Submessage(sub) => MsgV(Defaults(sub, v.msg))
    case _ => if f.default.Default? then f.default.v else ZeroValue(f)
  }

  /** What a field of a cleared struct holds after its initialisation. */
  function Initial(f: Field): (v: Value)
    requires FieldOk(f)
    ensures ValueOk(f, v)
  {
    InitValue(f, ZeroValue(f))
  }

  function InitSlot(f: Field, s: Slot): (s': Slot)
    requires FieldOk(f) && SlotOk(f, s)
    ensures SlotOk(f, s')
    decreases f, 1
  {
    match s
    case One(v) => if f.htype.Oneof? then s else One(InitValue(f, v))
    case Opt(_, v) => Opt(false, InitValue(f, v))
    case Many(_, items) => Many(0, items)
  }

  function Groups(fields: seq<Field>, n: nat): set<nat>
    requires n <= |fields|
  {
    set i | 0 <= i < n && fields[i].htype.Oneof? :: Group(fields, i)
  }

  /** The struct after `pb_message_set_to_defaults`; array items and union members keep their bytes. */
  function Defaults(fields: seq<Field>, m: Message): (m': Message)
    requires FieldsOk(fields) && MsgOk(fields, m)
    ensures MsgOk(fields, m')
    decreases fields
  {
    Message(seq(|fields|, i requires 0 <= i < |fields| => InitSlot(fields[i], m.slots[i])),
            m.which - Groups(fields, |fields|))
  }

  /** A cleared struct with its default values. */
  function Fresh(fields: seq<Field>): (m: Message)
    requires FieldsOk(fields)
    ensures MsgOk(fields, m)
  {
    Defaults(fields, ZeroMessage(fields))
  }
}
