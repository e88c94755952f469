/** What encoding produces, as functions of the descriptors and the struct.
  * The methods of `Encoder` append exactly these bytes. */
module EncodeSpec {
  import opened Bits
  import opened Wire
  import opened Descriptors

  datatype Encoded = Wrote(bytes: seq<Byte>) | Refused
  {
    /** One piece of output after another; a refusal anywhere refuses the whole. */
    function Then(next: Encoded): Encoded {
      if Wrote? && next.Wrote? then Wrote(bytes + next.bytes) else Refused
    }
  }

  /** The bytes of a string buffer up to its terminator, or all of them. */
  function CString(buf: seq<Byte>): (p: seq<Byte>)
    ensures |p| <= |buf| && p == buf[..|p|]
    ensures forall i :: 0 <= i < |p| ==> p[i] != 0
    ensures |p| < |buf| ==> buf[|p|] == 0
  {
    if buf == [] || buf[0] == 0 then [] else [buf[0]] + CString(buf[1..])
  }

  function FieldWireType(f: Field): WireType {
    match f.ltype
    case Varint => WtVarint
    case UVarint => WtVarint
    case SVarint => WtVarint
    case Fixed32 => Wt32Bit
    case Fixed64 => Wt64Bit
    case _ => WtString
  }

  function FieldTag(f: Field): seq<Byte> { EncTag(FieldWireType(f), f.tag) }

  function EncValue(f: Field, v: Value): (e: Encoded)
    requires FieldOk(f) && ValueOk(f, v)
    decreases f, 0
  {
    assert TypeOk(f);
    match f.ltype
    case Varint => Wrote(EncVarint(ToU64(v.i)))
    case UVarint => Wrote(EncVarint(v.i))
    case SVarint => Wrote(EncVarint(ZigZag(v.i)))
    case Fixed32 => Wrote(EncFixed(v.i, 4))
    case Fixed64 => Wrote(EncFixed(v.i, 8))
    case Bytes => if v.size + BYTES_HEADER > f.dataSize then Refused else Wrote(EncPiece(v.buf[..v.size]))
    case String => Wrote(EncPiece(CString(v.buf)))
    case FixedLengthBytes => Wrote(EncPiece(v.buf))
    case Submessage(sub) => (match EncMessage(sub, v.msg) case Wrote(p) => Wrote(EncPiece(p)) case Refused => Refused)
  }

  /** A proto3-style field is written only when the test for zero data fails. The test looks at the data of
    * every field of a message, whether or not a flag, a count or a selector says that it is present. */
  predicate IsZero(f: Field, v: Value)
    requires FieldOk(f) && ValueOk(f, v)
    decreases f, 0
  {
    assert TypeOk(f);
    if f.ltype.Bytes? then v.size == 0
    else if f.ltype.String? then v.buf[0] == 0
    else if f.ltype.FixedLengthBytes? then f.dataSize == 0
    else if f.ltype.Submessage? then AllZeroData(f.ltype.fields, v.msg)
    else v.i == 0
  }

  /** Of an array it sees the first item. */
  predicate ZeroData(f: Field, s: Slot)
    requires FieldOk(f) && SlotOk(f, s)
    decreases f, 1
  {
    match s
    case One(v) => IsZero(f, v)
    case Opt(_, v) => IsZero(f, v)
    case Many(_, items) => items == [] || IsZero(f, items[0])
  }

  predicate AllZeroData(fields: seq<Field>, m: Message)
    requires FieldsOk(fields) && MsgOk(fields, m)
    decreases fields
  {
    forall i :: 0 <= i < |fields| ==> ZeroData(fields[i], m.slots[i])
  }

  /** A proto3-style field that is not written. */
  predicate Unsent(f: Field, v: Value)
    requires FieldOk(f) && ValueOk(f, v)
  {
    f.Singular() && IsZero(f, v)
  }

  function EncTagged(f: Field, v: Value): Encoded
    requires FieldOk(f) && ValueOk(f, v)
    decreases f, 1
  {
    Wrote(FieldTag(f)).Then(EncValue(f, v))
  }

  predicate ItemsOk(f: Field, items: seq<Value>) {
    forall j :: 0 <= j < |items| ==> ValueOk(f, items[j])
  }

  /** Array items from k on, without tags. */
  function EncItems(f: Field, items: seq<Value>, k: nat, count: nat): Encoded
    requires FieldOk(f) && k <= count <= |items| && ItemsOk(f, items)
    decreases f, 1, count - k
  {
    if k == count then Wrote([]) else EncValue(f, items[k]).Then(EncItems(f, items, k + 1, count))
  }

  /** Array items from k on, each with its tag. */
  function EncTaggedItems(f: Field, items: seq<Value>, k: nat, count: nat): Encoded
    requires FieldOk(f) && k <= count <= |items| && ItemsOk(f, items)
    decreases f, 2, count - k
  {
    if k == count then Wrote([]) else EncTagged(f, items[k]).Then(EncTaggedItems(f, items, k + 1, count))
  }

  function EncArray(f: Field, count: nat, items: seq<Value>): Encoded
    requires FieldOk(f) && |items| == f.arraySize && ItemsOk(f, items)
    decreases f, 3
  {
    if count == 0 then Wrote([])
    else if count > f.arraySize then Refused
    else if f.ltype.Packable() then
      match EncItems(f, items, 0, count)
      case Refused => Refused
      case Wrote(p) => Wrote(EncTag(WtString, f.tag) + EncPiece(p))
    else EncTaggedItems(f, items, 0, count)
  }

  /** One field; `selected` says whether its union's selector holds its tag. */
  function EncSlot(f: Field, s: Slot, selected: bool): Encoded
    requires FieldOk(f) && SlotOk(f, s)
    decreases f, 4
  {
    assert TypeOk(f);
    match s
    case One(v) =>
      if f.htype.Oneof? then (if selected then EncTagged(f, v) else Wrote([]))
      else if Unsent(f, v) then Wrote([])
      else EncTagged(f, v)
    case Opt(has, v) => if has then EncTagged(f, v) else Wrote([])
    case Many(count, items) => EncArray(f, count, items)
  }

  predicate Selected(fields: seq<Field>, m: Message, i: nat)
    requires i < |fields|
  {
    fields[i].htype.Oneof? && Which(m, Group(fields, i)) == fields[i].tag
  }

  /** The fields from i on. */
  function EncFrom(fields: seq<Field>, m: Message, i: nat): Encoded
    requires FieldsOk(fields) && MsgOk(fields, m) && i <= |fields|
    decreases fields, 0, |fields| - i
  {
    if i == |fields| then Wrote([])
    else EncSlot(fields[i], m.slots[i], Selected(fields, m, i)).Then(EncFrom(fields, m, i + 1))
  }

  /** pb_encode */
  function EncMessage(fields: seq<Field>, m: Message): Encoded
    requires FieldsOk(fields) && MsgOk(fields, m)
    decreases fields, 1
  {
    EncFrom(fields, m, 0)
  }

  /** What pb_encode_submessage writes. */
  function Framed(e: Encoded): Encoded {
    if e.Wrote? then Wrote(EncPiece(e.bytes)) else Refused
  }

  // ----- sizes that size_t can hold

  /** No nested message encodes to 2^64 bytes or more. */
  predicate Sized(f: Field, v: Value)
    requires FieldOk(f) && ValueOk(f, v)
    decreases f, 0
  {
    assert TypeOk(f);
    f.ltype.Submessage? ==> SizedMessage(f.ltype.fields, v.msg)
  }

  predicate SizedSlot(f: Field, s: Slot, selected: bool)
    requires FieldOk(f) && SlotOk(f, s)
    decreases f, 1
  {
    match s
    case One(v) => (f.htype.Oneof? && !selected) || Unsent(f, v) || Sized(f, v)
    case Opt(has, v) => has ==> Sized(f, v)
    case Many(count, items) => count <= |items| ==> forall j :: 0 <= j < count ==> Sized(f, items[j])
  }

  /** Nothing that is sent encodes to 2^64 bytes or more. */
  predicate SizedMessage(fields: seq<Field>, m: Message)
    requires FieldsOk(fields) && MsgOk(fields, m)
    decreases fields
  {
    && (EncMessage(fields, m).Wrote? ==> |EncMessage(fields, m).bytes| < TWO64)
    && forall i :: 0 <= i < |fields| ==> SizedSlot(fields[i], m.slots[i], Selected(fields, m, i))
  }

  lemma ThenAssoc(a: Encoded, b: Encoded, c: Encoded)
    ensures a.Then(b).Then(c) == a.Then(b.Then(c))
  {
    if a.Wrote? && b.Wrote? && c.Wrote? {
      Assoc(a.bytes, b.bytes, c.bytes);
    }
  }

  lemma ThenFirst(e: Encoded)
    ensures Wrote([]).Then(e) == e
  {
    if e.Wrote? {
      NilLeft(e.bytes);
    }
  }

  /** A packable element takes ten bytes at most. */
  lemma ElementSize(f: Field, v: Value)
    requires FieldOk(f) && f.ltype.Packable() && ValueOk(f, v)
    ensures EncValue(f, v).Wrote? && 0 < |EncValue(f, v).bytes| <= 10
    ensures f.ltype.Fixed32? ==> |EncValue(f, v).bytes| == 4
    ensures f.ltype.Fixed64? ==> |EncValue(f, v).bytes| == 8
  {
    assert TypeOk(f);
    Pow2Values();
    if f.ltype.UVarint? {
      Pow2Mono(8 * f.dataSize, 64);
      VarintRoundTrip(v.i, []);
    } else if f.ltype.Varint? {
      VarintRoundTrip(ToU64(v.i), []);
    } else if f.ltype.SVarint? {
      Pow2Mono(8 * f.dataSize - 1, 63);
      assert Pow2(64) == 2 * Pow2(63);
      VarintRoundTrip(ZigZag(v.i), []);
    }
  }

  lemma {:induction false} ItemsSize(f: Field, items: seq<Value>, k: nat, count: nat)
    requires FieldOk(f) && f.ltype.Packable() && k <= count <= |items| && ItemsOk(f, items)
    ensures EncItems(f, items, k, count).Wrote? && |EncItems(f, items, k, count).bytes| <= 10 * (count - k)
    ensures f.ltype.Fixed32? ==> |EncItems(f, items, k, count).bytes| == 4 * (count - k)
    ensures f.ltype.Fixed64? ==> |EncItems(f, items, k, count).bytes| == 8 * (count - k)
    decreases count - k
  {
    if k < count {
      ElementSize(f, items[k]);
      ItemsSize(f, items, k + 1, count);
    }
  }
}
