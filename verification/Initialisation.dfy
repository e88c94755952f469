/** What `pb_message_set_to_defaults` leaves as it was: items of arrays and members of unions. */
module Initialisation {
  import opened Bits
  import opened Wire
  import opened Descriptors

  // ----- fields of one value only: no bytes, or a message of such fields

  predicate SingleValue(f: Field)
    decreases f, 0
  {
    || (f.ltype.FixedLengthBytes? && f.dataSize == 0)
    || (f.ltype.Submessage? && AllSingle(f.ltype.fields))
  }

  predicate AllSingle(fields: seq<Field>)
    decreases fields
  {
    forall i :: 0 <= i < |fields| ==> (fields[i].htype.Required? || fields[i].Singular()) && SingleValue(fields[i])
  }

  lemma {:induction false} SingleIsSingle(f: Field, v: Value, w: Value)
    requires FieldOk(f) && ValueOk(f, v) && ValueOk(f, w) && SingleValue(f)
    ensures v == w
    decreases f, 0
  {
    assert TypeOk(f);
    if f.ltype.Submessage? {
      AllSingleIsSingle(f.ltype.fields, v.msg, w.msg);
    }
  }

  lemma {:induction false} AllSingleIsSingle(fields: seq<Field>, a: Message, b: Message)
    requires FieldsOk(fields) && MsgOk(fields, a) && MsgOk(fields, b) && AllSingle(fields)
    ensures a == b
    decreases fields
  {
    forall i | 0 <= i < |fields| ensures a.slots[i] == b.slots[i] {
      assert FieldOk(fields[i]) && SlotOk(fields[i], a.slots[i]) && SlotOk(fields[i], b.slots[i]);
      SingleIsSingle(fields[i], a.slots[i].v, b.slots[i].v);
    }
    assert Groups(fields, |fields|) == {};
    assert a.slots == b.slots && a.which == map[] == b.which;
  }

  // ----- descriptors that are initialised in full

  predicate Initialised(f: Field)
    decreases f, 0
  {
    match f.htype
    case Repeated => f.arraySize == 0 || SingleValue(f)
    case Oneof => SingleValue(f)
    case _ => f.ltype.Submessage? ==> InitialisesAll(f.ltype.fields)
  }

  /** No array with items and no union, in the message and in the messages it is initialised with. */
  predicate InitialisesAll(fields: seq<Field>)
    decreases fields
  {
    forall i :: 0 <= i < |fields| ==> Initialised(fields[i])
  }

  lemma {:induction false} SlotInitialised(f: Field, a: Slot, b: Slot)
    requires FieldOk(f) && SlotOk(f, a) && SlotOk(f, b) && Initialised(f)
    ensures InitSlot(f, a) == InitSlot(f, b)
    decreases f, 1
  {
    assert TypeOk(f);
    match f.htype
    case Repeated =>
      forall j | 0 <= j < f.arraySize ensures a.items[j] == b.items[j] {
        SingleIsSingle(f, a.items[j], b.items[j]);
      }
      assert a.items == b.items;
    case Oneof => SingleIsSingle(f, a.v, b.v);
    case _ =>
      if f.ltype.Submessage? {
        NothingKept(f.ltype.fields, a.v.msg, b.v.msg);
      }
  }

  /** Such a struct is wholly determined by its initialisation. */
  lemma {:induction false} NothingKept(fields: seq<Field>, a: Message, b: Message)
    requires FieldsOk(fields) && MsgOk(fields, a) && MsgOk(fields, b) && InitialisesAll(fields)
    ensures Defaults(fields, a) == Defaults(fields, b)
    decreases fields
  {
    forall i | 0 <= i < |fields| ensures InitSlot(fields[i], a.slots[i]) == InitSlot(fields[i], b.slots[i]) {
      SlotInitialised(fields[i], a.slots[i], b.slots[i]);
    }
    assert Defaults(fields, a).slots == Defaults(fields, b).slots;
    assert a.which - Groups(fields, |fields|) == map[] == b.which - Groups(fields, |fields|);
  }

  // ----- for all others something is kept

  function Ones(n: nat): (p: seq<Byte>)
    ensures |p| == n
  {
    seq(n, _ => 1)
  }

  /** A value other than zero. */
  ghost function Other(f: Field): (v: Value)
    requires FieldOk(f) && !SingleValue(f)
    ensures ValueOk(f, v) && v != ZeroValue(f)
    decreases f, 0
  {
    assert TypeOk(f);
    match f.ltype
    case Bytes => BytesV(1, Zeros(f.dataSize - BYTES_HEADER))
    case String => assert Ones(f.dataSize)[0] != Zeros(f.dataSize)[0]; BufV(Ones(f.dataSize))
    case FixedLengthBytes => assert Ones(f.dataSize)[0] != Zeros(f.dataSize)[0]; BufV(Ones(f.dataSize))
    case Submessage(sub) => MsgV(OtherMessage(sub))
    case _ => OneOk(f); IntV(1)
  }

  lemma OneOk(f: Field)
    requires TypeOk(f) && f.ltype.Packable()
    ensures IntOk(f, 1)
  {
    Pow2Values();
    if IntSize(f.dataSize) {
      Pow2Mono(7, 8 * f.dataSize - 1);
      Pow2Mono(8, 8 * f.dataSize);
    }
  }

  /** A message other than the zeroed one: some field has two values. */
  ghost function OtherMessage(fields: seq<Field>): (m: Message)
    requires FieldsOk(fields) && !AllSingle(fields)
    ensures MsgOk(fields, m) && m != ZeroMessage(fields)
    decreases fields
  {
    var z := ZeroMessage(fields);
    var i :| 0 <= i < |fields| && !((fields[i].htype.Required? || fields[i].Singular()) && SingleValue(fields[i]));
    var f := fields[i];
    assert z.slots[i] == ZeroSlot(f);
    if f.htype.Oneof? then
      var which := map[Group(fields, i) := 1];
      assert Group(fields, i) in Groups(fields, |fields|) && Group(fields, i) in which;
      Message(z.slots, which)
    else
      var slots := z.slots[i := OtherSlot(f)];
      assert slots[i] != z.slots[i];
      Message(slots, map[])
  }

  ghost function OtherSlot(f: Field): (s: Slot)
    requires FieldOk(f) && !f.htype.Oneof? && !((f.htype.Required? || f.Singular()) && SingleValue(f))
    ensures SlotOk(f, s) && s != ZeroSlot(f)
    decreases f, 1
  {
    if f.HasFlag() then Opt(true, ZeroValue(f))
    else if f.htype.Repeated? then Many(1, ZeroSlot(f).items)
    else One(Other(f))
  }

  /** Two slots that the initialisation leaves different. */
  lemma {:induction false} SlotKept(f: Field) returns (a: Slot, b: Slot)
    requires FieldOk(f) && !Initialised(f)
    ensures SlotOk(f, a) && SlotOk(f, b) && InitSlot(f, a) != InitSlot(f, b)
    decreases f, 1
  {
    assert TypeOk(f);
    match f.htype
    case Repeated =>
      var zeros := ZeroSlot(f).items;
      a, b := Many(0, zeros), Many(0, zeros[0 := Other(f)]);
      assert a.items[0] != b.items[0];
    case Oneof => a, b := One(ZeroValue(f)), One(Other(f));
    case Required =>
      var x, y := SomethingKept(f.ltype.fields);
      a, b := One(MsgV(x)), One(MsgV(y));
    case Optional =>
      var x, y := SomethingKept(f.ltype.fields);
      if f.HasFlag() {
        a, b := Opt(false, MsgV(x)), Opt(false, MsgV(y));
      } else {
        a, b := One(MsgV(x)), One(MsgV(y));
      }
  }

  /** All other descriptors leave something of the old contents: two structs that stay different. */
  lemma {:induction false} SomethingKept(fields: seq<Field>) returns (a: Message, b: Message)
    requires FieldsOk(fields) && !InitialisesAll(fields)
    ensures MsgOk(fields, a) && MsgOk(fields, b) && Defaults(fields, a) != Defaults(fields, b)
    decreases fields
  {
    var z := ZeroMessage(fields);
    var i :| 0 <= i < |fields| && !Initialised(fields[i]);
    assert FieldOk(fields[i]);
    var x, y := SlotKept(fields[i]);
    a, b := Message(z.slots[i := x], map[]), Message(z.slots[i := y], map[]);
    assert Defaults(fields, a).slots[i] != Defaults(fields, b).slots[i];
  }

  const NUMBERS: Field := Field(1, Repeated, Static, UVarint, 4, -4, 4, 1, NoDefault)

  /** A stale item: the count is cleared, the number stays. */
  lemma StaleItemStays()
    ensures var m := Message([Many(1, [IntV(7)])], map[]);
            && FieldsOk([NUMBERS]) && MsgOk([NUMBERS], m)
            && Defaults([NUMBERS], m) == Message([Many(0, [IntV(7)])], map[])
  {
    Pow2Values();
    assert 8 * NUMBERS.dataSize == 32;
    assert TypeOk(NUMBERS) && FieldOk(NUMBERS) && RequiredBefore([NUMBERS], 1) == 0;
    var m := Message([Many(1, [IntV(7)])], map[]);
    assert Groups([NUMBERS], 1) == {};
    assert Defaults([NUMBERS], m).slots == [Many(0, [IntV(7)])];
  }
}
