/** What the initialisation puts into a struct, and that decoding leaves it there until a record comes. */
module DefaultValues {
  import opened Wire
  import opened Descriptors
  import opened DecodeSpec
  import opened Records
  import opened Order
  import opened Overwriting

  predicate AllZero(p: seq<Byte>) { forall k :: 0 <= k < |p| ==> p[k] == 0 }

  /** The default value of the descriptor; without one the number 0, size 0 or zero bytes; a message holds
    * the default values of its own fields. */
  predicate IsDefault(f: Field, v: Value)
    requires FieldOk(f) && ValueOk(f, v)
    decreases f, 0
  {
    assert TypeOk(f);
    if f.ltype.Submessage? then AreDefaults(f.ltype.fields, v.msg)
    else if f.default.Default? then v == f.default.v
    else if f.ltype.Bytes? then v.size == 0 && AllZero(v.buf)
    else if f.ltype.String? || f.ltype.FixedLengthBytes? then AllZero(v.buf)
    else v.i == 0
  }

  /** Nothing present, and default values in all but arrays and union members. */
  predicate SlotIsDefault(f: Field, s: Slot)
    requires FieldOk(f) && SlotOk(f, s)
    decreases f, 1
  {
    match s
    case One(v) => f.htype.Oneof? || IsDefault(f, v)
    case Opt(has, v) => !has && IsDefault(f, v)
    case Many(count, _) => count == 0
  }

  predicate AreDefaults(fields: seq<Field>, m: Message)
    requires FieldsOk(fields) && MsgOk(fields, m)
    decreases fields
  {
    && (forall i :: 0 <= i < |fields| ==> SlotIsDefault(fields[i], m.slots[i]))
    && (forall i :: 0 <= i < |fields| && fields[i].htype.Oneof? ==> Which(m, Group(fields, i)) == 0)
  }

  lemma {:induction false} ValueGetsDefault(f: Field, v: Value)
    requires FieldOk(f) && ValueOk(f, v)
    ensures IsDefault(f, InitValue(f, v))
    decreases f, 0
  {
    assert TypeOk(f);
    if f.ltype.Submessage? {
      DefaultsAreSet(f.ltype.fields, v.msg);
    }
  }

  lemma {:induction false} SlotGetsDefault(f: Field, s: Slot)
    requires FieldOk(f) && SlotOk(f, s)
    ensures SlotIsDefault(f, InitSlot(f, s))
    decreases f, 1
  {
    if !s.Many? {
      ValueGetsDefault(f, s.v);
    }
  }

  /** Whatever the struct held, pb_message_set_to_defaults gives every field its default, at every depth. */
  lemma {:induction false} DefaultsAreSet(fields: seq<Field>, m: Message)
    requires FieldsOk(fields) && MsgOk(fields, m)
    ensures AreDefaults(fields, Defaults(fields, m))
    decreases fields
  {
    forall i | 0 <= i < |fields| ensures SlotIsDefault(fields[i], Defaults(fields, m).slots[i]) {
      SlotGetsDefault(fields[i], m.slots[i]);
    }
  }

  // ----- decoding

  /** pb_decode of a message without a record of field i, or of its union: the field holds its default. */
  lemma DefaultStays(fields: seq<Field>, rs: seq<seq<Byte>>, i: nat, m: Message)
    requires FieldsOk(fields) && MsgOk(fields, m) && AllRecords(fields, rs) && i < |fields| && NoRecordOf(fields, rs, i)
    requires FieldOk(fields[i])
    ensures var r := DecInit(fields, Concat(rs), m);
            r.Ok? ==>
              && SlotOk(fields[i], r.out.slots[i]) && SlotIsDefault(fields[i], r.out.slots[i])
              && (fields[i].htype.Oneof? ==> Which(r.out, Group(fields, i)) == 0)
  {
    hide SlotIsDefault, DecLoop, DecMessage, Run, NoRecordOf, FieldsOk, FieldOk;
    var m0 := Defaults(fields, m);
    DefaultsAreSet(fields, m);
    LoopOutcome(fields, rs, m0);
    if DecMessage(fields, Concat(rs), m0).Ok? {
      Untouched(fields, rs, i, State(m0, {}));
    }
  }

  lemma NothingSent(fields: seq<Field>, m: Message)
    requires FieldsOk(fields) && MsgOk(fields, m) && NoRequired(fields)
    ensures DecMessage(fields, [], m) == Ok(m, [])
  {
  }

  /** A message in a union starts from the default values, whatever its memory held. */
  lemma UnionMessageStarts(f: Field, t: seq<Byte>, slot: Slot)
    requires FieldOk(f) && f.htype.Oneof? && f.ltype.Submessage? && SlotOk(f, slot) && NoRequired(f.ltype.fields)
    ensures var r := DecSlot(f, WtString, EncPiece([]) + t, slot);
            r.Ok? && r.rest == t && r.out.One? && ValueOk(f, r.out.v) && IsDefault(f, r.out.v)
  {
    assert TypeOk(f);
    PieceRoundTrip([], t);
    DefaultsAreSet(f.ltype.fields, ZeroMessage(f.ltype.fields));
    NothingSent(f.ltype.fields, Fresh(f.ltype.fields));
  }

  /** So does a message in an array. */
  lemma ItemStarts(f: Field, t: seq<Byte>, slot: Slot)
    requires FieldOk(f) && f.htype.Repeated? && f.ltype.Submessage? && SlotOk(f, slot) && NoRequired(f.ltype.fields)
    requires slot.count < f.arraySize
    ensures var r := DecSlot(f, WtString, EncPiece([]) + t, slot);
            && r.Ok? && r.rest == t && r.out.Many? && r.out.count == slot.count + 1
            && SlotOk(f, r.out) && IsDefault(f, r.out.items[slot.count])
  {
    assert TypeOk(f);
    PieceRoundTrip([], t);
    var m := slot.items[slot.count].msg;
    DefaultsAreSet(f.ltype.fields, m);
    NothingSent(f.ltype.fields, Defaults(f.ltype.fields, m));
  }
}
