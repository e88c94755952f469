/** Array counts and union selectors stay in range whatever bytes are decoded. */
module Bounds {
  import opened Wire
  import opened Descriptors
  import opened DecodeSpec
  import opened EncodeSpec
  import opened Same
  import opened Packed

  /** Counts fit and selectors name members, at every level that holds data. */
  predicate Bounded(f: Field, v: Value)
    requires FieldOk(f) && ValueOk(f, v)
    decreases f, 0
  {
    assert TypeOk(f);
    f.ltype.Submessage? ==> BoundedMessage(f.ltype.fields, v.msg)
  }

  predicate BoundedSlot(f: Field, s: Slot, selected: bool)
    requires FieldOk(f) && SlotOk(f, s)
    decreases f, 1
  {
    match s
    case One(v) => (f.htype.Oneof? && !selected) || Bounded(f, v)
    case Opt(_, v) => Bounded(f, v)
    case Many(count, items) => count <= f.arraySize && forall j :: 0 <= j < count ==> Bounded(f, items[j])
  }

  predicate BoundedMessage(fields: seq<Field>, m: Message)
    requires FieldsOk(fields) && MsgOk(fields, m)
    decreases fields
  {
    && (forall i :: 0 <= i < |fields| ==> BoundedSlot(fields[i], m.slots[i], Selected(fields, m, i)))
    && (forall i :: 0 <= i < |fields| && fields[i].htype.Oneof? ==> SelectorOk(fields, m, i))
  }

  predicate CountOk(f: Field, s: Slot) { s.Many? ==> s.count <= f.arraySize }

  /** The same at the top level only. */
  predicate TopBounded(fields: seq<Field>, m: Message)
    requires FieldsOk(fields) && MsgOk(fields, m)
  {
    && (forall i :: 0 <= i < |fields| ==> CountOk(fields[i], m.slots[i]))
    && (forall i :: 0 <= i < |fields| && fields[i].htype.Oneof? ==> SelectorOk(fields, m, i))
  }

  lemma {:induction false} InitBounded(f: Field, s: Slot)
    requires FieldOk(f) && SlotOk(f, s)
    ensures BoundedSlot(f, InitSlot(f, s), false)
    decreases f, 1
  {
    assert TypeOk(f);
    if f.ltype.Submessage? && !s.Many? {
      DefaultsBounded(f.ltype.fields, s.v.msg);
    }
  }

  lemma {:induction false} DefaultsBounded(fields: seq<Field>, m: Message)
    requires FieldsOk(fields) && MsgOk(fields, m)
    ensures BoundedMessage(fields, Defaults(fields, m))
    decreases fields
  {
    var d := Defaults(fields, m);
    forall i | 0 <= i < |fields| && fields[i].htype.Oneof? ensures SelectorOk(fields, d, i) && !Selected(fields, d, i) {
      assert Group(fields, i) in Groups(fields, |fields|) && FieldOk(fields[i]);
    }
    forall i | 0 <= i < |fields| ensures BoundedSlot(fields[i], d.slots[i], Selected(fields, d, i)) {
      InitBounded(fields[i], m.slots[i]);
    }
  }

  /** Storing a bounded slot keeps the message bounded; the union's selector names the stored member. */
  lemma PutBounded(fields: seq<Field>, m: Message, i: nat, s: Slot)
    requires FieldsOk(fields) && MsgOk(fields, m) && i < |fields| && SlotOk(fields[i], s) && BoundedMessage(fields, m)
    requires BoundedSlot(fields[i], s, true)
    ensures BoundedMessage(fields, Put(fields, m, i, s))
  {
    var m' := Put(fields, m, i, s);
    PutSelectors(fields, m, i, s);
    hide SelectorOk, FieldOk, SlotOk;
    forall j | 0 <= j < |fields| ensures BoundedSlot(fields[j], m'.slots[j], Selected(fields, m', j)) {
      assert BoundedSlot(fields[j], m.slots[j], Selected(fields, m, j));
      OtherUnselected(fields, m, i, s, j);
    }
  }

  /** Setting a selector unselects the union's other members. */
  lemma OtherUnselected(fields: seq<Field>, m: Message, i: nat, s: Slot, j: nat)
    requires FieldsOk(fields) && MsgOk(fields, m) && i < |fields| && j < |fields| && SlotOk(fields[i], s)
    ensures j != i ==> (Selected(fields, Put(fields, m, i, s), j) ==> Selected(fields, m, j))
  {
  }

  lemma PutSelectors(fields: seq<Field>, m: Message, i: nat, s: Slot)
    requires FieldsOk(fields) && MsgOk(fields, m) && i < |fields| && SlotOk(fields[i], s)
    requires forall j :: 0 <= j < |fields| && fields[j].htype.Oneof? ==> SelectorOk(fields, m, j)
    ensures forall j :: 0 <= j < |fields| && fields[j].htype.Oneof? ==> SelectorOk(fields, Put(fields, m, i, s), j)
  {
    var m' := Put(fields, m, i, s);
    forall j | 0 <= j < |fields| && fields[j].htype.Oneof? ensures SelectorOk(fields, m', j) {
      assert SelectorOk(fields, m, j);
      if fields[i].htype.Oneof? && Group(fields, i) == Group(fields, j) {
        assert IsMember(fields, i, Group(fields, j), fields[i].tag);
      }
    }
  }

  lemma PutTopBounded(fields: seq<Field>, m: Message, i: nat, s: Slot)
    requires FieldsOk(fields) && MsgOk(fields, m) && i < |fields| && SlotOk(fields[i], s) && TopBounded(fields, m)
    requires CountOk(fields[i], s)
    ensures TopBounded(fields, Put(fields, m, i, s))
  {
    PutSelectors(fields, m, i, s);
  }

  lemma BoundedIsTop(fields: seq<Field>, m: Message)
    requires FieldsOk(fields) && MsgOk(fields, m) && BoundedMessage(fields, m)
    ensures TopBounded(fields, m)
  {
    forall i | 0 <= i < |fields| ensures CountOk(fields[i], m.slots[i]) {
      assert BoundedSlot(fields[i], m.slots[i], Selected(fields, m, i));
    }
  }

  lemma {:induction false} ValueBounded(f: Field, s: seq<Byte>, v: Value)
    requires FieldOk(f) && ValueOk(f, v) && (f.htype.Repeated? || Bounded(f, v))
    ensures DecValue(f, s, v).Ok? ==> Bounded(f, DecValue(f, s, v).out)
    decreases |s|, 1
  {
    assert TypeOk(f);
    if f.ltype.Submessage? && DecPiece(s).Piece? {
      var sub := f.ltype.fields;
      if f.htype.Repeated? {
        DefaultsBounded(sub, v.msg);
      }
      MessageBounded(sub, DecPiece(s).payload, if f.htype.Repeated? then Defaults(sub, v.msg) else v.msg);
    }
  }

  /** An array keeps its count in range on every outcome. */
  lemma CountStays(f: Field, wt: WireType, s: seq<Byte>, slot: Slot)
    requires FieldOk(f) && SlotOk(f, slot) && CountOk(f, slot)
    ensures CountOk(f, DecSlot(f, wt, s, slot).out)
  {
    if slot.Many? && wt.WtString? && f.ltype.Packable() && DecPiece(s).Piece? {
      ElementsFit(f, DecPiece(s).payload, slot.count, slot.items);
    }
  }

  lemma {:induction false} SlotBounded(f: Field, wt: WireType, s: seq<Byte>, slot: Slot, selected: bool)
    requires FieldOk(f) && SlotOk(f, slot) && BoundedSlot(f, slot, selected)
    requires f.htype.Oneof? && f.ltype.Submessage? ==> slot.One?
    ensures DecSlot(f, wt, s, slot).Ok? ==> BoundedSlot(f, DecSlot(f, wt, s, slot).out, true)
    decreases |s|, 2
  {
    assert TypeOk(f);
    match slot
    case One(v) =>
      if f.htype.Oneof? {
        if f.ltype.Submessage? {
          DefaultsBounded(f.ltype.fields, ZeroMessage(f.ltype.fields));
        }
      }
      ValueBounded(f, s, UnionStart(f, v));
    case Opt(_, v) => ValueBounded(f, s, v);
    case Many(count, items) =>
      CountStays(f, wt, s, slot);
      if f.ltype.Submessage? {
        if count < f.arraySize {
          ValueBounded(f, s, items[count]);
        }
      }
  }

  lemma {:induction false} RecordBounded(fields: seq<Field>, s: seq<Byte>, st: State)
    requires FieldsOk(fields) && MsgOk(fields, st.msg) && BoundedMessage(fields, st.msg)
    ensures DecRecord(fields, s, st).More? ==> BoundedMessage(fields, DecRecord(fields, s, st).st.msg)
    ensures DecRecord(fields, s, st).Fail? ==> TopBounded(fields, DecRecord(fields, s, st).st.msg)
    decreases |s|, 3
  {
    BoundedIsTop(fields, st.msg);
    match DecTag(s)
    case TagEof(_) =>
    case TagError =>
    case Tag(wt, tag, rest) =>
      var i := Lookup(fields, tag);
      if i < |fields| {
        var f, slot := fields[i], st.msg.slots[i];
        assert FieldOk(f) && SlotOk(f, slot) && BoundedSlot(f, slot, Selected(fields, st.msg, i));
        SlotBounded(f, wt, rest, slot, Selected(fields, st.msg, i));
        CountStays(f, wt, rest, slot);
        match DecSlot(f, wt, rest, slot)
        case Ok(slot', _) => PutBounded(fields, st.msg, i, slot');
        case Err(slot', _) => PutTopBounded(fields, st.msg, i, slot');
      }
  }

  lemma {:induction false} LoopBounded(fields: seq<Field>, s: seq<Byte>, st: State)
    requires FieldsOk(fields) && MsgOk(fields, st.msg) && BoundedMessage(fields, st.msg)
    ensures DecLoop(fields, s, st).Ok? ==> BoundedMessage(fields, DecLoop(fields, s, st).out.msg)
    ensures TopBounded(fields, DecLoop(fields, s, st).out.msg)
    decreases |s|, 4
  {
    BoundedIsTop(fields, st.msg);
    if s != [] {
      RecordBounded(fields, s, st);
      match DecRecord(fields, s, st)
      case More(st', rest) => LoopBounded(fields, rest, st');
      case _ =>
    }
  }

  /** Decoding any bytes into a bounded message: every count and selector of the top level stays in range
    * on any outcome, and those of every level when decoding succeeds. */
  lemma {:induction false} MessageBounded(fields: seq<Field>, s: seq<Byte>, m: Message)
    requires FieldsOk(fields) && MsgOk(fields, m) && BoundedMessage(fields, m)
    ensures TopBounded(fields, DecMessage(fields, s, m).out)
    ensures DecMessage(fields, s, m).Ok? ==> BoundedMessage(fields, DecMessage(fields, s, m).out)
    decreases |s|, 5
  {
    LoopBounded(fields, s, State(m, {}));
  }

  /** The same for pb_decode, whatever the struct held before. */
  lemma DecodeBounded(fields: seq<Field>, s: seq<Byte>, m: Message)
    requires FieldsOk(fields) && MsgOk(fields, m)
    ensures TopBounded(fields, DecInit(fields, s, m).out)
    ensures DecInit(fields, s, m).Ok? ==> BoundedMessage(fields, DecInit(fields, s, m).out)
  {
    DefaultsBounded(fields, m);
    MessageBounded(fields, s, Defaults(fields, m));
  }
}
