/** Whatever bytes a message was decoded from, it can be encoded again, and that encoding decodes to the
  * same message. */
module Reencode {
  import opened Wire
  import opened Descriptors
  import opened DecodeSpec
  import opened EncodeSpec
  import opened Same
  import opened Packed
  import opened Bounds
  import opened RoundTrip

  // ----- what decoding keeps: data in use is sane, and data that may come into use is ready for it

  predicate Ready(f: Field, v: Value)
    requires FieldOk(f) && ValueOk(f, v)
    decreases f, 0
  {
    assert TypeOk(f);
    f.ltype.Submessage? ==> ReadyMessage(f.ltype.fields, v.msg)
  }

  /** An absent optional message stays ready: the next record merges into it. */
  predicate ReadySlot(f: Field, s: Slot, selected: bool)
    requires FieldOk(f) && SlotOk(f, s)
    decreases f, 1
  {
    match s
    case One(v) =>
      if f.htype.Oneof? then selected ==> Proper(f, v) else Ready(f, v) && (f.Singular() ==> Proper(f, v))
    case Opt(has, v) => Ready(f, v) && (has ==> Proper(f, v))
    case Many(_, _) => ProperSlot(f, s, selected)
  }

  predicate ReadyMessage(fields: seq<Field>, m: Message)
    requires FieldsOk(fields) && MsgOk(fields, m)
    decreases fields
  {
    && (forall i :: 0 <= i < |fields| ==> ReadySlot(fields[i], m.slots[i], Selected(fields, m, i)))
    && (forall i :: 0 <= i < |fields| && fields[i].htype.Oneof? ==> SelectorOk(fields, m, i))
  }

  /** Required fields are sane once they have been seen. */
  predicate ReadyState(fields: seq<Field>, st: State)
    requires FieldsOk(fields) && MsgOk(fields, st.msg)
  {
    && ReadyMessage(fields, st.msg)
    && forall i :: 0 <= i < |fields| && fields[i].htype.Required? && i in st.seen ==>
        ProperSlot(fields[i], st.msg.slots[i], false)
  }

  /** Initial values that a message may keep without their field ever having been received are sane. */
  predicate KeptInitialOk(f: Field)
    requires FieldOk(f)
    decreases f, 0
  {
    assert TypeOk(f);
    (f.Singular() ==> Proper(f, Initial(f))) && (f.ltype.Submessage? ==> KeptInitialsOk(f.ltype.fields))
  }

  predicate KeptInitialsOk(fields: seq<Field>)
    requires FieldsOk(fields)
    decreases fields
  {
    forall i :: 0 <= i < |fields| ==> KeptInitialOk(fields[i])
  }

  lemma {:induction false} SameProper(f: Field, a: Value, b: Value)
    requires FieldOk(f) && ValueOk(f, a) && ValueOk(f, b) && SameValue(f, a, b) && Proper(f, b)
    ensures Proper(f, a)
    decreases f, 0
  {
    assert TypeOk(f);
    if f.ltype.Submessage? {
      SameMessageProper(f.ltype.fields, a.msg, b.msg);
    }
  }

  lemma {:induction false} SameSlotProper(f: Field, a: Slot, b: Slot, selected: bool)
    requires FieldOk(f) && SlotOk(f, a) && SlotOk(f, b) && SameSlot(f, a, b, selected) && ProperSlot(f, b, selected)
    ensures ProperSlot(f, a, selected)
    decreases f, 1
  {
    match a
    case One(v) =>
      if !f.htype.Oneof? || selected {
        SameProper(f, v, b.v);
      }
    case Opt(has, v) =>
      if has {
        SameProper(f, v, b.v);
      }
    case Many(count, items) =>
      forall j | 0 <= j < count ensures Proper(f, items[j]) {
        SameProper(f, items[j], b.items[j]);
      }
  }

  lemma {:induction false} SameMessageProper(fields: seq<Field>, a: Message, b: Message)
    requires FieldsOk(fields) && MsgOk(fields, a) && MsgOk(fields, b) && SameMessage(fields, a, b)
    requires ProperMessage(fields, b)
    ensures ProperMessage(fields, a)
    decreases fields
  {
    forall i | 0 <= i < |fields| ensures ProperSlot(fields[i], a.slots[i], Selected(fields, a, i)) {
      assert ProperSlot(fields[i], b.slots[i], Selected(fields, b, i));
      SameSlotProper(fields[i], a.slots[i], b.slots[i], Selected(fields, a, i));
    }
    forall i | 0 <= i < |fields| && fields[i].htype.Oneof? ensures SelectorOk(fields, a, i) {
      assert SelectorOk(fields, b, i);
    }
  }

  lemma {:induction false} InitReady(f: Field, s: Slot)
    requires FieldOk(f) && SlotOk(f, s) && KeptInitialOk(f)
    ensures ReadySlot(f, InitSlot(f, s), false)
    decreases f, 1
  {
    assert TypeOk(f);
    if f.ltype.Submessage? && !s.Many? {
      DefaultsReady(f.ltype.fields, s.v.msg);
    }
    if f.Singular() {
      InitSame(f, s.v);
      SameProper(f, InitValue(f, s.v), Initial(f));
    }
  }

  lemma {:induction false} DefaultsReady(fields: seq<Field>, m: Message)
    requires FieldsOk(fields) && MsgOk(fields, m) && KeptInitialsOk(fields)
    ensures ReadyMessage(fields, Defaults(fields, m))
    decreases fields
  {
    var d := Defaults(fields, m);
    forall i | 0 <= i < |fields| && fields[i].htype.Oneof? ensures SelectorOk(fields, d, i) && !Selected(fields, d, i) {
      assert Group(fields, i) in Groups(fields, |fields|) && FieldOk(fields[i]);
    }
    forall i | 0 <= i < |fields| ensures ReadySlot(fields[i], d.slots[i], Selected(fields, d, i)) {
      InitReady(fields[i], m.slots[i]);
    }
  }

  lemma SlotIsProper(f: Field, s: Slot, selected: bool)
    requires FieldOk(f) && SlotOk(f, s) && ReadySlot(f, s, selected) && (f.htype.Required? ==> ProperSlot(f, s, false))
    ensures ProperSlot(f, s, selected)
  {
    assert TypeOk(f);
  }

  /** With every required field seen, all data in use is sane. */
  lemma ReadyIsProper(fields: seq<Field>, st: State)
    requires FieldsOk(fields) && MsgOk(fields, st.msg) && ReadyState(fields, st) && AllSeen(fields, st.seen)
    ensures ProperMessage(fields, st.msg)
  {
    forall i | 0 <= i < |fields| ensures ProperSlot(fields[i], st.msg.slots[i], Selected(fields, st.msg, i)) {
      assert FieldOk(fields[i]);
      SlotIsProper(fields[i], st.msg.slots[i], Selected(fields, st.msg, i));
    }
  }

  lemma {:induction false} TerminatedAt(buf: seq<Byte>, k: nat)
    requires k < |buf| && buf[k] == 0
    ensures |CString(buf)| <= k
  {
    if buf[0] != 0 {
      TerminatedAt(buf[1..], k - 1);
    }
  }

  /** The string decoder always leaves a terminator behind. */
  lemma LeafReady(f: Field, s: seq<Byte>, v: Value)
    requires IsLeaf(f) && FieldOk(f) && ValueOk(f, v) && DecLeaf(f, s, v).Done?
    ensures Proper(f, DecLeaf(f, s, v).v)
  {
    assert TypeOk(f);
    if f.ltype.String? {
      var VarintOk(size, _) := DecVarint32(s);
      TerminatedAt(DecLeaf(f, s, v).v.buf, size);
    }
  }

  lemma {:induction false} ValueReady(f: Field, s: seq<Byte>, v: Value)
    requires FieldOk(f) && ValueOk(f, v) && KeptInitialOk(f) && (f.htype.Repeated? || Ready(f, v))
    requires DecValue(f, s, v).Ok?
    ensures Proper(f, DecValue(f, s, v).out) && Ready(f, DecValue(f, s, v).out)
    decreases |s|, 1
  {
    assert TypeOk(f);
    if f.ltype.Submessage? {
      var sub := f.ltype.fields;
      DefaultsReady(sub, v.msg);
      MessageReady(sub, DecPiece(s).payload, if f.htype.Repeated? then Defaults(sub, v.msg) else v.msg);
    } else {
      LeafReady(f, s, v);
    }
  }

  lemma {:induction false} SlotReady(f: Field, wt: WireType, s: seq<Byte>, slot: Slot, selected: bool)
    requires FieldOk(f) && SlotOk(f, slot) && KeptInitialOk(f) && ReadySlot(f, slot, selected)
    requires DecSlot(f, wt, s, slot).Ok?
    ensures ReadySlot(f, DecSlot(f, wt, s, slot).out, true) && ProperSlot(f, DecSlot(f, wt, s, slot).out, true)
    decreases |s|, 2
  {
    assert TypeOk(f);
    match slot
    case One(v) =>
      if f.htype.Oneof? && f.ltype.Submessage? {
        DefaultsReady(f.ltype.fields, ZeroMessage(f.ltype.fields));
      }
      ValueReady(f, s, UnionStart(f, v));
    case Opt(_, v) => ValueReady(f, s, v);
    case Many(count, items) =>
      if wt.WtString? && f.ltype.Packable() {
        ElementsFit(f, DecPiece(s).payload, count, items);
      } else {
        ValueReady(f, s, items[count]);
      }
  }

  lemma PutReady(fields: seq<Field>, st: State, i: nat, s: Slot)
    requires FieldsOk(fields) && MsgOk(fields, st.msg) && i < |fields| && SlotOk(fields[i], s) && ReadyState(fields, st)
    requires ReadySlot(fields[i], s, true) && ProperSlot(fields[i], s, true)
    ensures ReadyState(fields, Noting(fields, st, i, s))
  {
    var st' := Noting(fields, st, i, s);
    PutSelectors(fields, st.msg, i, s);
    hide SelectorOk, FieldOk, SlotOk, Proper, Ready;
    forall j | 0 <= j < |fields| ensures ReadySlot(fields[j], st'.msg.slots[j], Selected(fields, st'.msg, j)) {
      assert ReadySlot(fields[j], st.msg.slots[j], Selected(fields, st.msg, j));
      OtherUnselected(fields, st.msg, i, s, j);
    }
  }

  lemma {:induction false} RecordReady(fields: seq<Field>, s: seq<Byte>, st: State)
    requires FieldsOk(fields) && MsgOk(fields, st.msg) && KeptInitialsOk(fields) && ReadyState(fields, st)
    requires DecRecord(fields, s, st).More?
    ensures ReadyState(fields, DecRecord(fields, s, st).st)
    decreases |s|, 3
  {
    var Tag(wt, tag, rest) := DecTag(s);
    var i := Lookup(fields, tag);
    if i < |fields| {
      var slot := st.msg.slots[i];
      assert FieldOk(fields[i]) && ReadySlot(fields[i], slot, Selected(fields, st.msg, i));
      SlotReady(fields[i], wt, rest, slot, Selected(fields, st.msg, i));
      PutReady(fields, st, i, DecSlot(fields[i], wt, rest, slot).out);
    }
  }

  lemma {:induction false} LoopReady(fields: seq<Field>, s: seq<Byte>, st: State)
    requires FieldsOk(fields) && MsgOk(fields, st.msg) && KeptInitialsOk(fields) && ReadyState(fields, st)
    requires DecLoop(fields, s, st).Ok?
    ensures ReadyState(fields, DecLoop(fields, s, st).out)
    decreases |s|, 4
  {
    if s != [] {
      match DecRecord(fields, s, st)
      case Stop(_) =>
      case More(st', rest) =>
        RecordReady(fields, s, st);
        LoopReady(fields, rest, st');
    }
  }

  lemma {:induction false} MessageReady(fields: seq<Field>, s: seq<Byte>, m: Message)
    requires FieldsOk(fields) && MsgOk(fields, m) && KeptInitialsOk(fields) && ReadyMessage(fields, m)
    requires DecMessage(fields, s, m).Ok?
    ensures ReadyMessage(fields, DecMessage(fields, s, m).out) && ProperMessage(fields, DecMessage(fields, s, m).out)
    decreases |s|, 5
  {
    LoopReady(fields, s, State(m, {}));
    ReadyIsProper(fields, DecLoop(fields, s, State(m, {})).out);
  }

  /** Whatever pb_decode accepts, into whatever struct: strings are terminated, byte counts, array counts
    * and selectors are in range, at every depth. */
  lemma DecodedIsProper(fields: seq<Field>, s: seq<Byte>, dest: Message)
    requires FieldsOk(fields) && MsgOk(fields, dest) && KeptInitialsOk(fields) && DecInit(fields, s, dest).Ok?
    ensures ProperMessage(fields, DecInit(fields, s, dest).out)
  {
    DefaultsReady(fields, dest);
    MessageReady(fields, s, Defaults(fields, dest));
  }

  // ----- encoding what was decoded

  /** A proto3-style field whose data is all zero is as it was initialised: leaving it out loses nothing. */
  predicate Shown(f: Field, v: Value)
    requires FieldOk(f) && ValueOk(f, v)
    decreases f, 0
  {
    assert TypeOk(f);
    f.ltype.Submessage? ==> ShownMessage(f.ltype.fields, v.msg)
  }

  predicate ShownSlot(f: Field, s: Slot, selected: bool)
    requires FieldOk(f) && SlotOk(f, s)
    decreases f, 1
  {
    match s
    case One(v) =>
      if f.htype.Oneof? && !selected then true
      else if Unsent(f, v) then SameValue(f, v, Initial(f))
      else Shown(f, v)
    case Opt(has, v) => has ==> Shown(f, v)
    case Many(count, items) => forall j :: 0 <= j < count && j < |items| ==> Shown(f, items[j])
  }

  predicate ShownMessage(fields: seq<Field>, m: Message)
    requires FieldsOk(fields) && MsgOk(fields, m)
    decreases fields
  {
    forall i :: 0 <= i < |fields| ==> ShownSlot(fields[i], m.slots[i], Selected(fields, m, i))
  }

  lemma {:induction false} ShownCarried(f: Field, v: Value)
    requires FieldOk(f) && ValueOk(f, v) && Proper(f, v) && Shown(f, v)
    ensures Carried(f, v)
    decreases f, 0
  {
    assert TypeOk(f);
    if f.ltype.Submessage? {
      ShownMessageCarried(f.ltype.fields, v.msg);
    }
  }

  lemma {:induction false} ShownSlotCarried(f: Field, s: Slot, selected: bool)
    requires FieldOk(f) && SlotOk(f, s) && ProperSlot(f, s, selected) && ShownSlot(f, s, selected)
    ensures CarriedSlot(f, s, selected)
    decreases f, 1
  {
    match s
    case One(v) =>
      if (!f.htype.Oneof? || selected) && !Unsent(f, v) {
        ShownCarried(f, v);
      }
    case Opt(has, v) =>
      if has {
        ShownCarried(f, v);
      }
    case Many(count, items) =>
      forall j | 0 <= j < count ensures Carried(f, items[j]) {
        ShownCarried(f, items[j]);
      }
  }

  lemma {:induction false} ShownMessageCarried(fields: seq<Field>, m: Message)
    requires FieldsOk(fields) && MsgOk(fields, m) && ProperMessage(fields, m) && ShownMessage(fields, m)
    ensures CarriedMessage(fields, m)
    decreases fields
  {
    forall i | 0 <= i < |fields| ensures CarriedSlot(fields[i], m.slots[i], Selected(fields, m, i)) {
      ShownSlotCarried(fields[i], m.slots[i], Selected(fields, m, i));
    }
  }

  /** No proto3-style message, and no proto3-style field with a default value, at any depth. */
  predicate PlainField(f: Field)
    decreases f, 0
  {
    && (f.Singular() ==> !f.ltype.Submessage? && f.default.NoDefault?)
    && (f.ltype.Submessage? ==> PlainFields(f.ltype.fields))
  }

  predicate PlainFields(fields: seq<Field>)
    decreases fields
  {
    forall i :: 0 <= i < |fields| ==> PlainField(fields[i])
  }

  lemma {:induction false} PlainShown(f: Field, v: Value)
    requires FieldOk(f) && ValueOk(f, v) && PlainField(f)
    ensures Shown(f, v)
    decreases f, 0
  {
    assert TypeOk(f);
    if f.ltype.Submessage? {
      PlainMessageShown(f.ltype.fields, v.msg);
    }
  }

  lemma {:induction false} PlainSlotShown(f: Field, s: Slot, selected: bool)
    requires FieldOk(f) && SlotOk(f, s) && PlainField(f)
    ensures ShownSlot(f, s, selected)
    decreases f, 1
  {
    match s
    case One(v) =>
      PlainShown(f, v);
      if Unsent(f, v) {
        ZeroIsInitial(f, v);
      }
    case Opt(_, v) => PlainShown(f, v);
    case Many(count, items) =>
      forall j | 0 <= j < count && j < |items| ensures Shown(f, items[j]) {
        PlainShown(f, items[j]);
      }
  }

  /** For such descriptors nothing is ever lost by leaving a field out. */
  lemma {:induction false} PlainMessageShown(fields: seq<Field>, m: Message)
    requires FieldsOk(fields) && MsgOk(fields, m) && PlainFields(fields)
    ensures ShownMessage(fields, m)
    decreases fields
  {
    forall i | 0 <= i < |fields| ensures ShownSlot(fields[i], m.slots[i], Selected(fields, m, i)) {
      PlainSlotShown(fields[i], m.slots[i], Selected(fields, m, i));
    }
  }

  lemma ZeroIsInitial(f: Field, v: Value)
    requires FieldOk(f) && ValueOk(f, v) && !f.ltype.Submessage? && f.default.NoDefault? && IsZero(f, v)
    ensures SameValue(f, v, Initial(f))
  {
    assert TypeOk(f);
    if f.ltype.FixedLengthBytes? {
      assert v.buf == Initial(f).buf;
    }
  }

  /** pb_decode, pb_encode, pb_decode: of every struct with the decoded contents, unless a proto3-style field
    * with something in it shows all-zero data, the encoder makes bytes that decode to the same message. */
  lemma Reencoding(fields: seq<Field>, s: seq<Byte>, dest: Message, m: Message, dest2: Message)
    requires FieldsOk(fields) && MsgOk(fields, dest) && MsgOk(fields, dest2) && KeptInitialsOk(fields)
    requires DecInit(fields, s, dest).Ok?
    requires MsgOk(fields, m) && SameMessage(fields, m, DecInit(fields, s, dest).out)
    requires FitsMessage(fields, m) && ShownMessage(fields, m)
    ensures EncMessage(fields, m).Wrote?
    ensures var again := DecInit(fields, EncMessage(fields, m).bytes, dest2);
            again.Ok? && again.rest == [] && SameMessage(fields, m, again.out)
  {
    DecodedIsProper(fields, s, dest);
    SameMessageProper(fields, m, DecInit(fields, s, dest).out);
    ShownMessageCarried(fields, m);
    EncodeThenDecode(fields, m, dest2);
  }
}
