/** Readers with other versions of the descriptors than the writer, older or newer, at any depth. */
module Readers {
  import opened Bits
  import opened Wire
  import opened Descriptors
  import opened DecodeSpec
  import opened EncodeSpec
  import opened Same
  import opened Records
  import opened RoundTrip
  import opened Evolution

  // ----- which versions go together

  predicate LeafAlike(rf: Field, wf: Field) {
    && rf.ltype == wf.ltype && !rf.ltype.Submessage?
    && if rf.ltype.FixedLengthBytes? then wf.dataSize == rf.dataSize else wf.dataSize <= rf.dataSize
  }

  /** The same field in two versions. It may move, its rule may change between required, optional, proto3-style
    * and union member, its numbers, buffers and arrays may be larger for the reader, and messages in it may
    * have changed in the same way. */
  predicate Compatible(rf: Field, wf: Field)
    decreases wf, 0
  {
    && (rf.htype.Repeated? <==> wf.htype.Repeated?)
    && (rf.htype.Repeated? ==> wf.arraySize <= rf.arraySize)
    && if rf.ltype.Submessage? && wf.ltype.Submessage? then CompatibleAll(rf.ltype.fields, wf.ltype.fields)
       else LeafAlike(rf, wf)
  }

  /** Common fields are compatible, what the reader requires the writer requires too, and members of one union
    * of the reader that the writer knows are members of one union there. */
  predicate CompatibleAll(reader: seq<Field>, writer: seq<Field>)
    decreases writer
  {
    && (forall j, i :: 0 <= j < |reader| && 0 <= i < |writer| && reader[j].tag == writer[i].tag ==>
          Compatible(reader[j], writer[i]))
    && RequiredAgree(reader, writer)
    && UnionsAgree(reader, writer)
  }

  predicate RequiredAgree(reader: seq<Field>, writer: seq<Field>) {
    forall j :: 0 <= j < |reader| && reader[j].htype.Required? ==> Requires(writer, reader[j].tag)
  }

  predicate Requires(writer: seq<Field>, tag: nat) {
    var i := Lookup(writer, tag);
    i < |writer| && writer[i].htype.Required?
  }

  predicate UnionsAgree(reader: seq<Field>, writer: seq<Field>) {
    forall j, k :: 0 <= j < k < |reader| && OneUnion(reader, j, k) ==>
      KnownInOneUnion(writer, Lookup(writer, reader[j].tag), Lookup(writer, reader[k].tag))
  }

  predicate OneUnion(fields: seq<Field>, j: nat, k: nat)
    requires j < |fields| && k < |fields|
  {
    fields[j].htype.Oneof? && fields[k].htype.Oneof? && Group(fields, j) == Group(fields, k)
  }

  predicate KnownInOneUnion(writer: seq<Field>, i: nat, l: nat) {
    i < |writer| && l < |writer| ==> OneUnion(writer, i, l)
  }

  // ----- when a reader's struct shows the writer's message

  predicate ShowsValue(rf: Field, wf: Field, a: Value, b: Value)
    requires FieldOk(rf) && ValueOk(rf, a) && FieldOk(wf) && ValueOk(wf, b)
    decreases wf, 0
  {
    assert TypeOk(rf) && TypeOk(wf);
    if rf.ltype.Submessage? && wf.ltype.Submessage? then ShowsMessage(rf.ltype.fields, wf.ltype.fields, a.msg, b.msg)
    else if rf.ltype.Bytes? && wf.ltype.Bytes? then
      a.size == b.size && a.size <= |a.buf| && a.size <= |b.buf| && a.buf[..a.size] == b.buf[..a.size]
    else if rf.ltype.String? && wf.ltype.String? then CString(a.buf) == CString(b.buf)
    else a == b
  }

  /** The writer has something in this field. */
  predicate Sends(f: Field, s: Slot, selected: bool)
    requires FieldOk(f) && SlotOk(f, s)
  {
    match s
    case One(v) => if f.htype.Oneof? then selected else !Unsent(f, v)
    case Opt(has, _) => has
    case Many(count, _) => count > 0
  }

  /** What was sent has arrived; of what was not, an optional field is absent and a proto3-style one initial. */
  predicate ShowsSlot(rf: Field, wf: Field, a: Slot, b: Slot, sends: bool)
    requires FieldOk(rf) && SlotOk(rf, a) && FieldOk(wf) && SlotOk(wf, b)
    decreases wf, 1
  {
    match a
    case Many(count, items) =>
      && b.Many? && count == b.count && count <= |items| && count <= |b.items|
      && forall k :: 0 <= k < count ==> ShowsValue(rf, wf, items[k], b.items[k])
    case Opt(has, v) => !b.Many? && has == sends && (sends ==> ShowsValue(rf, wf, v, b.v))
    case One(v) =>
      && !b.Many?
      && if sends then ShowsValue(rf, wf, v, b.v) else rf.Singular() ==> SameValue(rf, v, Initial(rf))
  }

  predicate ShowsField(reader: seq<Field>, writer: seq<Field>, a: Message, b: Message, j: nat, i: nat)
    requires FieldsOk(reader) && MsgOk(reader, a) && FieldsOk(writer) && MsgOk(writer, b) && j < |reader|
    requires i < |writer|
    decreases writer, 0
  {
    var sends := Sends(writer[i], b.slots[i], Selected(writer, b, i));
    && ShowsSlot(reader[j], writer[i], a.slots[j], b.slots[i], sends)
    && (reader[j].htype.Oneof? ==> Selected(reader, a, j) == sends)
  }

  predicate Absent(reader: seq<Field>, a: Message, j: nat)
    requires FieldsOk(reader) && MsgOk(reader, a) && j < |reader|
  {
    ClearedSlot(reader[j], a.slots[j]) && !Selected(reader, a, j)
  }

  predicate ShownAt(reader: seq<Field>, writer: seq<Field>, a: Message, b: Message, j: nat)
    requires FieldsOk(reader) && MsgOk(reader, a) && FieldsOk(writer) && MsgOk(writer, b) && j < |reader|
    decreases writer, 1
  {
    var i := Lookup(writer, reader[j].tag);
    if i < |writer| then ShowsField(reader, writer, a, b, j, i) else Absent(reader, a, j)
  }

  /** Field by field: what both know has arrived, what only the reader knows is absent. */
  predicate ShowsMessage(reader: seq<Field>, writer: seq<Field>, a: Message, b: Message)
    requires FieldsOk(reader) && MsgOk(reader, a) && FieldsOk(writer) && MsgOk(writer, b)
    decreases writer, 2
  {
    && (forall j :: 0 <= j < |reader| ==> ShownAt(reader, writer, a, b, j))
    && (forall j :: 0 <= j < |reader| && reader[j].htype.Oneof? ==> SelectorOk(reader, a, j))
  }

  // ----- values

  /** A number fits a wider field and reads the same on the wire. */
  lemma WiderNumber(rf: Field, wf: Field, b: Value)
    requires FieldOk(rf) && FieldOk(wf) && rf.ltype.Packable() && LeafAlike(rf, wf) && ValueOk(wf, b)
    ensures ValueOk(rf, b) && EncValue(rf, b) == EncValue(wf, b)
  {
    assert TypeOk(rf) && TypeOk(wf);
    if IsInt(rf) {
      Pow2Mono(8 * wf.dataSize, 8 * rf.dataSize);
      Pow2Mono(8 * wf.dataSize - 1, 8 * rf.dataSize - 1);
    }
    hide Pow2;
  }

  lemma LeafShows(rf: Field, wf: Field, b: Value, x: Value, t: seq<Byte>)
    requires FieldOk(rf) && FieldOk(wf) && ValueOk(wf, b) && ValueOk(rf, x) && LeafAlike(rf, wf) && Proper(wf, b)
    ensures EncValue(wf, b).Wrote?
    ensures var r := DecLeaf(rf, EncValue(wf, b).bytes + t, x);
            r.Done? && r.rest == t && ShowsValue(rf, wf, r.v, b)
  {
    assert TypeOk(rf) && TypeOk(wf);
    if wf.ltype.Bytes? {
      var p := b.buf[..b.size];
      BytesDecode(rf, p, x, t);
      assert (p + x.buf[|p|..])[..|p|] == p;
    } else if wf.ltype.String? {
      var p := CString(b.buf);
      StringDecode(rf, p, x, t);
      CStringPrefix(p, x.buf[|p| + 1..]);
    } else {
      if rf.ltype.Packable() {
        WiderNumber(rf, wf, b);
      }
      LeafRoundTrip(rf, b, x, t);
    }
  }

  lemma {:induction false} ValueShows(rf: Field, wf: Field, b: Value, x: Value, t: seq<Byte>)
    requires FieldOk(rf) && FieldOk(wf) && ValueOk(wf, b) && ValueOk(rf, x) && Compatible(rf, wf) && Sane(wf, b)
    requires Fits(wf, b)
    requires rf.htype.Repeated? || Cleared(rf, x)
    ensures EncValue(wf, b).Wrote?
    ensures var r := DecValue(rf, EncValue(wf, b).bytes + t, x);
            r.Ok? && r.rest == t && ShowsValue(rf, wf, r.out, b)
    decreases wf, 0
  {
    assert TypeOk(rf) && TypeOk(wf);
    if rf.ltype.Submessage? {
      var rsub, wsub := rf.ltype.fields, wf.ltype.fields;
      SaneMessageEncodes(wsub, b.msg);
      PieceRoundTrip(EncMessage(wsub, b.msg).bytes, t);
      DefaultsCleared(rsub, x.msg);
      MessageShows(rsub, wsub, b.msg, if rf.htype.Repeated? then Defaults(rsub, x.msg) else x.msg);
    } else {
      LeafShows(rf, wf, b, x, t);
    }
  }

  lemma SameWireType(rf: Field, wf: Field)
    requires Compatible(rf, wf)
    ensures FieldWireType(rf) == FieldWireType(wf) && rf.ltype.Packable() == wf.ltype.Packable()
    ensures !FieldWireType(wf).WtInvalid?
  {
  }

  function Stored(slot0: Slot, v: Value): Slot { if slot0.One? then One(v) else Opt(true, v) }

  /** A value on its way into a slot where nothing is present. */
  lemma {:induction false} SlotShows(rf: Field, wf: Field, b: Value, slot0: Slot, t: seq<Byte>) returns (v: Value)
    requires FieldOk(rf) && FieldOk(wf) && ValueOk(wf, b) && SlotOk(rf, slot0) && ClearedSlot(rf, slot0)
    requires Compatible(rf, wf) && !wf.htype.Repeated? && Sane(wf, b) && Fits(wf, b)
    ensures EncValue(wf, b).Wrote? && ValueOk(rf, v) && ShowsValue(rf, wf, v, b) && SlotOk(rf, Stored(slot0, v))
    ensures DecSlot(rf, FieldWireType(wf), EncValue(wf, b).bytes + t, slot0) == Ok(Stored(slot0, v), t)
    decreases wf, 1
  {
    hide DecValue, EncValue, Compatible, ShowsValue, Sane, Fits, FieldsOk, MsgOk;
    NotRepeated(rf, wf);
    var x := if slot0.One? then UnionStart(rf, slot0.v) else slot0.v;
    StartCleared(rf, slot0);
    ValueShows(rf, wf, b, x, t);
    v := DecValue(rf, EncValue(wf, b).bytes + t, x).out;
  }

  lemma NotRepeated(rf: Field, wf: Field)
    requires Compatible(rf, wf)
    ensures rf.htype.Repeated? <==> wf.htype.Repeated?
  {
  }

  lemma StartCleared(rf: Field, slot0: Slot)
    requires FieldOk(rf) && SlotOk(rf, slot0) && ClearedSlot(rf, slot0) && !slot0.Many?
    ensures Cleared(rf, if slot0.One? then UnionStart(rf, slot0.v) else slot0.v)
  {
    assert TypeOk(rf);
    if rf.htype.Oneof? && rf.ltype.Submessage? {
      DefaultsCleared(rf.ltype.fields, ZeroMessage(rf.ltype.fields));
    }
  }

  /** One record with a value. */
  lemma {:induction false} TaggedShows(reader: seq<Field>, wf: Field, j: nat, b: Value, t: seq<Byte>, st: State)
      returns (v: Value)
    requires FieldsOk(reader) && MsgOk(reader, st.msg) && j < |reader| && FieldOk(wf) && ValueOk(wf, b)
    requires reader[j].tag == wf.tag && Compatible(reader[j], wf) && !wf.htype.Repeated? && Sane(wf, b) && Fits(wf, b)
    requires FieldOk(reader[j]) && SlotOk(reader[j], st.msg.slots[j]) && ClearedSlot(reader[j], st.msg.slots[j])
    ensures EncTagged(wf, b).Wrote? && ValueOk(reader[j], v) && ShowsValue(reader[j], wf, v, b)
    ensures SlotOk(reader[j], Stored(st.msg.slots[j], v))
    ensures DecLoop(reader, EncTagged(wf, b).bytes + t, st) ==
            DecLoop(reader, t, Noting(reader, st, j, Stored(st.msg.slots[j], v)))
    decreases wf, 2
  {
    hide DecSlot, EncValue, Compatible, ShowsValue, Sane, Fits, FieldsOk, FieldOk, SlotOk, ValueOk, Cleared,
        ClearedSlot;
    var slot0 := st.msg.slots[j];
    v := SlotShows(reader[j], wf, b, slot0, t);
    SameWireType(reader[j], wf);
    OneRecord(reader, j, FieldWireType(wf), EncValue(wf, b).bytes, t, st, Stored(slot0, v));
  }

  // ----- arrays

  /** The slot shows the first n items. */
  predicate HoldsShown(rf: Field, wf: Field, items: seq<Value>, n: nat, slot: Slot)
    requires FieldOk(rf) && FieldOk(wf) && ItemsOk(wf, items)
  {
    && SlotOk(rf, slot) && rf.htype.Repeated? && slot.count == n && n <= |items| <= rf.arraySize
    && forall k :: 0 <= k < n ==> ShowsValue(rf, wf, slot.items[k], items[k])
  }

  predicate AllSane(f: Field, items: seq<Value>, n: nat)
    requires FieldOk(f) && ItemsOk(f, items)
  {
    forall k :: 0 <= k < n && k < |items| ==> Sane(f, items[k]) && Fits(f, items[k])
  }

  /** An item that is no packable number, on its way into an array with room. */
  lemma {:induction false} ItemArrives(rf: Field, wf: Field, b: Value, slot0: Slot, t: seq<Byte>) returns (v: Value)
    requires FieldOk(rf) && FieldOk(wf) && ValueOk(wf, b) && SlotOk(rf, slot0) && slot0.Many?
    requires slot0.count < |slot0.items|
    requires Compatible(rf, wf) && !wf.ltype.Packable() && Sane(wf, b) && Fits(wf, b)
    ensures EncValue(wf, b).Wrote? && ValueOk(rf, v) && ShowsValue(rf, wf, v, b)
    ensures DecSlot(rf, FieldWireType(wf), EncValue(wf, b).bytes + t, slot0) ==
            Ok(Many(slot0.count + 1, slot0.items[slot0.count := v]), t)
    decreases wf, 1
  {
    hide DecValue, EncValue, Compatible, ShowsValue, Sane, Fits, FieldsOk, MsgOk;
    SameWireType(rf, wf);
    NotRepeated(rf, wf);
    ValueShows(rf, wf, b, slot0.items[slot0.count], t);
    v := DecValue(rf, EncValue(wf, b).bytes + t, slot0.items[slot0.count]).out;
  }

  lemma {:induction false} ItemShows(reader: seq<Field>, wf: Field, j: nat, items: seq<Value>, k: nat, t: seq<Byte>,
                                     st: State)
      returns (st': State)
    requires FieldsOk(reader) && MsgOk(reader, st.msg) && j < |reader| && FieldOk(wf) && FieldOk(reader[j])
    requires ItemsOk(wf, items)
    requires reader[j].tag == wf.tag && Compatible(reader[j], wf) && !wf.ltype.Packable() && k < |items|
    requires Sane(wf, items[k]) && Fits(wf, items[k])
    requires HoldsShown(reader[j], wf, items, k, st.msg.slots[j])
    ensures EncTagged(wf, items[k]).Wrote?
    ensures MsgOk(reader, st'.msg) && HoldsShown(reader[j], wf, items, k + 1, st'.msg.slots[j])
    ensures OnlySlot(reader, st, st', j)
    ensures DecLoop(reader, EncTagged(wf, items[k]).bytes + t, st) == DecLoop(reader, t, st')
    decreases wf, 2
  {
    hide DecSlot, DecLoop, EncValue, Compatible, ShowsValue, Sane, Fits, FieldsOk, FieldOk, ValueOk;
    var slot0 := st.msg.slots[j];
    var v := ItemArrives(reader[j], wf, items[k], slot0, t);
    SameWireType(reader[j], wf);
    var slot := Many(k + 1, slot0.items[k := v]);
    OneRecord(reader, j, FieldWireType(wf), EncValue(wf, items[k]).bytes, t, st, slot);
    st' := Noting(reader, st, j, slot);
  }

  lemma {:induction false} ItemsShow(reader: seq<Field>, wf: Field, j: nat, items: seq<Value>, k: nat, count: nat,
                                     t: seq<Byte>, st: State)
      returns (st': State)
    requires FieldsOk(reader) && MsgOk(reader, st.msg) && j < |reader| && FieldOk(wf) && FieldOk(reader[j])
    requires ItemsOk(wf, items)
    requires reader[j].tag == wf.tag && Compatible(reader[j], wf) && !wf.ltype.Packable() && k <= count <= |items|
    requires AllSane(wf, items, count) && HoldsShown(reader[j], wf, items, k, st.msg.slots[j])
    ensures EncTaggedItems(wf, items, k, count).Wrote?
    ensures MsgOk(reader, st'.msg) && HoldsShown(reader[j], wf, items, count, st'.msg.slots[j])
    ensures OnlySlot(reader, st, st', j)
    ensures DecLoop(reader, EncTaggedItems(wf, items, k, count).bytes + t, st) == DecLoop(reader, t, st')
    decreases wf, 3, count - k
  {
    hide Sane, Fits, ShowsValue, DecLoop, EncTagged, Compatible, FieldsOk;
    if k == count {
      st' := st;
      NilLeft(t);
    } else {
      SaneItemsWrite(wf, items, k + 1, count);
      var q := EncTaggedItems(wf, items, k + 1, count).bytes;
      var st1 := ItemShows(reader, wf, j, items, k, q + t, st);
      Assoc(EncTagged(wf, items[k]).bytes, q, t);
      st' := ItemsShow(reader, wf, j, items, k + 1, count, t, st1);
    }
  }

  lemma SaneItemsWrite(f: Field, items: seq<Value>, k: nat, count: nat)
    requires FieldOk(f) && ItemsOk(f, items) && k <= count <= |items| && AllSane(f, items, count)
    ensures EncTaggedItems(f, items, k, count).Wrote?
  {
    SaneItemsEncode(f, items, k, count);
  }

  lemma {:induction false} SamePacked(rf: Field, wf: Field, a: seq<Value>, b: seq<Value>, k: nat, count: nat)
    requires FieldOk(rf) && FieldOk(wf) && ItemsOk(rf, a) && ItemsOk(wf, b) && k <= count <= |a| && count <= |b|
    requires rf.ltype.Packable() && LeafAlike(rf, wf) && forall l :: 0 <= l < count ==> a[l] == b[l]
    ensures EncItems(rf, a, k, count) == EncItems(wf, b, k, count)
    decreases count - k
  {
    if k < count {
      WiderNumber(rf, wf, b[k]);
      SamePacked(rf, wf, a, b, k + 1, count);
    }
  }

  /** The elements of a packed payload. */
  lemma {:induction false} PayloadShows(rf: Field, wf: Field, items: seq<Value>, count: nat, held: seq<Value>)
      returns (dest: seq<Value>)
    requires FieldOk(rf) && FieldOk(wf) && ItemsOk(wf, items) && ItemsOk(rf, held) && rf.ltype.Packable()
    requires LeafAlike(rf, wf)
    requires count <= |items| <= |held| == rf.arraySize
    ensures EncItems(wf, items, 0, count).Wrote?
    ensures |dest| == |held| && ItemsOk(rf, dest) && forall k :: 0 <= k < count ==> dest[k] == items[k]
    ensures DecElements(rf, EncItems(wf, items, 0, count).bytes, 0, held) == Elements(count, dest, 0, true)
  {
    assert TypeOk(rf) && TypeOk(wf);
    var padded := items[..count] + held[count..];
    forall k | 0 <= k < |padded| ensures ValueOk(rf, padded[k]) && (k < count ==> padded[k] == items[k]) {
      if k < count {
        WiderNumber(rf, wf, items[k]);
      }
    }
    SamePacked(rf, wf, padded, items, 0, count);
    ItemsSize(wf, items, 0, count);
    dest := PackedRoundTrip(rf, padded, 0, count, held);
    forall k | 0 <= k < count ensures dest[k] == items[k] {
      assert SameValue(rf, padded[k], dest[k]);
    }
  }

  /** A packed record. */
  lemma PackedShows(reader: seq<Field>, wf: Field, j: nat, items: seq<Value>, count: nat, t: seq<Byte>, st: State)
      returns (st': State)
    requires FieldsOk(reader) && MsgOk(reader, st.msg) && j < |reader| && FieldOk(wf) && FieldOk(reader[j])
    requires ItemsOk(wf, items)
    requires reader[j].tag == wf.tag && Compatible(reader[j], wf) && wf.ltype.Packable() && count <= |items|
    requires PackedFits(wf, items, count) && HoldsShown(reader[j], wf, items, 0, st.msg.slots[j])
    ensures EncItems(wf, items, 0, count).Wrote?
    ensures MsgOk(reader, st'.msg) && HoldsShown(reader[j], wf, items, count, st'.msg.slots[j])
    ensures OnlySlot(reader, st, st', j)
    ensures DecLoop(reader, EncTag(WtString, wf.tag) + EncPiece(EncItems(wf, items, 0, count).bytes) + t, st) ==
            DecLoop(reader, t, st')
  {
    hide DecElements, EncItems, DecPiece, EncPiece, FieldsOk, FieldOk, ValueOk;
    var rf := reader[j];
    var dest := PayloadShows(rf, wf, items, count, st.msg.slots[j].items);
    var p := EncItems(wf, items, 0, count).bytes;
    PieceRoundTrip(p, t);
    OneRecord(reader, j, WtString, EncPiece(p), t, st, Many(count, dest));
    st' := Noting(reader, st, j, Many(count, dest));
  }

  // ----- fields

  /** The writer's fields before n have arrived; nothing of the reader's others has. */
  predicate Reached(reader: seq<Field>, writer: seq<Field>, b: Message, n: nat, st: State)
    requires FieldsOk(reader) && MsgOk(reader, st.msg) && FieldsOk(writer) && MsgOk(writer, b) && n <= |writer|
  {
    && (forall j :: 0 <= j < |reader| ==> ReachedAt(reader, writer, b, n, st, j))
    && (forall j :: 0 <= j < |reader| && reader[j].htype.Oneof? ==> SelectorOk(reader, st.msg, j))
  }

  predicate ReachedAt(reader: seq<Field>, writer: seq<Field>, b: Message, n: nat, st: State, j: nat)
    requires FieldsOk(reader) && MsgOk(reader, st.msg) && FieldsOk(writer) && MsgOk(writer, b) && n <= |writer|
    requires j < |reader|
  {
    var i := Lookup(writer, reader[j].tag);
    if i < n then ShowsField(reader, writer, st.msg, b, j, i) && (reader[j].htype.Required? ==> j in st.seen)
    else Absent(reader, st.msg, j)
  }

  /** A step that stores the writer's field n in the reader's field j. */
  predicate Stores(reader: seq<Field>, st: State, st': State, j: nat, sends: bool)
    requires j < |reader| && MsgOk(reader, st.msg) && MsgOk(reader, st'.msg)
  {
    && (forall k :: 0 <= k < |reader| && k != j ==> st'.msg.slots[k] == st.msg.slots[k])
    && st.seen <= st'.seen && (reader[j].htype.Required? ==> j in st'.seen)
    && st'.msg.which == if reader[j].htype.Oneof? && sends then st.msg.which[Group(reader, j) := reader[j].tag]
        else st.msg.which
  }

  lemma StoresReaches(reader: seq<Field>, writer: seq<Field>, b: Message, n: nat, st: State, st': State, j: nat)
    requires FieldsOk(reader) && MsgOk(reader, st.msg) && MsgOk(reader, st'.msg) && FieldsOk(writer) && MsgOk(writer, b)
    requires n < |writer| && j < |reader| && reader[j].tag == writer[n].tag && CompatibleAll(reader, writer)
    requires Reached(reader, writer, b, n, st)
    requires Stores(reader, st, st', j, Sends(writer[n], b.slots[n], Selected(writer, b, n)))
    requires ShowsSlot(reader[j], writer[n], st'.msg.slots[j], b.slots[n],
                       Sends(writer[n], b.slots[n], Selected(writer, b, n)))
    ensures Reached(reader, writer, b, n + 1, st')
  {
    LookupFinds(writer, n, reader[j].tag);
    assert ReachedAt(reader, writer, b, n, st, j);
    var next := n + 1;
    forall k | 0 <= k < |reader| ensures ReachedAt(reader, writer, b, next, st', k) {
      assert ReachedAt(reader, writer, b, n, st, k);
      if k != j {
        OthersStay(reader, writer, b, n, st, st', j, k);
      }
    }
    StoredSelectors(reader, st, st', j, Sends(writer[n], b.slots[n], Selected(writer, b, n)));
  }

  lemma StoredSelectors(reader: seq<Field>, st: State, st': State, j: nat, sends: bool)
    requires FieldsOk(reader) && MsgOk(reader, st.msg) && MsgOk(reader, st'.msg) && j < |reader|
    requires Stores(reader, st, st', j, sends)
    requires forall k :: 0 <= k < |reader| && reader[k].htype.Oneof? ==> SelectorOk(reader, st.msg, k)
    ensures forall k :: 0 <= k < |reader| && reader[k].htype.Oneof? ==> SelectorOk(reader, st'.msg, k)
  {
    forall k | 0 <= k < |reader| && reader[k].htype.Oneof? ensures SelectorOk(reader, st'.msg, k) {
      assert SelectorOk(reader, st.msg, k);
      if reader[j].htype.Oneof? && Group(reader, j) == Group(reader, k) {
        assert IsMember(reader, j, Group(reader, k), reader[j].tag);
      }
    }
  }

  lemma OneOfUnion(fields: seq<Field>, m: Message, i: nat, l: nat)
    requires UniqueTags(fields) && i < |fields| && l < |fields| && i != l && OneUnion(fields, i, l)
    ensures fields[i].tag != fields[l].tag && !(Selected(fields, m, i) && Selected(fields, m, l))
  {
    assert i < l || l < i;
  }

  lemma MemberSends(fields: seq<Field>, m: Message, i: nat)
    requires FieldsOk(fields) && MsgOk(fields, m) && i < |fields| && fields[i].htype.Oneof?
    requires FieldOk(fields[i]) && SlotOk(fields[i], m.slots[i])
    ensures Sends(fields[i], m.slots[i], Selected(fields, m, i)) == Selected(fields, m, i)
  {
  }

  /** A field that loses its union to field j was not selected before: the writer's union holds one member. */
  lemma NotSelected(reader: seq<Field>, writer: seq<Field>, b: Message, n: nat, st: State, j: nat, k: nat)
    requires FieldsOk(reader) && MsgOk(reader, st.msg) && FieldsOk(writer) && MsgOk(writer, b)
    requires n < |writer| && j < |reader| && k < |reader| && j != k && reader[j].tag == writer[n].tag
    requires UnionsAgree(reader, writer) && ReachedAt(reader, writer, b, n, st, k) && OneUnion(reader, j, k)
    requires FieldOk(writer[n]) && SlotOk(writer[n], b.slots[n]) && Sends(writer[n], b.slots[n], Selected(writer, b, n))
    ensures !Selected(reader, st.msg, k)
  {
    hide ShowsSlot, ClearedSlot, Sends, SlotOk, FieldOk, Selected;
    LookupFinds(writer, n, reader[j].tag);
    var i := Lookup(writer, reader[k].tag);
    if i < n {
      assert OneUnion(reader, k, j);
      assert KnownInOneUnion(writer, n, i) || KnownInOneUnion(writer, i, n);
      OneOfUnion(writer, b, n, i);
      MemberSends(writer, b, n);
      MemberSends(writer, b, i);
    }
  }

  lemma SelectionStays(reader: seq<Field>, writer: seq<Field>, b: Message, n: nat, st: State, st': State, j: nat,
                       k: nat)
    requires FieldsOk(reader) && MsgOk(reader, st.msg) && MsgOk(reader, st'.msg) && FieldsOk(writer) && MsgOk(writer, b)
    requires n < |writer| && j < |reader| && k < |reader| && j != k && reader[j].tag == writer[n].tag
    requires UnionsAgree(reader, writer) && ReachedAt(reader, writer, b, n, st, k)
    requires FieldOk(writer[n]) && SlotOk(writer[n], b.slots[n])
    requires Stores(reader, st, st', j, Sends(writer[n], b.slots[n], Selected(writer, b, n)))
    ensures Selected(reader, st'.msg, k) == Selected(reader, st.msg, k)
  {
    hide Sends, SlotOk, FieldOk, ReachedAt, UnionsAgree;
    if OneUnion(reader, j, k) && Sends(writer[n], b.slots[n], Selected(writer, b, n)) {
      OneOfUnion(reader, st'.msg, j, k);
      NotSelected(reader, writer, b, n, st, j, k);
    }
  }

  /** The reader's other fields stay as they were, selected or not. */
  lemma OthersStay(reader: seq<Field>, writer: seq<Field>, b: Message, n: nat, st: State, st': State, j: nat, k: nat)
    requires FieldsOk(reader) && MsgOk(reader, st.msg) && MsgOk(reader, st'.msg) && FieldsOk(writer) && MsgOk(writer, b)
    requires n < |writer| && j < |reader| && k < |reader| && j != k && reader[j].tag == writer[n].tag
    requires UnionsAgree(reader, writer) && ReachedAt(reader, writer, b, n, st, k)
    requires Stores(reader, st, st', j, Sends(writer[n], b.slots[n], Selected(writer, b, n)))
    ensures ReachedAt(reader, writer, b, n + 1, st', k)
  {
    hide ShowsSlot, ClearedSlot, Selected, UnionsAgree;
    assert FieldOk(writer[n]) && SlotOk(writer[n], b.slots[n]);
    hide SlotOk, FieldOk;
    SelectionStays(reader, writer, b, n, st, st', j, k);
    LookupFinds(writer, n, reader[j].tag);
    LookupFinds(writer, n, reader[k].tag);
    assert st'.msg.slots[k] == st.msg.slots[k];
  }

  // ----- one field of the writer

  /** What a slot of the writer does to field j of the reader. */
  predicate Arrives(reader: seq<Field>, wf: Field, j: nat, b: Slot, selected: bool, t: seq<Byte>, st: State, st': State)
    requires FieldsOk(reader) && MsgOk(reader, st.msg) && j < |reader| && FieldOk(wf) && SlotOk(wf, b)
  {
    && EncSlot(wf, b, selected).Wrote?
    && MsgOk(reader, st'.msg) && Stores(reader, st, st', j, Sends(wf, b, selected))
    && FieldOk(reader[j]) && SlotOk(reader[j], st'.msg.slots[j])
    && ShowsSlot(reader[j], wf, st'.msg.slots[j], b, Sends(wf, b, selected))
    && DecLoop(reader, EncSlot(wf, b, selected).bytes + t, st) == DecLoop(reader, t, st')
  }

  lemma {:induction false} SingleShows(reader: seq<Field>, wf: Field, j: nat, b: Slot, selected: bool, t: seq<Byte>,
                                       st: State)
      returns (st': State)
    requires FieldsOk(reader) && MsgOk(reader, st.msg) && j < |reader| && FieldOk(wf) && SlotOk(wf, b)
    requires reader[j].tag == wf.tag && Compatible(reader[j], wf) && !wf.htype.Repeated?
    requires reader[j].htype.Required? ==> wf.htype.Required?
    requires SaneSlot(wf, b, selected) && FitsSlot(wf, b, selected)
    requires FieldOk(reader[j]) && SlotOk(reader[j], st.msg.slots[j]) && ClearedSlot(reader[j], st.msg.slots[j])
    ensures Arrives(reader, wf, j, b, selected, t, st, st')
    decreases wf, 3
  {
    hide ShowsValue, DecLoop, EncTagged, FieldsOk, ValueOk, Sane, Fits;
    if Sends(wf, b, selected) {
      var v := TaggedShows(reader, wf, j, b.v, t, st);
      st' := Noting(reader, st, j, Stored(st.msg.slots[j], v));
    } else {
      NilLeft(t);
      st' := st;
    }
  }

  lemma {:induction false} ManyShows(reader: seq<Field>, wf: Field, j: nat, b: Slot, t: seq<Byte>, st: State)
      returns (st': State)
    requires FieldsOk(reader) && MsgOk(reader, st.msg) && j < |reader| && FieldOk(wf) && SlotOk(wf, b)
    requires reader[j].tag == wf.tag && Compatible(reader[j], wf) && wf.htype.Repeated?
    requires SaneSlot(wf, b, false) && FitsSlot(wf, b, false)
    requires FieldOk(reader[j]) && SlotOk(reader[j], st.msg.slots[j]) && ClearedSlot(reader[j], st.msg.slots[j])
    ensures Arrives(reader, wf, j, b, false, t, st, st')
    decreases wf, 4
  {
    if b.count == 0 {
      NilLeft(t);
      st' := st;
    } else if wf.ltype.Packable() {
      st' := PackedShows(reader, wf, j, b.items, b.count, t, st);
    } else {
      st' := ItemsShow(reader, wf, j, b.items, 0, b.count, t, st);
    }
  }

  predicate Sendable(f: Field, s: Slot, selected: bool) {
    FieldOk(f) && SlotOk(f, s) && SaneSlot(f, s, selected) && FitsSlot(f, s, selected)
  }

  lemma SlotSendable(writer: seq<Field>, b: Message, n: nat)
    requires FieldsOk(writer) && MsgOk(writer, b) && SaneMessage(writer, b) && FitsMessage(writer, b) && n < |writer|
    ensures Sendable(writer[n], b.slots[n], Selected(writer, b, n))
  {
  }

  /** A field the reader does not know passes without a trace. */
  lemma UnknownPasses(reader: seq<Field>, f: Field, s: Slot, selected: bool, t: seq<Byte>, st: State)
    requires FieldsOk(reader) && MsgOk(reader, st.msg) && Sendable(f, s, selected) && !Knows(reader, f)
    ensures EncSlot(f, s, selected).Wrote?
    ensures DecLoop(reader, EncSlot(f, s, selected).bytes + t, st) == DecLoop(reader, t, st)
  {
    hide DecLoop, EncSlot, Complete, FieldsOk, FieldOk, SlotOk, SaneSlot, FitsSlot;
    SaneSlotEncodes(f, s, selected);
    SlotExtent(reader, f, s, selected, t);
  }

  lemma UnknownReaches(reader: seq<Field>, writer: seq<Field>, b: Message, n: nat, st: State)
    requires FieldsOk(reader) && MsgOk(reader, st.msg) && FieldsOk(writer) && MsgOk(writer, b) && n < |writer|
    requires !Knows(reader, writer[n]) && Reached(reader, writer, b, n, st)
    ensures Reached(reader, writer, b, n + 1, st)
  {
    hide ShowsField, Absent, FieldsOk;
    var next := n + 1;
    forall j | 0 <= j < |reader| ensures ReachedAt(reader, writer, b, next, st, j) {
      assert ReachedAt(reader, writer, b, n, st, j);
    }
  }

  lemma {:induction false} FieldShows(reader: seq<Field>, writer: seq<Field>, b: Message, n: nat, t: seq<Byte>,
                                      st: State)
      returns (st': State)
    requires FieldsOk(reader) && MsgOk(reader, st.msg) && FieldsOk(writer) && MsgOk(writer, b) && n < |writer|
    requires CompatibleAll(reader, writer) && SaneMessage(writer, b) && FitsMessage(writer, b)
    requires Reached(reader, writer, b, n, st)
    ensures EncSlot(writer[n], b.slots[n], Selected(writer, b, n)).Wrote?
    ensures MsgOk(reader, st'.msg) && Reached(reader, writer, b, n + 1, st')
    ensures DecLoop(reader, EncSlot(writer[n], b.slots[n], Selected(writer, b, n)).bytes + t, st) ==
              DecLoop(reader, t, st')
    decreases writer, 0
  {
    var f, s, selected := writer[n], b.slots[n], Selected(writer, b, n);
    SlotSendable(writer, b, n);
    var j := Lookup(reader, f.tag);
    if j == |reader| {
      UnknownPasses(reader, f, s, selected, t, st);
      UnknownReaches(reader, writer, b, n, st);
      st' := st;
    } else {
      LookupFinds(writer, n, f.tag);
      assert ReachedAt(reader, writer, b, n, st, j);
      assert FieldOk(reader[j]) && SlotOk(reader[j], st.msg.slots[j]) && Compatible(reader[j], f);
      if f.htype.Repeated? {
        st' := ManyShows(reader, f, j, s, t, st);
      } else {
        st' := SingleShows(reader, f, j, s, selected, t, st);
      }
      StoresReaches(reader, writer, b, n, st, st', j);
    }
  }

  // ----- whole messages

  lemma {:induction false} FieldsShow(reader: seq<Field>, writer: seq<Field>, b: Message, n: nat, st: State)
      returns (st': State)
    requires FieldsOk(reader) && MsgOk(reader, st.msg) && FieldsOk(writer) && MsgOk(writer, b) && n <= |writer|
    requires CompatibleAll(reader, writer) && SaneMessage(writer, b) && FitsMessage(writer, b)
    requires Reached(reader, writer, b, n, st)
    ensures EncFrom(writer, b, n).Wrote?
    ensures MsgOk(reader, st'.msg) && Reached(reader, writer, b, |writer|, st')
    ensures DecLoop(reader, EncFrom(writer, b, n).bytes, st) == Ok(st', [])
    decreases writer, 1, |writer| - n
  {
    if n == |writer| {
      st' := st;
    } else {
      SaneRestEncodes(writer, b, n + 1);
      var st1 := FieldShows(reader, writer, b, n, EncFrom(writer, b, n + 1).bytes, st);
      st' := FieldsShow(reader, writer, b, n + 1, st1);
    }
  }

  lemma NothingReached(reader: seq<Field>, writer: seq<Field>, b: Message, m0: Message)
    requires FieldsOk(reader) && MsgOk(reader, m0) && FieldsOk(writer) && MsgOk(writer, b) && ClearedMessage(reader, m0)
    ensures Reached(reader, writer, b, 0, State(m0, {}))
  {
    forall j | 0 <= j < |reader| ensures ReachedAt(reader, writer, b, 0, State(m0, {}), j) {
      assert FieldOk(reader[j]);
    }
  }

  lemma AllReached(reader: seq<Field>, writer: seq<Field>, b: Message, st: State)
    requires FieldsOk(reader) && MsgOk(reader, st.msg) && FieldsOk(writer) && MsgOk(writer, b)
    requires CompatibleAll(reader, writer) && Reached(reader, writer, b, |writer|, st)
    ensures AllSeen(reader, st.seen) && ShowsMessage(reader, writer, st.msg, b)
  {
    hide Absent, ShowsSlot, Compatible, UnionsAgree, SelectorOk;
    forall j | 0 <= j < |reader| && reader[j].htype.Required? ensures j in st.seen {
      assert ReachedAt(reader, writer, b, |writer|, st, j) && Requires(writer, reader[j].tag);
    }
    forall j | 0 <= j < |reader| ensures ShownAt(reader, writer, st.msg, b, j) {
      assert ReachedAt(reader, writer, b, |writer|, st, j);
    }
  }

  /** Into a struct where nothing is present. */
  lemma {:induction false} MessageShows(reader: seq<Field>, writer: seq<Field>, b: Message, m0: Message)
    requires FieldsOk(reader) && MsgOk(reader, m0) && FieldsOk(writer) && MsgOk(writer, b)
    requires CompatibleAll(reader, writer) && SaneMessage(writer, b) && FitsMessage(writer, b)
    requires ClearedMessage(reader, m0)
    ensures EncMessage(writer, b).Wrote?
    ensures var r := DecMessage(reader, EncMessage(writer, b).bytes, m0);
            r.Ok? && r.rest == [] && ShowsMessage(reader, writer, r.out, b)
    decreases writer, 2
  {
    NothingReached(reader, writer, b, m0);
    var st := FieldsShow(reader, writer, b, 0, State(m0, {}));
    AllReached(reader, writer, b, st);
    hide DecLoop, EncFrom, ShowsMessage, AllSeen, FieldsOk, MsgOk;
  }

  /** Old and new versions read each other: pb_decode accepts what pb_encode wrote, reads all of it and shows
    * in every field that both know what was sent, whatever the destination held. */
  lemma ReaderShows(reader: seq<Field>, writer: seq<Field>, b: Message, dest: Message)
    requires FieldsOk(reader) && MsgOk(reader, dest) && FieldsOk(writer) && MsgOk(writer, b)
    requires CompatibleAll(reader, writer) && SaneMessage(writer, b) && FitsMessage(writer, b)
    ensures EncMessage(writer, b).Wrote?
    ensures var r := DecInit(reader, EncMessage(writer, b).bytes, dest);
            r.Ok? && r.rest == [] && ShowsMessage(reader, writer, r.out, b)
  {
    DefaultsCleared(reader, dest);
    MessageShows(reader, writer, b, Defaults(reader, dest));
  }

  // ----- equal descriptors

  lemma {:induction false} SelfCompatible(f: Field)
    requires FieldOk(f)
    ensures Compatible(f, f)
    decreases f, 0
  {
    assert TypeOk(f);
    if f.ltype.Submessage? {
      AllSelfCompatible(f.ltype.fields);
    }
  }

  /** A version goes together with itself. */
  lemma {:induction false} AllSelfCompatible(fields: seq<Field>)
    requires FieldsOk(fields)
    ensures CompatibleAll(fields, fields)
    decreases fields
  {
    forall j, i | 0 <= j < |fields| && 0 <= i < |fields| && fields[j].tag == fields[i].tag
      ensures Compatible(fields[j], fields[i])
    {
      SelfCompatible(fields[j]);
    }
    forall j | 0 <= j < |fields| ensures Lookup(fields, fields[j].tag) == j {
      LookupFinds(fields, j, fields[j].tag);
    }
  }

  lemma {:induction false} GroupInPrefix(fields: seq<Field>, more: seq<Field>, i: nat)
    requires i < |fields|
    ensures Group(fields + more, i) == Group(fields, i)
  {
    if i > 0 {
      GroupInPrefix(fields, more, i - 1);
    }
  }

  /** Where the longer version finds what the shorter one knows. */
  lemma AddedLookup(fields: seq<Field>, more: seq<Field>, j: nat)
    requires FieldsOk(fields) && FieldsOk(fields + more) && j < |fields + more|
    ensures Lookup(fields + more, (fields + more)[j].tag) == j
    ensures Lookup(fields, (fields + more)[j].tag) == if j < |fields| then j else |fields|
  {
    var both := fields + more;
    LookupFinds(both, j, both[j].tag);
    var i := Lookup(fields, both[j].tag);
    if i < |fields| {
      LookupFinds(both, i, both[j].tag);
    }
  }

  lemma AddedFieldsCompatible(fields: seq<Field>, more: seq<Field>, j: nat, i: nat)
    requires FieldsOk(fields) && FieldsOk(fields + more) && j < |fields + more| && i < |fields + more|
    requires (fields + more)[j].tag == (fields + more)[i].tag
    ensures Compatible((fields + more)[j], (fields + more)[i])
  {
    hide Compatible, FieldOk;
    SelfCompatible((fields + more)[j]);
  }

  lemma AddedRequired(fields: seq<Field>, more: seq<Field>)
    requires FieldsOk(fields) && FieldsOk(fields + more) && NoRequired(more)
    ensures RequiredAgree(fields, fields + more) && RequiredAgree(fields + more, fields)
  {
    hide FieldOk, Lookup;
    var both := fields + more;
    assert forall j :: |fields| <= j < |both| ==> both[j] == more[j - |fields|];
    forall j | 0 <= j < |both| && both[j].htype.Required?
      ensures Requires(both, both[j].tag) && Requires(fields, both[j].tag) && j < |fields|
    {
      AddedLookup(fields, more, j);
    }
    forall j | 0 <= j < |fields| && fields[j].htype.Required? ensures Requires(both, fields[j].tag) {
      assert both[j] == fields[j];
    }
  }

  lemma AddedUnions(fields: seq<Field>, more: seq<Field>)
    requires FieldsOk(fields) && FieldsOk(fields + more)
    ensures UnionsAgree(fields, fields + more) && UnionsAgree(fields + more, fields)
  {
    hide FieldOk, Lookup;
    var both := fields + more;
    forall j | 0 <= j < |both|
      ensures Lookup(both, both[j].tag) == j && Lookup(fields, both[j].tag) == if j < |fields| then j else |fields|
    {
      AddedLookup(fields, more, j);
    }
    forall j | 0 <= j < |fields| ensures Group(both, j) == Group(fields, j) && both[j] == fields[j] {
      GroupInPrefix(fields, more, j);
    }
  }

  /** Fields that are not required, members of old unions among them, can be added: both versions read what
    * the other one writes. */
  lemma AddingFields(fields: seq<Field>, more: seq<Field>)
    requires FieldsOk(fields) && FieldsOk(fields + more) && NoRequired(more)
    ensures CompatibleAll(fields, fields + more) && CompatibleAll(fields + more, fields)
  {
    hide Compatible, FieldsOk, RequiredAgree, UnionsAgree;
    var both := fields + more;
    AddedRequired(fields, more);
    AddedUnions(fields, more);
    forall j, i | 0 <= j < |both| && 0 <= i < |both| && both[j].tag == both[i].tag
      ensures Compatible(both[j], both[i])
    {
      AddedFieldsCompatible(fields, more, j, i);
    }
    assert forall j :: 0 <= j < |fields| ==> both[j] == fields[j];
  }

  lemma {:induction false} ShownValueIsSame(f: Field, a: Value, b: Value)
    requires FieldOk(f) && ValueOk(f, a) && ValueOk(f, b) && ShowsValue(f, f, a, b) && Carried(f, b)
    ensures SameValue(f, a, b)
    decreases f, 0
  {
    assert TypeOk(f);
    if f.ltype.Submessage? {
      ShownIsSame(f.ltype.fields, a.msg, b.msg);
    }
  }

  lemma {:induction false} ShownSlotIsSame(f: Field, a: Slot, b: Slot, selected: bool)
    requires FieldOk(f) && SlotOk(f, a) && SlotOk(f, b) && CarriedSlot(f, b, selected)
    requires ShowsSlot(f, f, a, b, Sends(f, b, selected))
    ensures SameSlot(f, a, b, selected)
    decreases f, 1
  {
    match a
    case One(v) =>
      if Sends(f, b, selected) {
        ShownValueIsSame(f, v, b.v);
      } else if f.Singular() {
        SameJoin(f, v, b.v, Initial(f));
      }
    case Opt(has, v) =>
      if has {
        ShownValueIsSame(f, v, b.v);
      }
    case Many(count, items) =>
      forall k | 0 <= k < count ensures SameValue(f, items[k], b.items[k]) {
        ShownValueIsSame(f, items[k], b.items[k]);
      }
  }

  /** With equal descriptors, to show a message that the encoding carries is to hold the same message. */
  lemma {:induction false} ShownIsSame(fields: seq<Field>, a: Message, b: Message)
    requires FieldsOk(fields) && MsgOk(fields, a) && MsgOk(fields, b) && CarriedMessage(fields, b)
    requires ShowsMessage(fields, fields, a, b)
    ensures SameMessage(fields, a, b)
    decreases fields
  {
    forall i | 0 <= i < |fields| ensures SameSlot(fields[i], a.slots[i], b.slots[i], Selected(fields, a, i)) {
      ShownHere(fields, a, b, i);
      ShownSlotIsSame(fields[i], a.slots[i], b.slots[i], Selected(fields, b, i));
    }
    forall i | 0 <= i < |fields| && fields[i].htype.Oneof?
      ensures Which(a, Group(fields, i)) == Which(b, Group(fields, i))
    {
      assert SelectorOk(fields, a, i) && SelectorOk(fields, b, i);
      forall j | 0 <= j < |fields| ensures Selected(fields, a, j) == Selected(fields, b, j) {
        ShownHere(fields, a, b, j);
      }
      var g := Group(fields, i);
      assert forall j :: 0 <= j < |fields| && IsMember(fields, j, g, Which(a, g)) ==> Selected(fields, a, j);
      assert forall j :: 0 <= j < |fields| && IsMember(fields, j, g, Which(b, g)) ==> Selected(fields, b, j);
    }
  }

  lemma ShownHere(fields: seq<Field>, a: Message, b: Message, i: nat)
    requires FieldsOk(fields) && MsgOk(fields, a) && MsgOk(fields, b) && ShowsMessage(fields, fields, a, b)
    requires i < |fields|
    ensures FieldOk(fields[i]) && SlotOk(fields[i], a.slots[i]) && SlotOk(fields[i], b.slots[i])
    ensures ShowsSlot(fields[i], fields[i], a.slots[i], b.slots[i],
                      Sends(fields[i], b.slots[i], Selected(fields, b, i)))
    ensures Selected(fields, a, i) == Selected(fields, b, i)
  {
    hide ShowsSlot;
    LookupFinds(fields, i, fields[i].tag);
    assert ShownAt(fields, fields, a, b, i);
  }
}
