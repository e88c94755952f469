/** Decoding what was encoded gives the message back. */
module RoundTrip {
  import opened Bits
  import opened Wire
  import opened Descriptors
  import opened DecodeSpec
  import opened EncodeSpec
  import opened Same
  import opened Integers

  // ----- one value

  lemma WordRoundTrip(i: nat, n: nat, t: seq<Byte>, v0: Value)
    requires n > 0 && i < Pow2(8 * n)
    ensures DecWord(EncFixed(i, n) + t, n, v0) == Done(IntV(i), t)
  {
    FixedRoundTrip(i, n);
    var p := EncFixed(i, n);
    SplitAt(p, t);
  }

  lemma BytesDecode(f: Field, p: seq<Byte>, v0: Value, t: seq<Byte>)
    requires f.ltype.Bytes? && ValueOk(f, v0) && |p| < TWO32 && |p| <= |v0.buf|
    ensures DecBytes(f, EncPiece(p) + t, v0) == Done(BytesV(|p|, p + v0.buf[|p|..]), t)
  {
    Varint32RoundTrip(|p|, p + t);
    Assoc(EncVarint(|p|), p, t);
    SplitAt(p, t);
  }

  lemma BytesRoundTrip(f: Field, v: Value, v0: Value, t: seq<Byte>)
    requires FieldOk(f) && f.ltype.Bytes? && ValueOk(f, v) && ValueOk(f, v0)
    requires EncValue(f, v).Wrote?
    ensures var r := DecBytes(f, EncValue(f, v).bytes + t, v0);
            r.Done? && r.rest == t && SameValue(f, v, r.v)
  {
    var p := v.buf[..v.size];
    BytesDecode(f, p, v0, t);
    assert (p + v0.buf[v.size..])[..v.size] == p;
  }

  lemma {:induction false} CStringPrefix(p: seq<Byte>, t: seq<Byte>)
    requires forall i :: 0 <= i < |p| ==> p[i] != 0
    ensures CString(p + [0] + t) == p
  {
    var s := p + [0] + t;
    if p != [] {
      assert s[1..] == p[1..] + [0] + t;
      CStringPrefix(p[1..], t);
    }
  }

  lemma StringDecode(f: Field, p: seq<Byte>, v0: Value, t: seq<Byte>)
    requires f.ltype.String? && 0 < f.dataSize <= PB_SIZE_MAX && ValueOk(f, v0) && |p| <= |v0.buf|
    ensures var r := DecString(f, EncPiece(p) + t, v0);
            if |p| < |v0.buf| then r == Done(BufV(p + [0] + v0.buf[|p| + 1..]), t) else r.Failed?
  {
    Varint32RoundTrip(|p|, p + t);
    Assoc(EncVarint(|p|), p, t);
    SplitAt(p, t);
  }

  /** A string comes back exactly when it is terminated inside its buffer. */
  lemma StringRoundTrip(f: Field, v: Value, v0: Value, t: seq<Byte>)
    requires FieldOk(f) && f.ltype.String? && ValueOk(f, v) && ValueOk(f, v0)
    ensures EncValue(f, v).Wrote?
    ensures var r := DecString(f, EncValue(f, v).bytes + t, v0);
            && (r.Done? <==> Proper(f, v))
            && (r.Done? ==> r.rest == t && SameValue(f, v, r.v))
  {
    var p := CString(v.buf);
    assert TypeOk(f);
    StringDecode(f, p, v0, t);
    if |p| < |v.buf| {
      CStringPrefix(p, v0.buf[|p| + 1..]);
    }
  }

  lemma FixedLengthRoundTrip(f: Field, v: Value, v0: Value, t: seq<Byte>)
    requires f.ltype.FixedLengthBytes? && f.dataSize <= PB_SIZE_MAX && ValueOk(f, v) && ValueOk(f, v0)
    ensures DecFixedLength(f, EncPiece(v.buf) + t, v0) == Done(v, t)
  {
    var p := v.buf;
    Varint32RoundTrip(|p|, p + t);
    Assoc(EncVarint(|p|), p, t);
    SplitAt(p, t);
    if |p| == 0 {
      assert v == BufV(Zeros(0));
    }
  }

  lemma LeafRoundTrip(f: Field, v: Value, v0: Value, t: seq<Byte>)
    requires FieldOk(f) && IsLeaf(f) && ValueOk(f, v) && ValueOk(f, v0) && Proper(f, v)
    requires EncValue(f, v).Wrote?
    ensures var r := DecLeaf(f, EncValue(f, v).bytes + t, v0);
            r.Done? && r.rest == t && SameValue(f, v, r.v)
  {
    assert TypeOk(f);
    Pow2Values();
    if IsInt(f) {
      IntRoundTrip(f, v.i, t, v0);
    } else if f.ltype.Bytes? {
      BytesRoundTrip(f, v, v0, t);
    } else if f.ltype.String? {
      StringRoundTrip(f, v, v0, t);
    } else if f.ltype.FixedLengthBytes? {
      FixedLengthRoundTrip(f, v, v0, t);
    } else {
      WordRoundTrip(v.i, f.dataSize, t, v0);
    }
  }

  lemma {:induction false} ValueRoundTrip(f: Field, v: Value, v0: Value, t: seq<Byte>)
    requires FieldOk(f) && ValueOk(f, v) && ValueOk(f, v0) && Carried(f, v)
    requires f.htype.Repeated? || Cleared(f, v0)
    requires EncValue(f, v).Wrote? && Fits(f, v)
    ensures var r := DecValue(f, EncValue(f, v).bytes + t, v0);
            r.Ok? && r.rest == t && SameValue(f, v, r.out)
    decreases f, 0
  {
    assert TypeOk(f);
    if f.ltype.Submessage? {
      var sub := f.ltype.fields;
      var p := EncMessage(sub, v.msg).bytes;
      PieceRoundTrip(p, t);
      var m0 := if f.htype.Repeated? then Defaults(sub, v0.msg) else v0.msg;
      if f.htype.Repeated? {
        DefaultsCleared(sub, v0.msg);
      }
      var _ := MessageRoundTrip(sub, v.msg, m0);
    } else {
      LeafRoundTrip(f, v, v0, t);
    }
  }

  // ----- one record

  function Noting(fields: seq<Field>, st: State, i: nat, slot: Slot): (st': State)
    requires i < |fields| && MsgOk(fields, st.msg) && SlotOk(fields[i], slot)
    ensures MsgOk(fields, st'.msg)
  {
    State(Put(fields, st.msg, i, slot), if fields[i].htype.Required? then st.seen + {i} else st.seen)
  }

  /** A record that its field accepts is one turn of the loop. */
  lemma OneRecord(fields: seq<Field>, i: nat, wt: WireType, payload: seq<Byte>, t: seq<Byte>, st: State, slot: Slot)
    requires FieldsOk(fields) && i < |fields| && MsgOk(fields, st.msg) && !wt.WtInvalid?
    requires SlotOk(fields[i], slot)
    requires DecSlot(fields[i], wt, payload + t, st.msg.slots[i]) == Ok(slot, t)
    ensures DecLoop(fields, EncTag(wt, fields[i].tag) + payload + t, st) ==
              DecLoop(fields, t, Noting(fields, st, i, slot))
  {
    var s := EncTag(wt, fields[i].tag) + payload + t;
    assert FieldOk(fields[i]);
    TagRoundTrip(wt, fields[i].tag, payload + t);
    Assoc(EncTag(wt, fields[i].tag), payload, t);
    LookupFinds(fields, i, fields[i].tag);
    assert DecRecord(fields, s, st) == More(Noting(fields, st, i, slot), t);
  }

  // ----- one field of a message

  /** The fields before i have arrived; nothing of the others has. */
  predicate Arrived(fields: seq<Field>, m: Message, i: nat, st: State)
    requires FieldsOk(fields) && MsgOk(fields, m) && MsgOk(fields, st.msg) && i <= |fields|
  {
    && (forall j :: 0 <= j < i ==> FieldArrived(fields, m, j, st))
    && (forall j :: i <= j < |fields| ==> ClearedSlot(fields[j], st.msg.slots[j]))
    && (forall j :: 0 <= j < |fields| && fields[j].htype.Oneof? ==> SelectorArrives(m, st, Group(fields, j)))
  }

  predicate SelectorArrives(m: Message, st: State, group: nat) {
    Which(st.msg, group) == 0 || Which(st.msg, group) == Which(m, group)
  }

  predicate FieldArrived(fields: seq<Field>, m: Message, j: nat, st: State)
    requires FieldsOk(fields) && MsgOk(fields, m) && MsgOk(fields, st.msg) && j < |fields|
  {
    && SameSlot(fields[j], m.slots[j], st.msg.slots[j], Selected(fields, m, j))
    && (fields[j].htype.Required? ==> j in st.seen)
    && (Selected(fields, m, j) ==> Which(st.msg, Group(fields, j)) == fields[j].tag)
  }

  /** Storing field i keeps what has arrived and adds field i. */
  lemma NotingArrives(fields: seq<Field>, m: Message, i: nat, st: State, slot: Slot)
    requires FieldsOk(fields) && MsgOk(fields, m) && MsgOk(fields, st.msg) && i < |fields|
    requires Arrived(fields, m, i, st) && SlotOk(fields[i], slot)
    requires SameSlot(fields[i], m.slots[i], slot, Selected(fields, m, i))
    requires fields[i].htype.Oneof? ==> Selected(fields, m, i)
    ensures Arrived(fields, m, i + 1, Noting(fields, st, i, slot))
  {
    var st' := Noting(fields, st, i, slot);
    forall j | 0 <= j < i + 1 ensures FieldArrived(fields, m, j, st') {
      if j < i {
        assert FieldArrived(fields, m, j, st);
      }
    }
    forall j | 0 <= j < |fields| && fields[j].htype.Oneof? ensures SelectorArrives(m, st', Group(fields, j)) {
      assert SelectorArrives(m, st, Group(fields, j));
    }
  }

  /** A field that is not sent compares equal to the cleared slot. */
  lemma SkippedArrives(fields: seq<Field>, m: Message, i: nat, st: State)
    requires FieldsOk(fields) && MsgOk(fields, m) && MsgOk(fields, st.msg) && i < |fields|
    requires Arrived(fields, m, i, st)
    requires !fields[i].htype.Required? && !Selected(fields, m, i)
    requires SameSlot(fields[i], m.slots[i], st.msg.slots[i], false)
    ensures Arrived(fields, m, i + 1, st)
  {
    forall j | 0 <= j < i + 1 ensures FieldArrived(fields, m, j, st) {
      if j < i {
        assert FieldArrived(fields, m, j, st);
      }
    }
  }

  /** What decoding one tagged value does to field i's slot. */
  lemma TaggedRoundTrip(fields: seq<Field>, i: nat, v: Value, v0: Value, t: seq<Byte>, st: State, slot0: Slot)
      returns (v': Value)
    requires FieldsOk(fields) && i < |fields| && MsgOk(fields, st.msg) && !fields[i].htype.Repeated?
    requires ValueOk(fields[i], v) && ValueOk(fields[i], v0) && Carried(fields[i], v)
    requires slot0 == st.msg.slots[i] && (slot0 == One(v0) || slot0 == Opt(false, v0))
    requires ClearedSlot(fields[i], slot0)
    requires EncTagged(fields[i], v).Wrote? && Fits(fields[i], v)
    decreases fields, 0, 0
    ensures ValueOk(fields[i], v') && SameValue(fields[i], v, v')
    ensures var slot := if slot0.One? then One(v') else Opt(true, v');
            DecLoop(fields, EncTagged(fields[i], v).bytes + t, st) == DecLoop(fields, t, Noting(fields, st, i, slot))
  {
    var f := fields[i];
    assert FieldOk(f) && TypeOk(f);
    var start := if slot0.One? then UnionStart(f, v0) else v0;
    if f.htype.Oneof? {
      if f.ltype.Submessage? {
        DefaultsCleared(f.ltype.fields, ZeroMessage(f.ltype.fields));
      }
    }
    assert Cleared(f, start);
    var p := EncValue(f, v).bytes;
    ValueRoundTrip(f, v, start, t);
    v' := DecValue(f, p + t, start).out;
    OneRecord(fields, i, FieldWireType(f), p, t, st, if slot0.One? then One(v') else Opt(true, v'));
  }

  /** Field i of m, read back into a state that has the fields before it. */
  lemma {:induction false} FieldRoundTrip(fields: seq<Field>, m: Message, i: nat, t: seq<Byte>, st: State)
      returns (st': State)
    requires FieldsOk(fields) && MsgOk(fields, m) && MsgOk(fields, st.msg) && i < |fields|
    requires CarriedSlot(fields[i], m.slots[i], Selected(fields, m, i))
    requires FitsSlot(fields[i], m.slots[i], Selected(fields, m, i))
    requires Arrived(fields, m, i, st) && EncSlot(fields[i], m.slots[i], Selected(fields, m, i)).Wrote?
    ensures MsgOk(fields, st'.msg) && Arrived(fields, m, i + 1, st')
    ensures DecLoop(fields, EncSlot(fields[i], m.slots[i], Selected(fields, m, i)).bytes + t, st) ==
              DecLoop(fields, t, st')
    decreases fields, 2
  {
    var f, slot0 := fields[i], st.msg.slots[i];
    assert FieldOk(f) && SlotOk(f, m.slots[i]) && SlotOk(f, slot0);
    assert ClearedSlot(f, slot0);
    assert TypeOk(f);
    match m.slots[i]
    case One(v) =>
      if (f.htype.Oneof? && !Selected(fields, m, i)) || Unsent(f, v) {
        NilLeft(t);
        if f.Singular() {
          SameJoin(f, v, slot0.v, Initial(f));
        }
        SkippedArrives(fields, m, i, st);
        st' := st;
      } else {
        var v' := TaggedRoundTrip(fields, i, v, slot0.v, t, st, slot0);
        NotingArrives(fields, m, i, st, One(v'));
        st' := Noting(fields, st, i, One(v'));
      }
    case Opt(has, v) =>
      if has {
        var v' := TaggedRoundTrip(fields, i, v, slot0.v, t, st, slot0);
        NotingArrives(fields, m, i, st, Opt(true, v'));
        st' := Noting(fields, st, i, Opt(true, v'));
      } else {
        NilLeft(t);
        SkippedArrives(fields, m, i, st);
        st' := st;
      }
    case Many(count, items) =>
      st' := ArrayRoundTrip(fields, m, i, t, st);
  }

  // ----- arrays

  predicate SameItems(f: Field, a: seq<Value>, b: seq<Value>, n: nat)
    requires FieldOk(f) && n <= |a| == |b|
    requires forall j :: 0 <= j < |a| ==> ValueOk(f, a[j]) && ValueOk(f, b[j])
  {
    forall j :: 0 <= j < n ==> SameValue(f, a[j], b[j])
  }

  lemma {:induction false} PackedRoundTrip(f: Field, items: seq<Value>, k: nat, count: nat, dest: seq<Value>)
      returns (dest': seq<Value>)
    requires FieldOk(f) && f.ltype.Packable() && |items| == |dest| == f.arraySize && k <= count <= f.arraySize
    requires forall j :: 0 <= j < |items| ==> ValueOk(f, items[j]) && ValueOk(f, dest[j])
    requires SameItems(f, items, dest, k)
    requires EncItems(f, items, k, count).Wrote?
    ensures |dest'| == f.arraySize && (forall j :: 0 <= j < |dest'| ==> ValueOk(f, dest'[j]))
    ensures SameItems(f, items, dest', count)
    ensures DecElements(f, EncItems(f, items, k, count).bytes, k, dest) == Elements(count, dest', 0, true)
    decreases count - k
  {
    if k == count {
      dest' := dest;
    } else {
      var t := EncItems(f, items, k + 1, count).bytes;
      assert TypeOk(f);
      LeafRoundTrip(f, items[k], dest[k], t);
      var r := DecLeaf(f, EncValue(f, items[k]).bytes + t, dest[k]);
      dest' := PackedRoundTrip(f, items, k + 1, count, dest[k := r.v]);
    }
  }

  predicate AllCarried(f: Field, items: seq<Value>, n: nat)
    requires FieldOk(f) && ItemsOk(f, items)
  {
    forall j :: 0 <= j < n && j < |items| ==> Carried(f, items[j])
  }

  predicate AllFit(f: Field, items: seq<Value>, n: nat)
    requires FieldOk(f) && ItemsOk(f, items)
  {
    forall j :: 0 <= j < n && j < |items| ==> Fits(f, items[j])
  }

  /** Field i holds the first n of the items, and nothing else of it has arrived. */
  predicate Holds(fields: seq<Field>, i: nat, items: seq<Value>, n: nat, slot: Slot)
    requires FieldsOk(fields) && i < |fields| && ItemsOk(fields[i], items)
  {
    && SlotOk(fields[i], slot) && fields[i].htype.Repeated? && |items| == fields[i].arraySize
    && slot.count == n <= |items|
    && SameItems(fields[i], items, slot.items, n)
  }

  /** Unpacked items, one record each. */
  lemma {:induction false} ItemsRoundTrip(fields: seq<Field>, i: nat, items: seq<Value>, k: nat, count: nat,
                                          t: seq<Byte>, st: State)
      returns (st': State)
    requires FieldsOk(fields) && i < |fields| && MsgOk(fields, st.msg) && !fields[i].ltype.Packable()
    requires k <= count <= |items| && ItemsOk(fields[i], items) && AllCarried(fields[i], items, count)
    requires Holds(fields, i, items, k, st.msg.slots[i])
    requires AllFit(fields[i], items, count)
    requires EncTaggedItems(fields[i], items, k, count).Wrote?
    ensures MsgOk(fields, st'.msg) && Holds(fields, i, items, count, st'.msg.slots[i]) && OnlySlot(fields, st, st', i)
    ensures DecLoop(fields, EncTaggedItems(fields[i], items, k, count).bytes + t, st) == DecLoop(fields, t, st')
    decreases fields, 0, 1 + count - k
  {
    hide Carried, SameValue, Fits, DecLoop;
    if k == count {
      st' := st;
      NilLeft(t);
    } else {
      var p, q := EncTagged(fields[i], items[k]).bytes, EncTaggedItems(fields[i], items, k + 1, count).bytes;
      var st1 := ItemRoundTrip(fields, i, items, k, q + t, st);
      Assoc(p, q, t);
      st' := ItemsRoundTrip(fields, i, items, k + 1, count, t, st1);
    }
  }

  /** The states differ in slot i at most. */
  predicate OnlySlot(fields: seq<Field>, st: State, st': State, i: nat)
    requires i < |fields| && MsgOk(fields, st.msg) && MsgOk(fields, st'.msg)
  {
    && st'.seen == st.seen && st'.msg.which == st.msg.which
    && forall j :: 0 <= j < |fields| && j != i ==> st'.msg.slots[j] == st.msg.slots[j]
  }

  lemma ItemRoundTrip(fields: seq<Field>, i: nat, items: seq<Value>, k: nat, t: seq<Byte>, st: State)
      returns (st': State)
    requires FieldsOk(fields) && i < |fields| && MsgOk(fields, st.msg) && !fields[i].ltype.Packable()
    requires k < |items| && ItemsOk(fields[i], items) && Carried(fields[i], items[k])
    requires Holds(fields, i, items, k, st.msg.slots[i])
    requires EncTagged(fields[i], items[k]).Wrote? && Fits(fields[i], items[k])
    ensures MsgOk(fields, st'.msg) && Holds(fields, i, items, k + 1, st'.msg.slots[i]) && OnlySlot(fields, st, st', i)
    ensures DecLoop(fields, EncTagged(fields[i], items[k]).bytes + t, st) == DecLoop(fields, t, st')
    decreases fields, 0, 0
  {
    var f, slot0 := fields[i], st.msg.slots[i];
    assert FieldOk(f);
    var p := EncValue(f, items[k]).bytes;
    ValueRoundTrip(f, items[k], slot0.items[k], t);
    var v := DecValue(f, p + t, slot0.items[k]).out;
    var slot := Many(k + 1, slot0.items[k := v]);
    OneRecord(fields, i, FieldWireType(f), p, t, st, slot);
    st' := Noting(fields, st, i, slot);
  }

  lemma {:induction false} ArrayRoundTrip(fields: seq<Field>, m: Message, i: nat, t: seq<Byte>, st: State)
      returns (st': State)
    requires FieldsOk(fields) && MsgOk(fields, m) && MsgOk(fields, st.msg) && i < |fields| && fields[i].htype.Repeated?
    requires CarriedSlot(fields[i], m.slots[i], false) && FitsSlot(fields[i], m.slots[i], false)
    requires Arrived(fields, m, i, st) && EncSlot(fields[i], m.slots[i], false).Wrote?
    ensures MsgOk(fields, st'.msg) && Arrived(fields, m, i + 1, st')
    ensures DecLoop(fields, EncSlot(fields[i], m.slots[i], false).bytes + t, st) == DecLoop(fields, t, st')
    decreases fields, 1
  {
    var f, slot0 := fields[i], st.msg.slots[i];
    assert FieldOk(f) && SlotOk(f, m.slots[i]) && SlotOk(f, slot0);
    assert ClearedSlot(f, slot0);
    var Many(count, items) := m.slots[i];
    if count == 0 {
      NilLeft(t);
      st' := st;
    } else if f.ltype.Packable() {
      var p := EncItems(f, items, 0, count).bytes;
      var dest := PackedRoundTrip(f, items, 0, count, slot0.items);
      PieceRoundTrip(p, t);
      OneRecord(fields, i, WtString, EncPiece(p), t, st, Many(count, dest));
      st' := Noting(fields, st, i, Many(count, dest));
    } else {
      st' := ItemsRoundTrip(fields, i, items, 0, count, t, st);
    }
    ArrayArrives(fields, m, i, st, st');
  }

  lemma ArrayArrives(fields: seq<Field>, m: Message, i: nat, st: State, st': State)
    requires FieldsOk(fields) && MsgOk(fields, m) && MsgOk(fields, st.msg) && MsgOk(fields, st'.msg)
    requires i < |fields| && fields[i].htype.Repeated? && Arrived(fields, m, i, st) && OnlySlot(fields, st, st', i)
    requires SameSlot(fields[i], m.slots[i], st'.msg.slots[i], false)
    ensures Arrived(fields, m, i + 1, st')
  {
    forall j | 0 <= j < i + 1 ensures FieldArrived(fields, m, j, st') {
      if j < i {
        assert FieldArrived(fields, m, j, st);
      }
    }
    forall j | 0 <= j < |fields| && fields[j].htype.Oneof? ensures SelectorArrives(m, st', Group(fields, j)) {
      assert SelectorArrives(m, st, Group(fields, j));
    }
  }

  // ----- whole messages

  /** The fields from i to n, when the encoding carries them. */
  lemma {:induction false} FieldsRoundTrip(fields: seq<Field>, m: Message, i: nat, n: nat, st: State)
      returns (st': State)
    requires FieldsOk(fields) && MsgOk(fields, m) && MsgOk(fields, st.msg) && i <= n <= |fields|
    requires forall j :: i <= j < n ==> CarriedSlot(fields[j], m.slots[j], Selected(fields, m, j))
    requires FitsMessage(fields, m) && Arrived(fields, m, i, st) && EncFrom(fields, m, i).Wrote?
    ensures MsgOk(fields, st'.msg) && Arrived(fields, m, n, st') && EncFrom(fields, m, n).Wrote?
    ensures DecLoop(fields, EncFrom(fields, m, i).bytes, st) == DecLoop(fields, EncFrom(fields, m, n).bytes, st')
    decreases fields, 3, |fields| - i
  {
    if i == n {
      st' := st;
    } else {
      var st1 := FieldRoundTrip(fields, m, i, EncFrom(fields, m, i + 1).bytes, st);
      st' := FieldsRoundTrip(fields, m, i + 1, n, st1);
    }
  }

  /** pb_decode_noinit of pb_encode's bytes, into a struct where nothing is present: it succeeds, reads
    * everything and gives the same message. */
  lemma {:induction false} MessageRoundTrip(fields: seq<Field>, m: Message, m0: Message) returns (m': Message)
    requires FieldsOk(fields) && MsgOk(fields, m) && MsgOk(fields, m0)
    requires CarriedMessage(fields, m) && FitsMessage(fields, m) && ClearedMessage(fields, m0)
    requires EncMessage(fields, m).Wrote?
    ensures MsgOk(fields, m') && SameMessage(fields, m, m')
    ensures DecMessage(fields, EncMessage(fields, m).bytes, m0) == Ok(m', [])
    decreases fields, 4
  {
    var st := FieldsRoundTrip(fields, m, 0, |fields|, State(m0, {}));
    m' := st.msg;
    forall i | 0 <= i < |fields| ensures SameSlot(fields[i], m.slots[i], m'.slots[i], Selected(fields, m, i)) {
      assert FieldArrived(fields, m, i, st);
    }
    forall i | 0 <= i < |fields| && fields[i].htype.Oneof?
      ensures Which(m, Group(fields, i)) == Which(m', Group(fields, i))
    {
      var g := Group(fields, i);
      assert SelectorArrives(m, st, g) && SelectorOk(fields, m, i);
      if Which(m, g) != 0 {
        var j :| 0 <= j < |fields| && IsMember(fields, j, g, Which(m, g));
        assert FieldArrived(fields, m, j, st);
      }
    }
    assert AllSeen(fields, st.seen) by {
      forall i | 0 <= i < |fields| && fields[i].htype.Required? ensures i in st.seen {
        assert FieldArrived(fields, m, i, st);
      }
    }
  }

  /** The round trip of pb_encode and pb_decode, whatever the destination held before. */
  lemma EncodeThenDecode(fields: seq<Field>, m: Message, dest: Message)
    requires FieldsOk(fields) && MsgOk(fields, m) && MsgOk(fields, dest)
    requires CarriedMessage(fields, m) && FitsMessage(fields, m)
    ensures EncMessage(fields, m).Wrote?
    ensures var r := DecInit(fields, EncMessage(fields, m).bytes, dest);
            r.Ok? && r.rest == [] && SameMessage(fields, m, r.out)
  {
    CarriedMessageEncodes(fields, m);
    DefaultsCleared(fields, dest);
    var _ := MessageRoundTrip(fields, m, Defaults(fields, dest));
  }
}
