/** Exactly which messages survive encoding and decoding: those that the encoding carries in full. */
module Survival {
  import opened Bits
  import opened Wire
  import opened Descriptors
  import opened DecodeSpec
  import opened EncodeSpec
  import opened Same
  import opened Records
  import opened RoundTrip
  import opened Evolution
  import opened Bounds

  // ----- one encoded record in the decoding loop

  /** Decoding s fails, or it comes to decoding t from st', where something holds. */
  predicate Leads(fields: seq<Field>, s: seq<Byte>, t: seq<Byte>, st: State, st': State, holds: bool)
    requires FieldsOk(fields) && MsgOk(fields, st.msg)
  {
    MsgOk(fields, st'.msg) &&
    (DecLoop(fields, s, st).Err? || (DecLoop(fields, s, st) == DecLoop(fields, t, st') && holds))
  }

  lemma LeadsOn(fields: seq<Field>, s: seq<Byte>, t: seq<Byte>, u: seq<Byte>, st: State, st1: State, st2: State,
                a: bool, b: bool, c: bool)
    requires FieldsOk(fields) && MsgOk(fields, st.msg) && MsgOk(fields, st1.msg)
    requires Leads(fields, s, t, st, st1, a) && Leads(fields, t, u, st1, st2, b) && (a && b ==> c)
    ensures Leads(fields, s, u, st, st2, c)
  {
    hide DecLoop;
  }

  lemma LeadsThere(fields: seq<Field>, s: seq<Byte>, t: seq<Byte>, st: State, st': State)
    requires FieldsOk(fields) && MsgOk(fields, st.msg) && MsgOk(fields, st'.msg)
    requires DecLoop(fields, s, st) == DecLoop(fields, t, st')
    ensures Leads(fields, s, t, st, st', true)
  {
  }

  /** The loop reads the whole record and nothing else, or fails in it. */
  lemma RecordStep(fields: seq<Field>, i: nat, wt: WireType, payload: seq<Byte>, t: seq<Byte>, st: State)
    requires FieldsOk(fields) && i < |fields| && MsgOk(fields, st.msg) && !wt.WtInvalid?
    requires Extent(fields[i], wt, payload + t) == Rest(t)
    ensures var s, d := EncTag(wt, fields[i].tag) + payload + t, DecSlot(fields[i], wt, payload + t, st.msg.slots[i]);
            if d.Ok? then d.rest == t && DecLoop(fields, s, st) == DecLoop(fields, t, Noting(fields, st, i, d.out))
            else DecLoop(fields, s, st).Err?
  {
    var f, slot := fields[i], st.msg.slots[i];
    assert FieldOk(f) && SlotOk(f, slot);
    SlotLocal(f, wt, payload + t, [], slot);
    var d := DecSlot(f, wt, payload + t, slot);
    hide DecSlot, Extent, FieldOk;
    if d.Ok? {
      OneRecord(fields, i, wt, payload, t, st, d.out);
    } else {
      TagRoundTrip(wt, f.tag, payload + t);
      Assoc(EncTag(wt, f.tag), payload, t);
      LookupFinds(fields, i, fields[i].tag);
    }
  }

  /** The slot keeps the items it had. */
  predicate Extends(a: Slot, b: Slot) {
    a.Many? ==>
        && b.Many? && a.count <= b.count && |b.items| == |a.items|
        && forall j :: 0 <= j < a.count && j < |a.items| ==> b.items[j] == a.items[j]
  }

  /** Only slot i has changed, and an array there has only grown. */
  predicate Advanced(fields: seq<Field>, a: State, b: State, i: nat)
    requires i < |fields| && MsgOk(fields, a.msg)
  {
    && MsgOk(fields, b.msg)
    && Extends(a.msg.slots[i], b.msg.slots[i])
    && forall j :: 0 <= j < |fields| && j != i ==> b.msg.slots[j] == a.msg.slots[j]
  }

  lemma SlotExtends(f: Field, wt: WireType, s: seq<Byte>, slot: Slot)
    requires FieldOk(f) && SlotOk(f, slot) && DecSlot(f, wt, s, slot).Ok? && (f.ltype.Packable() ==> !f.htype.Repeated?)
    ensures Extends(slot, DecSlot(f, wt, s, slot).out)
  {
    hide FieldOk, ValueOk, DecValue;
  }

  lemma NotingAdvances(fields: seq<Field>, st: State, i: nat, slot: Slot)
    requires i < |fields| && MsgOk(fields, st.msg) && SlotOk(fields[i], slot) && Extends(st.msg.slots[i], slot)
    ensures Advanced(fields, st, Noting(fields, st, i, slot), i)
  {
    hide SlotOk, Extends;
  }

  lemma StaysAdvanced(fields: seq<Field>, st: State, i: nat)
    requires i < |fields| && MsgOk(fields, st.msg)
    ensures Advanced(fields, st, st, i)
  {
    hide SlotOk;
  }

  lemma TaggedBytes(f: Field, v: Value)
    requires FieldOk(f) && ValueOk(f, v) && EncTagged(f, v).Wrote?
    ensures EncValue(f, v).Wrote? && EncTagged(f, v).bytes == EncTag(FieldWireType(f), f.tag) + EncValue(f, v).bytes
    ensures !FieldWireType(f).WtInvalid?
  {
    hide EncValue, LeafExtent, FieldOk, ValueOk;
  }

  /** A record of field i with an encoded value. */
  lemma TaggedStep(fields: seq<Field>, i: nat, v: Value, t: seq<Byte>, st: State) returns (st': State)
    requires FieldsOk(fields) && i < |fields| && MsgOk(fields, st.msg) && ValueOk(fields[i], v)
    requires Fits(fields[i], v) && EncTagged(fields[i], v).Wrote?
    requires (fields[i].ltype.Packable() ==> !fields[i].htype.Repeated?)
    ensures MsgOk(fields, st'.msg) && Advanced(fields, st, st', i)
    ensures Leads(fields, EncTagged(fields[i], v).bytes + t, t, st, st', true)
  {
    var f, p, wt := fields[i], EncValue(fields[i], v).bytes, FieldWireType(fields[i]);
    assert FieldOk(f) && SlotOk(f, st.msg.slots[i]);
    hide DecLoop, DecSlot, EncTagged, EncValue, FieldOk, ValueOk, SlotOk, Fits, Advanced, Noting;
    TaggedBytes(f, v);
    ValueExtent(f, v, t);
    RecordStep(fields, i, wt, p, t, st);
    var d := DecSlot(f, wt, p + t, st.msg.slots[i]);
    if d.Ok? {
      SlotExtends(f, wt, p + t, st.msg.slots[i]);
      NotingAdvances(fields, st, i, d.out);
      st' := Noting(fields, st, i, d.out);
    } else {
      StaysAdvanced(fields, st, i);
      st' := st;
    }
  }

  /** A packed record of field i. */
  lemma PackedStep(fields: seq<Field>, i: nat, k: nat, p: seq<Byte>, t: seq<Byte>, st: State) returns (st': State)
    requires FieldsOk(fields) && i < |fields| && MsgOk(fields, st.msg) && |p| < 0x1_0000_0000
    requires fields[i].ltype.Packable() && fields[i].htype.Repeated? && k < |fields| && k != i
    ensures MsgOk(fields, st'.msg) && st'.msg.slots[k] == st.msg.slots[k]
    ensures Leads(fields, EncTag(WtString, fields[i].tag) + EncPiece(p) + t, t, st, st', true)
  {
    PieceExtent(p, t);
    RecordStep(fields, i, WtString, EncPiece(p), t, st);
    var d := DecSlot(fields[i], WtString, EncPiece(p) + t, st.msg.slots[i]);
    st' := if d.Ok? then Noting(fields, st, i, d.out) else st;
  }

  lemma {:induction false} ItemsStep(fields: seq<Field>, i: nat, items: seq<Value>, k: nat, count: nat, t: seq<Byte>,
                                     st: State)
      returns (st': State)
    requires FieldsOk(fields) && i < |fields| && MsgOk(fields, st.msg) && !fields[i].ltype.Packable()
    requires k <= count <= |items| && ItemsOk(fields[i], items) && AllFit(fields[i], items, count)
    requires EncTaggedItems(fields[i], items, k, count).Wrote?
    ensures MsgOk(fields, st'.msg) && Advanced(fields, st, st', i)
    ensures Leads(fields, EncTaggedItems(fields[i], items, k, count).bytes + t, t, st, st', true)
    decreases count - k
  {
    if k == count {
      NilLeft(t);
      LeadsThere(fields, [] + t, t, st, st);
      StaysAdvanced(fields, st, i);
      st' := st;
    } else {
      assert FieldOk(fields[i]) && Fits(fields[i], items[k]);
      ItemsBytes(fields[i], items, k, count);
      hide Leads, Fits, EncTagged, EncTaggedItems, FieldOk, ValueOk, SlotOk, Advanced;
      var p, q := EncTagged(fields[i], items[k]).bytes, EncTaggedItems(fields[i], items, k + 1, count).bytes;
      var st1 := TaggedStep(fields, i, items[k], q + t, st);
      st' := ItemsStep(fields, i, items, k + 1, count, t, st1);
      LeadsOn(fields, p + (q + t), q + t, t, st, st1, st', true, true, true);
      AdvancedOn(fields, st, st1, st', i);
      Assoc(p, q, t);
    }
  }

  lemma AdvancedOn(fields: seq<Field>, a: State, b: State, c: State, i: nat)
    requires i < |fields| && MsgOk(fields, a.msg) && MsgOk(fields, b.msg) && Advanced(fields, a, b, i)
    requires Advanced(fields, b, c, i)
    ensures Advanced(fields, a, c, i)
  {
    hide SlotOk;
  }

  /** The bytes of field i leave slot k alone. */
  lemma SlotStepsOver(fields: seq<Field>, m: Message, i: nat, k: nat, t: seq<Byte>, st: State) returns (st': State)
    requires FieldsOk(fields) && MsgOk(fields, m) && MsgOk(fields, st.msg) && i < |fields| && k < |fields| && k != i
    requires FitsSlot(fields[i], m.slots[i], Selected(fields, m, i))
    requires EncSlot(fields[i], m.slots[i], Selected(fields, m, i)).Wrote?
    ensures MsgOk(fields, st'.msg) && st'.msg.slots[k] == st.msg.slots[k]
    ensures Leads(fields, EncSlot(fields[i], m.slots[i], Selected(fields, m, i)).bytes + t, t, st, st', true)
  {
    var f, slot, selected := fields[i], m.slots[i], Selected(fields, m, i);
    assert FieldOk(f) && SlotOk(f, slot);
    hide DecLoop, Selected;
    st' := st;
    if EncSlot(f, slot, selected) == Wrote([]) {
      NilLeft(t);
      LeadsThere(fields, [] + t, t, st, st);
    } else {
      match slot
      case One(v) => st' := TaggedStep(fields, i, v, t, st);
      case Opt(_, v) => st' := TaggedStep(fields, i, v, t, st);
      case Many(count, items) =>
        if f.ltype.Packable() {
          st' := PackedStep(fields, i, k, EncItems(f, items, 0, count).bytes, t, st);
        } else {
          st' := ItemsStep(fields, i, items, 0, count, t, st);
        }
    }
  }

  /** Later fields never touch slot k. */
  lemma {:induction false} RestStepsOver(fields: seq<Field>, m: Message, i: nat, k: nat, st: State)
    requires FieldsOk(fields) && MsgOk(fields, m) && MsgOk(fields, st.msg) && k < i <= |fields|
    requires FitsMessage(fields, m) && EncFrom(fields, m, i).Wrote?
    ensures var r := DecLoop(fields, EncFrom(fields, m, i).bytes, st);
            r.Ok? ==> r.out.msg.slots[k] == st.msg.slots[k]
    decreases |fields| - i
  {
    if i < |fields| {
      assert FitsSlot(fields[i], m.slots[i], Selected(fields, m, i));
      var e := EncFrom(fields, m, i + 1);
      FromBytes(fields, m, i);
      hide FieldsOk, FieldOk, EncSlot, EncFrom, FitsSlot, FitsMessage, SlotOk, DecLoop, Selected;
      var st' := SlotStepsOver(fields, m, i, k, e.bytes, st);
      RestStepsOver(fields, m, i + 1, k, st');
    }
  }

  lemma FromBytes(fields: seq<Field>, m: Message, i: nat)
    requires FieldsOk(fields) && MsgOk(fields, m) && i < |fields| && EncFrom(fields, m, i).Wrote?
    ensures var e := EncSlot(fields[i], m.slots[i], Selected(fields, m, i));
            && e.Wrote? && EncFrom(fields, m, i + 1).Wrote?
            && EncFrom(fields, m, i).bytes == e.bytes + EncFrom(fields, m, i + 1).bytes
  {
    hide EncSlot, Selected;
  }

  // ----- what is not carried does not arrive

  lemma {:induction false} ValueLost(f: Field, v: Value, v0: Value, t: seq<Byte>)
    requires FieldOk(f) && ValueOk(f, v) && ValueOk(f, v0) && !Carried(f, v)
    requires f.htype.Repeated? || Cleared(f, v0)
    requires EncValue(f, v).Wrote? && Fits(f, v)
    ensures var r := DecValue(f, EncValue(f, v).bytes + t, v0); r.Ok? ==> !SameValue(f, v, r.out)
    decreases f, 0
  {
    assert TypeOk(f);
    if f.ltype.Submessage? {
      var sub := f.ltype.fields;
      PieceRoundTrip(EncMessage(sub, v.msg).bytes, t);
      DefaultsCleared(sub, v0.msg);
      MessageLost(sub, v.msg, if f.htype.Repeated? then Defaults(sub, v0.msg) else v0.msg);
    } else if f.ltype.String? {
      StringRoundTrip(f, v, v0, t);
    }
  }

  /** The record of a value that is not carried. */
  lemma TaggedLost(fields: seq<Field>, i: nat, v: Value, t: seq<Byte>, st: State, slot0: Slot) returns (st': State)
    requires FieldsOk(fields) && i < |fields| && MsgOk(fields, st.msg) && !fields[i].htype.Repeated?
    requires ValueOk(fields[i], v) && !Carried(fields[i], v) && Fits(fields[i], v) && EncTagged(fields[i], v).Wrote?
    requires slot0 == st.msg.slots[i] && SlotOk(fields[i], slot0) && ClearedSlot(fields[i], slot0)
    ensures MsgOk(fields, st'.msg) && st'.msg.slots[i].Many? == false && ValueOk(fields[i], st'.msg.slots[i].v)
    ensures var s := EncTagged(fields[i], v).bytes + t;
            DecLoop(fields, s, st).Err? ||
            (DecLoop(fields, s, st) == DecLoop(fields, t, st') && !SameValue(fields[i], v, st'.msg.slots[i].v))
    decreases fields, 0, 0
  {
    var f, p, wt := fields[i], EncValue(fields[i], v).bytes, FieldWireType(fields[i]);
    assert FieldOk(f) && TypeOk(f);
    var start := if slot0.One? then UnionStart(f, slot0.v) else slot0.v;
    if f.htype.Oneof? && f.ltype.Submessage? {
      DefaultsCleared(f.ltype.fields, ZeroMessage(f.ltype.fields));
    }
    assert Cleared(f, start);
    ValueExtent(f, v, t);
    RecordStep(fields, i, wt, p, t, st);
    ValueLost(f, v, start, t);
    var d := DecSlot(f, wt, p + t, slot0);
    st' := if d.Ok? then Noting(fields, st, i, d.out) else st;
  }

  /** One item that is not carried. */
  lemma ItemLost(fields: seq<Field>, i: nat, items: seq<Value>, k: nat, t: seq<Byte>, st: State) returns (st': State)
    requires FieldsOk(fields) && i < |fields| && MsgOk(fields, st.msg) && !fields[i].ltype.Packable()
    requires k < |items| && ItemsOk(fields[i], items) && Fits(fields[i], items[k]) && !Carried(fields[i], items[k])
    requires Holds(fields, i, items, k, st.msg.slots[i])
    requires EncTagged(fields[i], items[k]).Wrote?
    ensures MsgOk(fields, st'.msg)
    ensures Leads(fields, EncTagged(fields[i], items[k]).bytes + t, t, st, st',
                  ItemDiffers(fields, i, items, k, st'.msg))
    decreases fields, 0, 0
  {
    hide DecLoop, DecSlot, DecValue, EncTagged, EncValue, FieldsOk, MsgOk, FieldOk, ValueOk, SlotOk, Fits, Carried,
        SameValue,
         Holds, ItemDiffers, Noting;
    NextItem(fields, i, items, k, st);
    var f, slot0 := fields[i], st.msg.slots[i];
    TaggedBytes(f, items[k]);
    var p, wt := EncValue(f, items[k]).bytes, FieldWireType(f);
    ValueExtent(f, items[k], t);
    ItemSlot(f, wt, p + t, slot0);
    var r := DecValue(f, p + t, slot0.items[k]);
    ValueLost(f, items[k], slot0.items[k], t);
    ItemTaken(fields, i, items, k, st, r.out);
    st' := Noting(fields, st, i, Many(k + 1, slot0.items[k := r.out]));
    LeadsOrFails(fields, i, wt, p, t, st, Many(k + 1, slot0.items[k := r.out]), r.Ok?,
                 ItemDiffers(fields, i, items, k, st'.msg));
  }

  lemma NextItem(fields: seq<Field>, i: nat, items: seq<Value>, k: nat, st: State)
    requires FieldsOk(fields) && i < |fields| && MsgOk(fields, st.msg) && !fields[i].ltype.Packable()
    requires k < |items| && ItemsOk(fields[i], items) && Holds(fields, i, items, k, st.msg.slots[i])
    ensures |st.msg.slots| == |fields|
    ensures var f, slot := fields[i], st.msg.slots[i];
            && FieldOk(f) && SlotOk(f, slot) && f.htype.Repeated? && ValueOk(f, items[k])
            && slot.Many? && slot.count == k < |slot.items| == f.arraySize && ValueOk(f, slot.items[k])
  {
    hide SameValue;
  }

  /** The record of field i whose slot it turns into another, or else fails. */
  lemma LeadsOrFails(fields: seq<Field>, i: nat, wt: WireType, p: seq<Byte>, t: seq<Byte>, st: State, slot: Slot,
                     ok: bool, differs: bool)
    requires FieldsOk(fields) && i < |fields| && MsgOk(fields, st.msg) && !wt.WtInvalid? && SlotOk(fields[i], slot)
    requires !fields[i].ltype.Packable() && LeafExtent(fields[i], p + t) == Rest(t)
    requires FieldOk(fields[i]) && SlotOk(fields[i], st.msg.slots[i])
    requires var d := DecSlot(fields[i], wt, p + t, st.msg.slots[i]);
             (d.Ok? <==> ok) && (ok ==> d.out == slot && differs)
    ensures MsgOk(fields, Noting(fields, st, i, slot).msg)
    ensures Leads(fields, EncTag(wt, fields[i].tag) + p + t, t, st, Noting(fields, st, i, slot), differs)
  {
    RecordStep(fields, i, wt, p, t, st);
    hide DecSlot, LeafExtent, DecLoop, EncTag, FieldOk, SlotOk, FieldsOk;
  }

  /** Storing one more item. */
  lemma ItemTaken(fields: seq<Field>, i: nat, items: seq<Value>, k: nat, st: State, v: Value)
    requires FieldsOk(fields) && i < |fields| && MsgOk(fields, st.msg) && k < |items| && ItemsOk(fields[i], items)
    requires Holds(fields, i, items, k, st.msg.slots[i]) && ValueOk(fields[i], v)
    ensures var slot := Many(k + 1, st.msg.slots[i].items[k := v]);
            && SlotOk(fields[i], slot) && FieldOk(fields[i])
            && (!SameValue(fields[i], items[k], v) ==>
                ItemDiffers(fields, i, items, k, Noting(fields, st, i, slot).msg))
  {
    assert FieldOk(fields[i]);
    hide SameValue, FieldOk, ValueOk;
  }

  lemma ItemSlot(f: Field, wt: WireType, s: seq<Byte>, slot: Slot)
    requires FieldOk(f) && SlotOk(f, slot) && slot.Many? && !f.ltype.Packable() && slot.count < f.arraySize
    ensures var d, r := DecSlot(f, wt, s, slot), DecValue(f, s, slot.items[slot.count]);
            (d.Ok? <==> r.Ok?) && (d.Ok? ==> d.out == Many(slot.count + 1, slot.items[slot.count := r.out]))
  {
    hide DecValue, FieldOk, ValueOk;
  }

  /** Field i holds an array with at least n items. */
  predicate Holding(fields: seq<Field>, i: nat, items: seq<Value>, n: nat, m: Message)
    requires i < |fields|
  {
    && MsgOk(fields, m) && m.slots[i].Many? && |m.slots[i].items| == |items| && n <= m.slots[i].count
    && ItemsOk(fields[i], m.slots[i].items)
  }

  lemma HoldingLess(fields: seq<Field>, i: nat, items: seq<Value>, k: nat, n: nat, m: Message)
    requires i < |fields| && n <= k && Holding(fields, i, items, k, m)
    ensures Holding(fields, i, items, n, m)
  {
  }

  /** An array that has only grown still holds its items. */
  lemma AdvancedHolds(fields: seq<Field>, i: nat, items: seq<Value>, k: nat, a: State, b: State)
    requires i < |fields| && k < |items| && Holding(fields, i, items, k + 1, a.msg) && Advanced(fields, a, b, i)
    ensures Holding(fields, i, items, k, b.msg) && b.msg.slots[i].items[k] == a.msg.slots[i].items[k]
  {
    assert SlotOk(fields[i], b.msg.slots[i]);
    hide ValueOk;
  }

  predicate ItemDiffers(fields: seq<Field>, i: nat, items: seq<Value>, k: nat, m: Message)
    requires i < |fields|
  {
    && FieldOk(fields[i]) && ItemsOk(fields[i], items) && k < |items| && Holding(fields, i, items, k + 1, m)
    && !SameValue(fields[i], items[k], m.slots[i].items[k])
  }

  /** Field i holds an array in which some item differs. */
  predicate Differs(fields: seq<Field>, i: nat, items: seq<Value>, count: nat, m: Message)
    requires i < |fields|
  {
    && FieldOk(fields[i]) && ItemsOk(fields[i], items) && Holding(fields, i, items, 0, m)
    && exists j :: 0 <= j < count && j < |items| && !SameValue(fields[i], items[j], m.slots[i].items[j])
  }

  /** One differing item is enough, and it stays. */
  lemma DiffersAt(fields: seq<Field>, i: nat, items: seq<Value>, k: nat, count: nat, a: State, b: State)
    requires i < |fields| && k < count && MsgOk(fields, a.msg) && Advanced(fields, a, b, i)
    ensures ItemDiffers(fields, i, items, k, a.msg) ==> Differs(fields, i, items, count, b.msg)
  {
    if ItemDiffers(fields, i, items, k, a.msg) {
      AdvancedHolds(fields, i, items, k, a, b);
      HoldingLess(fields, i, items, k, 0, b.msg);
    }
    hide SameValue, FieldOk, Advanced;
  }

  /** Item k is not carried, whatever follows it. */
  lemma ItemsLostHere(fields: seq<Field>, i: nat, items: seq<Value>, k: nat, count: nat, t: seq<Byte>, st: State)
      returns (st': State)
    requires FieldsOk(fields) && i < |fields| && MsgOk(fields, st.msg) && !fields[i].ltype.Packable()
    requires k < count <= |items| && ItemsOk(fields[i], items) && AllFit(fields[i], items, count)
    requires !Carried(fields[i], items[k])
    requires Holds(fields, i, items, k, st.msg.slots[i])
    requires EncTaggedItems(fields[i], items, k, count).Wrote?
    ensures MsgOk(fields, st'.msg)
    ensures Leads(fields, EncTaggedItems(fields[i], items, k, count).bytes + t, t, st, st',
                  Differs(fields, i, items, count, st'.msg))
    decreases fields, 0, 1
  {
    hide Leads, Fits, Carried, SameValue, EncTagged, EncTaggedItems, FieldsOk, MsgOk, FieldOk, ValueOk, SlotOk,
        Advanced, Holds,
         Differs, ItemDiffers;
    NextItem(fields, i, items, k, st);
    var f := fields[i];
    assert Fits(f, items[k]);
    ItemsBytes(f, items, k, count);
    var p, q := EncTagged(f, items[k]).bytes, EncTaggedItems(f, items, k + 1, count).bytes;
    var st1 := ItemLost(fields, i, items, k, q + t, st);
    st' := ItemsStep(fields, i, items, k + 1, count, t, st1);
    DiffersAt(fields, i, items, k, count, st1, st');
    LeadsOn(fields, p + (q + t), q + t, t, st, st1, st',
            ItemDiffers(fields, i, items, k, st1.msg), true, Differs(fields, i, items, count, st'.msg));
    Assoc(p, q, t);
  }

  /** Some item is not carried: the items before the first such one arrive. */
  lemma {:induction false} ItemsLost(fields: seq<Field>, i: nat, items: seq<Value>, k: nat, lost: nat, count: nat,
                                     t: seq<Byte>, st: State)
      returns (st': State)
    requires FieldsOk(fields) && i < |fields| && MsgOk(fields, st.msg) && !fields[i].ltype.Packable()
    requires k <= lost < count <= |items| && ItemsOk(fields[i], items) && AllFit(fields[i], items, count)
    requires !Carried(fields[i], items[lost])
    requires Holds(fields, i, items, k, st.msg.slots[i])
    requires EncTaggedItems(fields[i], items, k, count).Wrote?
    ensures MsgOk(fields, st'.msg)
    ensures Leads(fields, EncTaggedItems(fields[i], items, k, count).bytes + t, t, st, st',
                  Differs(fields, i, items, count, st'.msg))
    decreases fields, 0, 2 + count - k
  {
    hide Leads, Fits, Carried, SameValue, EncTagged, EncTaggedItems, FieldsOk, MsgOk, FieldOk, ValueOk, SlotOk, Holds,
        Differs, OnlySlot;
    NextItem(fields, i, items, k, st);
    var f := fields[i];
    if !Carried(f, items[k]) {
      st' := ItemsLostHere(fields, i, items, k, count, t, st);
    } else {
      assert Fits(f, items[k]);
      ItemsBytes(f, items, k, count);
      var p, q := EncTagged(f, items[k]).bytes, EncTaggedItems(f, items, k + 1, count).bytes;
      var st1 := ItemRoundTrip(fields, i, items, k, q + t, st);
      LeadsThere(fields, p + (q + t), q + t, st, st1);
      st' := ItemsLost(fields, i, items, k + 1, lost, count, t, st1);
      var d := Differs(fields, i, items, count, st'.msg);
      LeadsOn(fields, p + (q + t), q + t, t, st, st1, st', true, d, d);
      Assoc(p, q, t);
    }
  }

  lemma ItemsBytes(f: Field, items: seq<Value>, k: nat, count: nat)
    requires FieldOk(f) && k < count <= |items| && ItemsOk(f, items) && EncTaggedItems(f, items, k, count).Wrote?
    ensures EncTagged(f, items[k]).Wrote? && EncTaggedItems(f, items, k + 1, count).Wrote?
    ensures EncTaggedItems(f, items, k, count).bytes ==
              EncTagged(f, items[k]).bytes + EncTaggedItems(f, items, k + 1, count).bytes
  {
  }

  lemma PackedCarried(f: Field, s: Slot)
    requires FieldOk(f) && SlotOk(f, s) && s.Many? && f.ltype.Packable() && EncSlot(f, s, false).Wrote?
    ensures CarriedSlot(f, s, false)
  {
    assert TypeOk(f);
  }

  /** The bytes of a field that is not carried fail or leave something else in its slot. */
  lemma {:induction false} SlotLost(fields: seq<Field>, m: Message, i: nat, t: seq<Byte>, st: State)
      returns (st': State)
    requires FieldsOk(fields) && MsgOk(fields, m) && MsgOk(fields, st.msg) && i < |fields| && Arrived(fields, m, i, st)
    requires FitsSlot(fields[i], m.slots[i], Selected(fields, m, i))
    requires EncSlot(fields[i], m.slots[i], Selected(fields, m, i)).Wrote?
    requires !CarriedSlot(fields[i], m.slots[i], Selected(fields, m, i))
    ensures MsgOk(fields, st'.msg)
    ensures var s := EncSlot(fields[i], m.slots[i], Selected(fields, m, i)).bytes + t;
            DecLoop(fields, s, st).Err? ||
            (DecLoop(fields, s, st) == DecLoop(fields, t, st')
             && !SameSlot(fields[i], m.slots[i], st'.msg.slots[i], Selected(fields, m, i)))
    decreases fields, 1
  {
    var f, slot0 := fields[i], st.msg.slots[i];
    assert FieldOk(f) && SlotOk(f, m.slots[i]) && SlotOk(f, slot0) && ClearedSlot(f, slot0);
    match m.slots[i]
    case One(v) =>
      if Unsent(f, v) {
        NilLeft(t);
        st' := st;
        if SameValue(f, v, slot0.v) {
          SameSym(f, v, slot0.v);
          SameSym(f, slot0.v, Initial(f));
          SameSym(f, slot0.v, v);
          SameJoin(f, v, Initial(f), slot0.v);
        }
      } else {
        st' := TaggedLost(fields, i, v, t, st, slot0);
      }
    case Opt(_, v) => st' := TaggedLost(fields, i, v, t, st, slot0);
    case Many(count, items) =>
      if f.ltype.Packable() {
        PackedCarried(f, m.slots[i]);
        st' := st;
      } else {
        if count <= |items| {
          var lost :| 0 <= lost < count && !Carried(f, items[lost]);
          st' := ItemsLost(fields, i, items, 0, lost, count, t, st);
        }
      }
  }

  // ----- selectors

  predicate SelectorsOk(fields: seq<Field>, m: Message) {
    forall j :: 0 <= j < |fields| && fields[j].htype.Oneof? ==> SelectorOk(fields, m, j)
  }

  lemma {:induction false} LoopSelectors(fields: seq<Field>, s: seq<Byte>, st: State)
    requires FieldsOk(fields) && MsgOk(fields, st.msg) && SelectorsOk(fields, st.msg) && DecLoop(fields, s, st).Ok?
    ensures SelectorsOk(fields, DecLoop(fields, s, st).out.msg)
    decreases |s|
  {
    if s != [] {
      match DecRecord(fields, s, st)
      case Stop(_) =>
      case More(st', rest) =>
        var Tag(wt, tag, payload) := DecTag(s);
        var i := Lookup(fields, tag);
        if i < |fields| {
          PutSelectors(fields, st.msg, i, DecSlot(fields[i], wt, payload, st.msg.slots[i]).out);
        }
        LoopSelectors(fields, rest, st');
    }
  }

  lemma FirstLost(fields: seq<Field>, m: Message) returns (i: nat)
    requires FieldsOk(fields) && MsgOk(fields, m)
    ensures i <= |fields|
    ensures forall j :: 0 <= j < i ==> CarriedSlot(fields[j], m.slots[j], Selected(fields, m, j))
    ensures i < |fields| ==> !CarriedSlot(fields[i], m.slots[i], Selected(fields, m, i))
  {
    i := 0;
    while i < |fields| && CarriedSlot(fields[i], m.slots[i], Selected(fields, m, i))
      invariant i <= |fields| && forall j :: 0 <= j < i ==> CarriedSlot(fields[j], m.slots[j], Selected(fields, m, j))
    {
      i := i + 1;
    }
  }

  /** Field n is not carried, those before it have arrived. */
  lemma {:induction false} RestLost(fields: seq<Field>, m: Message, n: nat, st: State)
    requires FieldsOk(fields) && MsgOk(fields, m) && MsgOk(fields, st.msg) && n < |fields| && Arrived(fields, m, n, st)
    requires FitsMessage(fields, m) && EncFrom(fields, m, n).Wrote?
    requires !CarriedSlot(fields[n], m.slots[n], Selected(fields, m, n))
    ensures var r := DecLoop(fields, EncFrom(fields, m, n).bytes, st); r.Ok? ==> !SameMessage(fields, m, r.out.msg)
    decreases fields, 2
  {
    var e := EncFrom(fields, m, n + 1);
    FromBytes(fields, m, n);
    var st' := SlotLost(fields, m, n, e.bytes, st);
    RestStepsOver(fields, m, n + 1, n, st');
    hide DecLoop, EncSlot, EncFrom, Selected, CarriedSlot, SameSlot, Arrived;
  }

  /** A selector that names no member does not come back. */
  lemma SelectorLost(fields: seq<Field>, m: Message, s: seq<Byte>, st: State)
    requires FieldsOk(fields) && MsgOk(fields, m) && MsgOk(fields, st.msg) && SelectorsOk(fields, st.msg)
    requires exists i :: 0 <= i < |fields| && fields[i].htype.Oneof? && !SelectorOk(fields, m, i)
    ensures var r := DecLoop(fields, s, st); r.Ok? ==> !SameMessage(fields, m, r.out.msg)
  {
    if DecLoop(fields, s, st).Ok? {
      LoopSelectors(fields, s, st);
      var i :| 0 <= i < |fields| && fields[i].htype.Oneof? && !SelectorOk(fields, m, i);
      assert SelectorOk(fields, DecLoop(fields, s, st).out.msg, i);
    }
  }

  /** A message that the encoding does not carry in full is refused or comes back as another. */
  lemma {:induction false} MessageLost(fields: seq<Field>, m: Message, m0: Message)
    requires FieldsOk(fields) && MsgOk(fields, m) && MsgOk(fields, m0) && ClearedMessage(fields, m0)
    requires FitsMessage(fields, m) && EncMessage(fields, m).Wrote? && !CarriedMessage(fields, m)
    ensures var r := DecMessage(fields, EncMessage(fields, m).bytes, m0); r.Ok? ==> !SameMessage(fields, m, r.out)
    decreases fields, 3
  {
    var st0 := State(m0, {});
    var n := FirstLost(fields, m);
    if n < |fields| {
      var st := FieldsRoundTrip(fields, m, 0, n, st0);
      RestLost(fields, m, n, st);
    } else {
      SelectorLost(fields, m, EncMessage(fields, m).bytes, st0);
    }
    hide DecLoop, EncFrom, SameMessage;
  }

  predicate Survives(fields: seq<Field>, m: Message, dest: Message)
    requires FieldsOk(fields) && MsgOk(fields, m) && MsgOk(fields, dest)
  {
    && EncMessage(fields, m).Wrote?
    && var r := DecInit(fields, EncMessage(fields, m).bytes, dest);
       r.Ok? && r.rest == [] && SameMessage(fields, m, r.out)
  }

  /** A message survives the round trip exactly when, at every depth, the data it sends is sane and every
    * proto3-style field it leaves out is as it was initialised. */
  lemma SurvivesIffCarried(fields: seq<Field>, m: Message, dest: Message)
    requires FieldsOk(fields) && MsgOk(fields, m) && MsgOk(fields, dest) && FitsMessage(fields, m)
    ensures Survives(fields, m, dest) <==> CarriedMessage(fields, m)
  {
    if CarriedMessage(fields, m) {
      EncodeThenDecode(fields, m, dest);
    } else if EncMessage(fields, m).Wrote? {
      DefaultsCleared(fields, dest);
      MessageLost(fields, m, Defaults(fields, dest));
    }
  }

  // A proto3-style message with one optional number.
  const NUMBER: Field := Field(1, Optional, Static, UVarint, 4, -4, 4, 0, NoDefault)
  const HOLDER: Field := Field(1, Optional, Static, Submessage([NUMBER]), 0, 0, 8, 0, NoDefault)

  function Holder(has: bool, i: int): Message { Message([One(MsgV(Message([Opt(has, IntV(i))], map[])))], map[]) }

  lemma NumberOk(has: bool, i: int)
    requires 0 <= i < 0x1_0000_0000
    ensures FieldOk(NUMBER) && ValueOk(NUMBER, IntV(i)) && FieldsOk([NUMBER])
    ensures MsgOk([NUMBER], Message([Opt(has, IntV(i))], map[]))
  {
    Pow2Values();
    assert 8 * NUMBER.dataSize == 32;
    hide Pow2;
    assert TypeOk(NUMBER) && IntOk(NUMBER, i) && FieldOk(NUMBER);
    OneField(NUMBER);
  }

  lemma HolderOk(has: bool, i: int)
    requires 0 <= i < 0x1_0000_0000
    ensures FieldOk(HOLDER) && FieldsOk([HOLDER]) && MsgOk([HOLDER], Holder(has, i))
  {
    NumberOk(has, i);
    assert TypeOk(HOLDER) && RequiredBefore([HOLDER], 1) == 0;
    hide FieldsOk, Pow2, IntOk;
    assert ValueOk(HOLDER, Holder(has, i).slots[0].v);
    OneField(HOLDER);
  }

  lemma OneField(f: Field)
    requires FieldOk(f)
    ensures FieldsOk([f])
  {
    assert RequiredBefore([f], 1) <= 1;
    hide FieldOk;
  }

  /** A number that is present and zero is lost with its message: nothing is written. */
  lemma PresentZeroIsLost(dest: Message)
    ensures FieldsOk([HOLDER]) && MsgOk([HOLDER], Holder(true, 0)) && EncMessage([HOLDER], Holder(true, 0)) == Wrote([])
    ensures MsgOk([HOLDER], dest) ==> !Survives([HOLDER], Holder(true, 0), dest)
  {
    hide FieldsOk, IntOk, Pow2, RequiredBefore, Initial, SameValue, DecInit;
    HolderOk(true, 0);
    NumberOk(true, 0);
    var m := Holder(true, 0);
    var v := m.slots[0].v;
    assert ZeroData(NUMBER, v.msg.slots[0]) && AllZeroData([NUMBER], v.msg) && IsZero(HOLDER, v);
    assert Unsent(HOLDER, v);
    assert EncSlot(HOLDER, m.slots[0], false) == Wrote([]);
    assert EncFrom([HOLDER], m, 1) == Wrote([]);
    ThenFirst(Wrote([]));
    assert EncFrom([HOLDER], m, 0) ==
             EncSlot([HOLDER][0], m.slots[0], Selected([HOLDER], m, 0)).Then(EncFrom([HOLDER], m, 1));
    NothingThere();
    assert !CarriedSlot(HOLDER, m.slots[0], false);
    assert FitsSlot(HOLDER, m.slots[0], false);
    if MsgOk([HOLDER], dest) {
      SurvivesIffCarried([HOLDER], m, dest);
    }
  }

  lemma NothingThere()
    ensures FieldOk(HOLDER) && ValueOk(HOLDER, Holder(true, 0).slots[0].v)
    ensures !SameValue(HOLDER, Holder(true, 0).slots[0].v, Initial(HOLDER))
  {
    hide FieldsOk, IntOk, Pow2, Group, Groups, RequiredBefore;
    HolderOk(true, 0);
    NumberOk(true, 0);
    var z := ZeroMessage([NUMBER]);
    assert z.slots[0] == ZeroSlot(NUMBER);
    assert Defaults([NUMBER], z).slots[0] == InitSlot(NUMBER, z.slots[0]);
    assert !SameSlot(NUMBER, Holder(true, 0).slots[0].v.msg.slots[0], Defaults([NUMBER], z).slots[0], false);
  }
}
