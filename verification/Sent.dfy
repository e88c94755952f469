/** What the bytes of an encoded message say: exactly what the struct sends, and nothing else of it. */
module Sent {
  import opened Bits
  import opened Descriptors
  import opened DecodeSpec
  import opened EncodeSpec
  import opened Same
  import opened Survival
  import opened Readers

  // ----- structs that send the same

  predicate SentValue(f: Field, a: Value, b: Value)
    requires FieldOk(f) && ValueOk(f, a) && ValueOk(f, b)
    decreases f, 0
  {
    assert TypeOk(f);
    if f.ltype.Submessage? then SentMessage(f.ltype.fields, a.msg, b.msg) else SameValue(f, a, b)
  }

  predicate SentSlot(f: Field, a: Slot, b: Slot, selectedA: bool, selectedB: bool)
    requires FieldOk(f) && SlotOk(f, a) && SlotOk(f, b)
    decreases f, 1
  {
    match a
    case Many(count, items) =>
      count == b.count && forall k :: 0 <= k < count && k < |items| ==> SentValue(f, items[k], b.items[k])
    case _ =>
      && (Sends(f, a, selectedA) <==> Sends(f, b, selectedB))
      && (Sends(f, a, selectedA) ==> SentValue(f, a.v, b.v))
  }

  /** The same fields are sent with the same contents, at every depth. */
  predicate SentMessage(fields: seq<Field>, a: Message, b: Message)
    requires FieldsOk(fields) && MsgOk(fields, a) && MsgOk(fields, b)
    decreases fields
  {
    forall i :: 0 <= i < |fields| ==>
      SentSlot(fields[i], a.slots[i], b.slots[i], Selected(fields, a, i), Selected(fields, b, i))
  }

  // ----- they encode alike

  lemma {:induction false} SentValueEncodes(f: Field, a: Value, b: Value)
    requires FieldOk(f) && ValueOk(f, a) && ValueOk(f, b) && SentValue(f, a, b)
    ensures EncValue(f, a) == EncValue(f, b)
    decreases f, 0
  {
    assert TypeOk(f);
    if f.ltype.Submessage? {
      SentMessageEncodes(f.ltype.fields, a.msg, b.msg, 0);
    }
  }

  lemma {:induction false} SentItemsEncode(f: Field, a: seq<Value>, b: seq<Value>, k: nat, count: nat)
    requires FieldOk(f) && k <= count <= |a| && count <= |b| && ItemsOk(f, a) && ItemsOk(f, b)
    requires forall j :: 0 <= j < count ==> SentValue(f, a[j], b[j])
    ensures EncItems(f, a, k, count) == EncItems(f, b, k, count)
    ensures EncTaggedItems(f, a, k, count) == EncTaggedItems(f, b, k, count)
    decreases f, 1, count - k
  {
    hide SentValue, EncValue;
    if k < count {
      SentValueEncodes(f, a[k], b[k]);
      SentItemsEncode(f, a, b, k + 1, count);
    }
  }

  lemma {:induction false} SentSlotEncodes(f: Field, a: Slot, b: Slot, selectedA: bool, selectedB: bool)
    requires FieldOk(f) && SlotOk(f, a) && SlotOk(f, b) && SentSlot(f, a, b, selectedA, selectedB)
    ensures EncSlot(f, a, selectedA) == EncSlot(f, b, selectedB)
    decreases f, 2
  {
    hide SentValue, EncValue;
    match a
    case Many(count, items) =>
      if count <= |items| {
        SentItemsEncode(f, items, b.items, 0, count);
      }
    case _ =>
      if Sends(f, a, selectedA) {
        SentValueEncodes(f, a.v, b.v);
      }
  }

  lemma {:induction false} SentMessageEncodes(fields: seq<Field>, a: Message, b: Message, i: nat)
    requires FieldsOk(fields) && MsgOk(fields, a) && MsgOk(fields, b) && SentMessage(fields, a, b) && i <= |fields|
    ensures EncFrom(fields, a, i) == EncFrom(fields, b, i)
    decreases fields, 0, |fields| - i
  {
    if i < |fields| {
      SentSlotEncodes(fields[i], a.slots[i], b.slots[i], Selected(fields, a, i), Selected(fields, b, i));
      SentMessageEncodes(fields, a, b, i + 1);
    }
  }

  // ----- a reader that notices all that is sent

  /** The field with a has_ member where it had none. */
  function Flagged(f: Field): (r: Field)
    decreases f, 0
  {
    f.(sizeOffset := if f.Singular() then 1 else f.sizeOffset,
       ltype := if f.ltype.Submessage? then Submessage(FlaggedAll(f.ltype.fields)) else f.ltype)
  }

  function FlaggedAll(fields: seq<Field>): (r: seq<Field>)
    ensures |r| == |fields|
    decreases fields
  {
    seq(|fields|, i requires 0 <= i < |fields| => Flagged(fields[i]))
  }

  lemma {:induction false} FlaggedOk(f: Field)
    requires FieldOk(f)
    ensures FieldOk(Flagged(f)) && Compatible(Flagged(f), f)
    decreases f, 0
  {
    assert TypeOk(f);
    if f.ltype.Submessage? {
      FlaggedAllOk(f.ltype.fields);
    }
    assert TypeOk(Flagged(f));
  }

  lemma {:induction false} FlaggedCounts(fields: seq<Field>, i: nat)
    requires i <= |fields|
    ensures RequiredBefore(FlaggedAll(fields), i) == RequiredBefore(fields, i)
    ensures i < |fields| ==> Group(FlaggedAll(fields), i) == Group(fields, i)
  {
    if i > 0 {
      FlaggedCounts(fields, i - 1);
    }
  }

  /** Tags, rules and unions stay as they are. */
  lemma FlaggedShape(fields: seq<Field>)
    requires FieldsOk(fields)
    ensures UniqueTags(FlaggedAll(fields)) && BitmapCovers(RequiredBefore(FlaggedAll(fields), |fields|))
    ensures RequiredAgree(FlaggedAll(fields), fields) && UnionsAgree(FlaggedAll(fields), fields)
  {
    hide FieldOk, Lookup;
    var flagged := FlaggedAll(fields);
    forall i | 0 <= i < |fields|
      ensures flagged[i].tag == fields[i].tag && flagged[i].htype == fields[i].htype
      ensures Lookup(fields, flagged[i].tag) == i && Group(flagged, i) == Group(fields, i)
    {
      LookupFinds(fields, i, fields[i].tag);
      FlaggedCounts(fields, i);
    }
    FlaggedCounts(fields, |fields|);
  }

  lemma {:induction false} FlaggedAllOk(fields: seq<Field>)
    requires FieldsOk(fields)
    ensures FieldsOk(FlaggedAll(fields)) && CompatibleAll(FlaggedAll(fields), fields)
    decreases fields
  {
    hide Compatible, FieldOk, RequiredAgree, UnionsAgree, RequiredBefore, BitmapCovers;
    var flagged := FlaggedAll(fields);
    FlaggedShape(fields);
    forall i | 0 <= i < |fields| ensures FieldOk(flagged[i]) && Compatible(flagged[i], fields[i]) {
      FlaggedOk(fields[i]);
    }
    forall j, i | 0 <= j < |flagged| && 0 <= i < |fields| && flagged[j].tag == fields[i].tag
      ensures Compatible(flagged[j], fields[i])
    {
      assert flagged[j].tag == fields[j].tag;
    }
  }

  lemma {:induction false} ValueShownTwice(f: Field, x: Value, a: Value, b: Value)
    requires FieldOk(f) && ValueOk(f, a) && ValueOk(f, b) && FieldOk(Flagged(f)) && ValueOk(Flagged(f), x)
    requires ShowsValue(Flagged(f), f, x, a) && ShowsValue(Flagged(f), f, x, b)
    ensures SentValue(f, a, b)
    decreases f, 0
  {
    assert TypeOk(f) && TypeOk(Flagged(f));
    if f.ltype.Submessage? {
      ShownTwice(f.ltype.fields, x.msg, a.msg, b.msg);
    }
  }

  lemma {:induction false} SlotShownTwice(f: Field, x: Slot, a: Slot, b: Slot, selectedA: bool, selectedB: bool)
    requires FieldOk(f) && SlotOk(f, a) && SlotOk(f, b) && FieldOk(Flagged(f)) && SlotOk(Flagged(f), x)
    requires ShowsSlot(Flagged(f), f, x, a, Sends(f, a, selectedA))
    requires ShowsSlot(Flagged(f), f, x, b, Sends(f, b, selectedB))
    requires f.htype.Oneof? ==> Sends(f, a, selectedA) == Sends(f, b, selectedB)
    ensures SentSlot(f, a, b, selectedA, selectedB)
    decreases f, 1
  {
    match a
    case Many(count, items) =>
      forall k | 0 <= k < count && k < |items| ensures SentValue(f, items[k], b.items[k]) {
        ValueShownTwice(f, x.items[k], items[k], b.items[k]);
      }
    case _ =>
      if Sends(f, a, selectedA) {
        ValueShownTwice(f, x.v, a.v, b.v);
      }
  }

  lemma FlaggedSlots(fields: seq<Field>, x: Message, a: Message, i: nat)
    requires FieldsOk(fields) && MsgOk(fields, a) && FieldsOk(FlaggedAll(fields)) && MsgOk(FlaggedAll(fields), x)
    requires ShowsMessage(FlaggedAll(fields), fields, x, a) && i < |fields|
    ensures FieldOk(fields[i]) && SlotOk(fields[i], a.slots[i]) && FieldOk(Flagged(fields[i]))
    ensures SlotOk(Flagged(fields[i]), x.slots[i])
    ensures var sends := Sends(fields[i], a.slots[i], Selected(fields, a, i));
            && ShowsSlot(Flagged(fields[i]), fields[i], x.slots[i], a.slots[i], sends)
            && (fields[i].htype.Oneof? ==> sends == Selected(FlaggedAll(fields), x, i))
  {
    hide ShowsSlot;
    var flagged := FlaggedAll(fields);
    assert flagged[i] == Flagged(fields[i]);
    LookupFinds(fields, i, flagged[i].tag);
    assert ShownAt(flagged, fields, x, a, i);
  }

  /** Two messages that one struct of this reader shows send the same. */
  lemma {:induction false} ShownTwice(fields: seq<Field>, x: Message, a: Message, b: Message)
    requires FieldsOk(fields) && MsgOk(fields, a) && MsgOk(fields, b)
    requires FieldsOk(FlaggedAll(fields)) && MsgOk(FlaggedAll(fields), x)
    requires ShowsMessage(FlaggedAll(fields), fields, x, a) && ShowsMessage(FlaggedAll(fields), fields, x, b)
    ensures SentMessage(fields, a, b)
    decreases fields
  {
    hide ShowsSlot, ShowsMessage, SentSlot;
    forall i | 0 <= i < |fields|
      ensures SentSlot(fields[i], a.slots[i], b.slots[i], Selected(fields, a, i), Selected(fields, b, i))
    {
      FlaggedSlots(fields, x, a, i);
      FlaggedSlots(fields, x, b, i);
      SlotShownTwice(fields[i], x.slots[i], a.slots[i], b.slots[i], Selected(fields, a, i), Selected(fields, b, i));
    }
  }

  /** The bytes determine what was sent, and what is sent determines the bytes: two structs encode alike
    * exactly when they send the same. No byte of memory outside of that ever leaves. */
  lemma SameBytes(fields: seq<Field>, a: Message, b: Message)
    requires FieldsOk(fields) && MsgOk(fields, a) && MsgOk(fields, b)
    requires SaneMessage(fields, a) && SaneMessage(fields, b) && FitsMessage(fields, a) && FitsMessage(fields, b)
    ensures EncMessage(fields, a) == EncMessage(fields, b) <==> SentMessage(fields, a, b)
  {
    if SentMessage(fields, a, b) {
      SentMessageEncodes(fields, a, b, 0);
    }
    if EncMessage(fields, a) == EncMessage(fields, b) {
      FlaggedAllOk(fields);
      var dest := ZeroMessage(FlaggedAll(fields));
      ReaderShows(FlaggedAll(fields), fields, a, dest);
      ReaderShows(FlaggedAll(fields), fields, b, dest);
      ShownTwice(fields, DecInit(FlaggedAll(fields), EncMessage(fields, a).bytes, dest).out, a, b);
    }
  }

  // ----- equal messages

  /** Every field that is a message has a flag, at every depth. */
  predicate FlagsOnMessages(fields: seq<Field>)
    decreases fields
  {
    forall i :: 0 <= i < |fields| ==> FlagOnMessage(fields[i])
  }

  predicate FlagOnMessage(f: Field)
    decreases f, 0
  {
    f.ltype.Submessage? ==> !f.Singular() && FlagsOnMessages(f.ltype.fields)
  }

  lemma {:induction false} SameIsSent(f: Field, a: Value, b: Value)
    requires FieldOk(f) && ValueOk(f, a) && ValueOk(f, b) && FlagOnMessage(f) && SameValue(f, a, b)
    ensures SentValue(f, a, b) && Unsent(f, a) == Unsent(f, b)
    decreases f, 0
  {
    assert TypeOk(f);
    if f.ltype.Submessage? {
      SameMessageSent(f.ltype.fields, a.msg, b.msg);
    }
  }

  lemma {:induction false} SameSlotSent(f: Field, a: Slot, b: Slot, selected: bool)
    requires FieldOk(f) && SlotOk(f, a) && SlotOk(f, b) && FlagOnMessage(f) && SameSlot(f, a, b, selected)
    ensures SentSlot(f, a, b, selected, selected)
    decreases f, 1
  {
    match a
    case Many(count, items) =>
      forall k | 0 <= k < count && k < |items| ensures SentValue(f, items[k], b.items[k]) {
        SameIsSent(f, items[k], b.items[k]);
      }
    case One(v) =>
      if !f.htype.Oneof? || selected {
        SameIsSent(f, v, b.v);
      }
    case Opt(has, v) =>
      if has {
        SameIsSent(f, v, b.v);
      }
  }

  /** With flags on all messages, structs that hold the same message send the same. */
  lemma {:induction false} SameMessageSent(fields: seq<Field>, a: Message, b: Message)
    requires FieldsOk(fields) && MsgOk(fields, a) && MsgOk(fields, b) && FlagsOnMessages(fields)
    requires SameMessage(fields, a, b)
    ensures SentMessage(fields, a, b)
    decreases fields
  {
    forall i | 0 <= i < |fields|
      ensures SentSlot(fields[i], a.slots[i], b.slots[i], Selected(fields, a, i), Selected(fields, b, i))
    {
      SameSlotSent(fields[i], a.slots[i], b.slots[i], Selected(fields, a, i));
    }
  }

  /** So the encoding depends on the message alone. */
  lemma SameMessageEncodes(fields: seq<Field>, a: Message, b: Message)
    requires FieldsOk(fields) && MsgOk(fields, a) && MsgOk(fields, b) && FlagsOnMessages(fields)
    requires SameMessage(fields, a, b)
    ensures EncMessage(fields, a) == EncMessage(fields, b)
  {
    SameMessageSent(fields, a, b);
    SentMessageEncodes(fields, a, b, 0);
  }

  /** Not so in general. Two structs hold the same message, in which a number is absent; the data of that
    * number decides whether the message around it is sent. */
  lemma AbsentDataIsSeen()
    ensures FieldsOk([HOLDER]) && MsgOk([HOLDER], Holder(false, 0)) && MsgOk([HOLDER], Holder(false, 5))
    ensures SameMessage([HOLDER], Holder(false, 0), Holder(false, 5))
    ensures EncMessage([HOLDER], Holder(false, 0)) != EncMessage([HOLDER], Holder(false, 5))
  {
    hide FieldsOk, IntOk, Pow2, RequiredBefore, EncMessage, DecInit;
    HolderInner(0);
    HolderInner(5);
    var a, b := Holder(false, 0), Holder(false, 5);
    assert IsZero(NUMBER, IntV(0)) && !IsZero(NUMBER, IntV(5));
    assert ZeroData(NUMBER, a.slots[0].v.msg.slots[0]) && !ZeroData(NUMBER, b.slots[0].v.msg.slots[0]);
    assert AllZeroData([NUMBER], a.slots[0].v.msg) && !AllZeroData([NUMBER], b.slots[0].v.msg);
    assert SameMessage([NUMBER], a.slots[0].v.msg, b.slots[0].v.msg);
    assert SameSlot(HOLDER, a.slots[0], b.slots[0], false);
    assert !SentSlot(HOLDER, a.slots[0], b.slots[0], false, false);
    SameBytes([HOLDER], a, b);
  }

  lemma HolderInner(i: int)
    requires 0 <= i < 0x1_0000_0000
    ensures FieldOk(HOLDER) && FieldsOk([HOLDER]) && MsgOk([HOLDER], Holder(false, i))
    ensures FieldOk(NUMBER) && FieldsOk([NUMBER]) && ValueOk(NUMBER, IntV(i))
    ensures MsgOk([NUMBER], Message([Opt(false, IntV(i))], map[]))
    ensures SaneMessage([HOLDER], Holder(false, i)) && FitsMessage([HOLDER], Holder(false, i))
  {
    hide FieldsOk, IntOk, Pow2, RequiredBefore;
    HolderOk(false, i);
    NumberOk(false, i);
    var m := Message([Opt(false, IntV(i))], map[]);
    assert SaneMessage([NUMBER], m) && FitsMessage([NUMBER], m);
    assert EncSlot(NUMBER, m.slots[0], false) == Wrote([]) && EncFrom([NUMBER], m, 1) == Wrote([]);
    ThenFirst(Wrote([]));
    assert EncMessage([NUMBER], m) == Wrote([]);
    assert Holder(false, i).slots[0].v == MsgV(m) && ValueOk(HOLDER, MsgV(m)) && TypeOk(HOLDER);
    assert Sane(HOLDER, MsgV(m)) && Fits(HOLDER, MsgV(m));
    assert SaneSlot(HOLDER, Holder(false, i).slots[0], false) && FitsSlot(HOLDER, Holder(false, i).slots[0], false);
  }
}
