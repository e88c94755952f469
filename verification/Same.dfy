/** When two structs hold the same message, and which structs can be sent at all. */
module Same {
  import opened Bits
  import opened Descriptors
  import opened EncodeSpec

  // ----- equal messages

  /** Equal contents: bytes in use, strings up to the terminator, nested messages field by field. */
  predicate SameValue(f: Field, a: Value, b: Value)
    requires FieldOk(f) && ValueOk(f, a) && ValueOk(f, b)
    decreases f, 0
  {
    assert TypeOk(f);
    if f.ltype.Bytes? then a.size == b.size && (a.size <= |a.buf| ==> a.buf[..a.size] == b.buf[..a.size])
    else if f.ltype.String? then CString(a.buf) == CString(b.buf)
    else if f.ltype.Submessage? then SameMessage(f.ltype.fields, a.msg, b.msg)
    else a == b
  }

  /** An absent optional, an unselected union member and items beyond the count do not matter. */
  predicate SameSlot(f: Field, a: Slot, b: Slot, selected: bool)
    requires FieldOk(f) && SlotOk(f, a) && SlotOk(f, b)
    decreases f, 1
  {
    match a
    case One(v) => (f.htype.Oneof? && !selected) || SameValue(f, v, b.v)
    case Opt(has, v) => has == b.has && (has ==> SameValue(f, v, b.v))
    case Many(count, items) =>
      count == b.count && forall j :: 0 <= j < count && j < |items| ==> SameValue(f, items[j], b.items[j])
  }

  predicate SameMessage(fields: seq<Field>, a: Message, b: Message)
    requires FieldsOk(fields) && MsgOk(fields, a) && MsgOk(fields, b)
    decreases fields
  {
    && (forall i :: 0 <= i < |fields| ==> SameSlot(fields[i], a.slots[i], b.slots[i], Selected(fields, a, i)))
    && (forall i :: 0 <= i < |fields| && fields[i].htype.Oneof? ==>
        Which(a, Group(fields, i)) == Which(b, Group(fields, i)))
  }

  // ----- messages that can be sent

  /** Data in use is sane: byte counts fit their buffer and strings are terminated inside theirs. */
  predicate Proper(f: Field, v: Value)
    requires FieldOk(f) && ValueOk(f, v)
    decreases f, 0
  {
    assert TypeOk(f);
    if f.ltype.Bytes? then v.size + BYTES_HEADER <= f.dataSize
    else if f.ltype.String? then |CString(v.buf)| < |v.buf|
    else if f.ltype.Submessage? then ProperMessage(f.ltype.fields, v.msg)
    else true
  }

  predicate ProperSlot(f: Field, s: Slot, selected: bool)
    requires FieldOk(f) && SlotOk(f, s)
    decreases f, 1
  {
    match s
    case One(v) => (f.htype.Oneof? && !selected) || Proper(f, v)
    case Opt(has, v) => has ==> Proper(f, v)
    case Many(count, items) => count <= |items| && forall j :: 0 <= j < count ==> Proper(f, items[j])
  }

  /** The selector of field i's union is zero or the tag of one of the union's members. */
  predicate SelectorOk(fields: seq<Field>, m: Message, i: nat)
    requires i < |fields|
  {
    var w := Which(m, Group(fields, i));
    w == 0 || exists j :: 0 <= j < |fields| && IsMember(fields, j, Group(fields, i), w)
  }

  predicate IsMember(fields: seq<Field>, j: nat, group: nat, tag: nat)
    requires j < |fields|
  {
    fields[j].htype.Oneof? && Group(fields, j) == group && fields[j].tag == tag
  }

  predicate ProperMessage(fields: seq<Field>, m: Message)
    requires FieldsOk(fields) && MsgOk(fields, m)
    decreases fields
  {
    && (forall i :: 0 <= i < |fields| ==> ProperSlot(fields[i], m.slots[i], Selected(fields, m, i)))
    && (forall i :: 0 <= i < |fields| && fields[i].htype.Oneof? ==> SelectorOk(fields, m, i))
  }

  // ----- equality of messages

  lemma {:induction false} SameRefl(f: Field, v: Value)
    requires FieldOk(f) && ValueOk(f, v)
    ensures SameValue(f, v, v)
    decreases f, 0
  {
    assert TypeOk(f);
    if f.ltype.Submessage? {
      SameMessageRefl(f.ltype.fields, v.msg);
    }
  }

  lemma {:induction false} SameSlotRefl(f: Field, s: Slot, selected: bool)
    requires FieldOk(f) && SlotOk(f, s)
    ensures SameSlot(f, s, s, selected)
    decreases f, 1
  {
    match s
    case One(v) => SameRefl(f, v);
    case Opt(_, v) => SameRefl(f, v);
    case Many(count, items) =>
      forall j | 0 <= j < count && j < |items| ensures SameValue(f, items[j], items[j]) {
        SameRefl(f, items[j]);
      }
  }

  lemma {:induction false} SameMessageRefl(fields: seq<Field>, m: Message)
    requires FieldsOk(fields) && MsgOk(fields, m)
    ensures SameMessage(fields, m, m)
    decreases fields
  {
    forall i | 0 <= i < |fields| ensures SameSlot(fields[i], m.slots[i], m.slots[i], Selected(fields, m, i)) {
      SameSlotRefl(fields[i], m.slots[i], Selected(fields, m, i));
    }
  }

  /** Two values equal to a third are equal. */
  lemma {:induction false} SameJoin(f: Field, a: Value, b: Value, c: Value)
    requires FieldOk(f) && ValueOk(f, a) && ValueOk(f, b) && ValueOk(f, c)
    requires SameValue(f, a, c) && SameValue(f, b, c)
    ensures SameValue(f, a, b)
    decreases f, 0
  {
    assert TypeOk(f);
    if f.ltype.Submessage? {
      SameMessageJoin(f.ltype.fields, a.msg, b.msg, c.msg);
    }
  }

  lemma {:induction false} SameSlotJoin(f: Field, a: Slot, b: Slot, c: Slot, selected: bool)
    requires FieldOk(f) && SlotOk(f, a) && SlotOk(f, b) && SlotOk(f, c)
    requires SameSlot(f, a, c, selected) && SameSlot(f, b, c, selected)
    ensures SameSlot(f, a, b, selected)
    decreases f, 1
  {
    match a
    case One(v) =>
      if !f.htype.Oneof? || selected {
        SameJoin(f, v, b.v, c.v);
      }
    case Opt(has, v) =>
      if has {
        SameJoin(f, v, b.v, c.v);
      }
    case Many(count, items) =>
      forall j | 0 <= j < count && j < |items| ensures SameValue(f, items[j], b.items[j]) {
        SameJoin(f, items[j], b.items[j], c.items[j]);
      }
  }

  lemma {:induction false} SameMessageJoin(fields: seq<Field>, a: Message, b: Message, c: Message)
    requires FieldsOk(fields) && MsgOk(fields, a) && MsgOk(fields, b) && MsgOk(fields, c)
    requires SameMessage(fields, a, c) && SameMessage(fields, b, c)
    ensures SameMessage(fields, a, b)
    decreases fields
  {
    forall i | 0 <= i < |fields| ensures SameSlot(fields[i], a.slots[i], b.slots[i], Selected(fields, a, i)) {
      assert Selected(fields, a, i) == Selected(fields, b, i);
      SameSlotJoin(fields[i], a.slots[i], b.slots[i], c.slots[i], Selected(fields, a, i));
    }
  }

  lemma SameSym(f: Field, a: Value, b: Value)
    requires FieldOk(f) && ValueOk(f, a) && ValueOk(f, b) && SameValue(f, a, b)
    ensures SameValue(f, b, a)
  {
    SameRefl(f, b);
    SameJoin(f, b, a, b);
  }

  // ----- messages that the encoding carries in full

  /** What encoding and decoding ask of a message: data that is sent is sane, and a proto3-style field that
    * is not sent holds what the reader will find there. */
  predicate Carried(f: Field, v: Value)
    requires FieldOk(f) && ValueOk(f, v)
    decreases f, 0
  {
    assert TypeOk(f);
    if f.ltype.Submessage? then CarriedMessage(f.ltype.fields, v.msg) else Proper(f, v)
  }

  predicate CarriedSlot(f: Field, s: Slot, selected: bool)
    requires FieldOk(f) && SlotOk(f, s)
    decreases f, 1
  {
    match s
    case One(v) =>
      if f.htype.Oneof? && !selected then true
      else if Unsent(f, v) then SameValue(f, v, Initial(f))
      else Carried(f, v)
    case Opt(has, v) => has ==> Carried(f, v)
    case Many(count, items) => count <= |items| && forall j :: 0 <= j < count ==> Carried(f, items[j])
  }

  predicate CarriedMessage(fields: seq<Field>, m: Message)
    requires FieldsOk(fields) && MsgOk(fields, m)
    decreases fields
  {
    && (forall i :: 0 <= i < |fields| ==> CarriedSlot(fields[i], m.slots[i], Selected(fields, m, i)))
    && (forall i :: 0 <= i < |fields| && fields[i].htype.Oneof? ==> SelectorOk(fields, m, i))
  }

  // ----- messages whose data is sane as far as it is sent

  predicate Sane(f: Field, v: Value)
    requires FieldOk(f) && ValueOk(f, v)
    decreases f, 0
  {
    assert TypeOk(f);
    if f.ltype.Submessage? then SaneMessage(f.ltype.fields, v.msg) else Proper(f, v)
  }

  predicate SaneSlot(f: Field, s: Slot, selected: bool)
    requires FieldOk(f) && SlotOk(f, s)
    decreases f, 1
  {
    match s
    case One(v) => (f.htype.Oneof? && !selected) || Unsent(f, v) || Sane(f, v)
    case Opt(has, v) => has ==> Sane(f, v)
    case Many(count, items) => count <= |items| && forall j :: 0 <= j < count ==> Sane(f, items[j])
  }

  predicate SaneMessage(fields: seq<Field>, m: Message)
    requires FieldsOk(fields) && MsgOk(fields, m)
    decreases fields
  {
    forall i :: 0 <= i < |fields| ==> SaneSlot(fields[i], m.slots[i], Selected(fields, m, i))
  }

  lemma {:induction false} CarriedIsSane(f: Field, v: Value)
    requires FieldOk(f) && ValueOk(f, v) && Carried(f, v)
    ensures Sane(f, v)
    decreases f, 0
  {
    assert TypeOk(f);
    if f.ltype.Submessage? {
      CarriedMessageIsSane(f.ltype.fields, v.msg);
    }
  }

  lemma {:induction false} CarriedSlotIsSane(f: Field, s: Slot, selected: bool)
    requires FieldOk(f) && SlotOk(f, s) && CarriedSlot(f, s, selected)
    ensures SaneSlot(f, s, selected)
    decreases f, 1
  {
    match s
    case One(v) =>
      if (!f.htype.Oneof? || selected) && !Unsent(f, v) {
        CarriedIsSane(f, v);
      }
    case Opt(has, v) =>
      if has {
        CarriedIsSane(f, v);
      }
    case Many(count, items) =>
      forall j | 0 <= j < count ensures Sane(f, items[j]) {
        CarriedIsSane(f, items[j]);
      }
  }

  lemma {:induction false} CarriedMessageIsSane(fields: seq<Field>, m: Message)
    requires FieldsOk(fields) && MsgOk(fields, m) && CarriedMessage(fields, m)
    ensures SaneMessage(fields, m)
    decreases fields
  {
    forall i | 0 <= i < |fields| ensures SaneSlot(fields[i], m.slots[i], Selected(fields, m, i)) {
      CarriedSlotIsSane(fields[i], m.slots[i], Selected(fields, m, i));
    }
  }

  // ----- such messages are never refused

  lemma {:induction false} SaneEncodes(f: Field, v: Value)
    requires FieldOk(f) && ValueOk(f, v) && Sane(f, v)
    ensures EncValue(f, v).Wrote?
    decreases f, 0
  {
    assert TypeOk(f);
    if f.ltype.Submessage? {
      SaneMessageEncodes(f.ltype.fields, v.msg);
    }
  }

  lemma {:induction false} SaneItemsEncode(f: Field, items: seq<Value>, k: nat, count: nat)
    requires FieldOk(f) && k <= count <= |items| && ItemsOk(f, items)
    requires forall j :: 0 <= j < count ==> Sane(f, items[j])
    ensures EncTaggedItems(f, items, k, count).Wrote?
    decreases f, 1, count - k
  {
    if k < count {
      SaneEncodes(f, items[k]);
      SaneItemsEncode(f, items, k + 1, count);
    }
  }

  lemma {:induction false} SaneSlotEncodes(f: Field, s: Slot, selected: bool)
    requires FieldOk(f) && SlotOk(f, s) && SaneSlot(f, s, selected)
    ensures EncSlot(f, s, selected).Wrote?
    decreases f, 2
  {
    match s
    case One(v) =>
      if (!f.htype.Oneof? || selected) && !Unsent(f, v) {
        SaneEncodes(f, v);
      }
    case Opt(has, v) =>
      if has {
        SaneEncodes(f, v);
      }
    case Many(count, items) =>
      if f.ltype.Packable() {
        ItemsSize(f, items, 0, count);
      } else {
        SaneItemsEncode(f, items, 0, count);
      }
  }

  lemma {:induction false} SaneRestEncodes(fields: seq<Field>, m: Message, i: nat)
    requires FieldsOk(fields) && MsgOk(fields, m) && SaneMessage(fields, m) && i <= |fields|
    ensures EncFrom(fields, m, i).Wrote?
    decreases fields, 0, |fields| - i
  {
    if i < |fields| {
      SaneSlotEncodes(fields[i], m.slots[i], Selected(fields, m, i));
      SaneRestEncodes(fields, m, i + 1);
    }
  }

  /** The encoder refuses no struct whose data is sane as far as it is sent. */
  lemma SaneMessageEncodes(fields: seq<Field>, m: Message)
    requires FieldsOk(fields) && MsgOk(fields, m) && SaneMessage(fields, m)
    ensures EncMessage(fields, m).Wrote?
    decreases fields, 1
  {
    SaneRestEncodes(fields, m, 0);
  }

  lemma CarriedMessageEncodes(fields: seq<Field>, m: Message)
    requires FieldsOk(fields) && MsgOk(fields, m) && CarriedMessage(fields, m)
    ensures EncMessage(fields, m).Wrote?
  {
    CarriedMessageIsSane(fields, m);
    SaneMessageEncodes(fields, m);
  }

  // ----- lengths that the 32-bit length prefix can carry

  predicate Fits(f: Field, v: Value)
    requires FieldOk(f) && ValueOk(f, v)
    decreases f, 0
  {
    assert TypeOk(f);
    f.ltype.Submessage? ==>
      && FitsMessage(f.ltype.fields, v.msg)
      && (EncMessage(f.ltype.fields, v.msg).Wrote? ==> |EncMessage(f.ltype.fields, v.msg).bytes| < TWO32)
  }

  predicate FitsSlot(f: Field, s: Slot, selected: bool)
    requires FieldOk(f) && SlotOk(f, s)
    decreases f, 1
  {
    match s
    case One(v) => (f.htype.Oneof? && !selected) || Unsent(f, v) || Fits(f, v)
    case Opt(has, v) => has ==> Fits(f, v)
    case Many(count, items) =>
      count <= |items| ==>
        if f.ltype.Packable() then PackedFits(f, items, count) else forall j :: 0 <= j < count ==> Fits(f, items[j])
  }

  predicate PackedFits(f: Field, items: seq<Value>, count: nat)
    requires FieldOk(f) && count <= |items| && ItemsOk(f, items)
  {
    EncItems(f, items, 0, count).Wrote? ==> |EncItems(f, items, 0, count).bytes| < TWO32
  }

  /** Every nested message and packed array that is sent encodes to fewer than 2^32 bytes. */
  predicate FitsMessage(fields: seq<Field>, m: Message)
    requires FieldsOk(fields) && MsgOk(fields, m)
    decreases fields
  {
    forall i :: 0 <= i < |fields| ==> FitsSlot(fields[i], m.slots[i], Selected(fields, m, i))
  }

  // ----- structs ready to be decoded into

  /** Nothing present: what `pb_message_set_to_defaults` leaves. */
  predicate Cleared(f: Field, v: Value)
    requires FieldOk(f) && ValueOk(f, v)
    decreases f, 0
  {
    assert TypeOk(f);
    f.ltype.Submessage? ==> ClearedMessage(f.ltype.fields, v.msg)
  }

  /** A proto3-style field that may stay unsent holds its initial value. */
  predicate ClearedSlot(f: Field, s: Slot)
    requires FieldOk(f) && SlotOk(f, s)
    decreases f, 1
  {
    match s
    case One(v) => f.htype.Oneof? || (Cleared(f, v) && (f.Singular() ==> SameValue(f, v, Initial(f))))
    case Opt(has, v) => !has && Cleared(f, v)
    case Many(count, _) => count == 0
  }

  predicate ClearedMessage(fields: seq<Field>, m: Message)
    requires FieldsOk(fields) && MsgOk(fields, m)
    decreases fields
  {
    && (forall i :: 0 <= i < |fields| ==> ClearedSlot(fields[i], m.slots[i]))
    && (forall i :: 0 <= i < |fields| && fields[i].htype.Oneof? ==> Which(m, Group(fields, i)) == 0)
  }

  /** Initialised values differ at most in bytes that are not in use. */
  lemma {:induction false} InitSame(f: Field, v: Value)
    requires FieldOk(f) && ValueOk(f, v)
    ensures SameValue(f, InitValue(f, v), Initial(f))
    decreases f, 0
  {
    assert TypeOk(f);
    if f.ltype.Submessage? {
      DefaultsSame(f.ltype.fields, v.msg);
    } else {
      SameRefl(f, InitValue(f, v));
    }
  }

  lemma {:induction false} InitSlotSame(f: Field, s: Slot)
    requires FieldOk(f) && SlotOk(f, s)
    ensures SameSlot(f, InitSlot(f, s), InitSlot(f, ZeroSlot(f)), false)
    decreases f, 1
  {
    match s
    case One(v) => InitSame(f, v);
    case Opt(_, v) =>
    case Many(_, _) =>
  }

  lemma DefaultsUnselect(fields: seq<Field>, m: Message, i: nat)
    requires FieldsOk(fields) && MsgOk(fields, m) && i < |fields| && fields[i].htype.Oneof?
    ensures Which(Defaults(fields, m), Group(fields, i)) == 0 && !Selected(fields, Defaults(fields, m), i)
  {
    assert Group(fields, i) in Groups(fields, |fields|) && FieldOk(fields[i]);
  }

  lemma {:induction false} DefaultsSame(fields: seq<Field>, m: Message)
    requires FieldsOk(fields) && MsgOk(fields, m)
    ensures SameMessage(fields, Defaults(fields, m), Fresh(fields))
    decreases fields
  {
    var d := Defaults(fields, m);
    forall i | 0 <= i < |fields|
      ensures SameSlot(fields[i], d.slots[i], Fresh(fields).slots[i], Selected(fields, d, i))
    {
      InitSlotSame(fields[i], m.slots[i]);
      if fields[i].htype.Oneof? {
        DefaultsUnselect(fields, m, i);
      }
    }
    forall i | 0 <= i < |fields| && fields[i].htype.Oneof?
      ensures Which(d, Group(fields, i)) == Which(Fresh(fields), Group(fields, i))
    {
      DefaultsUnselect(fields, m, i);
      DefaultsUnselect(fields, ZeroMessage(fields), i);
    }
  }

  lemma {:induction false} InitCleared(f: Field, v: Value)
    requires FieldOk(f) && ValueOk(f, v)
    ensures Cleared(f, InitValue(f, v))
    decreases f, 0
  {
    assert TypeOk(f);
    if f.ltype.Submessage? {
      DefaultsCleared(f.ltype.fields, v.msg);
    }
  }

  lemma {:induction false} InitSlotCleared(f: Field, s: Slot)
    requires FieldOk(f) && SlotOk(f, s)
    ensures ClearedSlot(f, InitSlot(f, s))
    decreases f, 1
  {
    match s
    case One(v) =>
      InitCleared(f, v);
      InitSame(f, v);
    case Opt(_, v) => InitCleared(f, v);
    case Many(_, _) =>
  }

  /** Whatever was in the struct, setting the defaults leaves nothing present, at any depth. */
  lemma {:induction false} DefaultsCleared(fields: seq<Field>, m: Message)
    requires FieldsOk(fields) && MsgOk(fields, m)
    ensures ClearedMessage(fields, Defaults(fields, m))
    decreases fields
  {
    var d := Defaults(fields, m);
    forall i | 0 <= i < |fields| ensures ClearedSlot(fields[i], d.slots[i]) {
      InitSlotCleared(fields[i], m.slots[i]);
    }
    forall i | 0 <= i < |fields| && fields[i].htype.Oneof? ensures Which(d, Group(fields, i)) == 0 {
      DefaultsUnselect(fields, m, i);
    }
  }

  predicate NoDefault(f: Field)
    decreases f, 0
  {
    f.default.NoDefault? && (f.ltype.Submessage? ==> NoDefaults(f.ltype.fields))
  }

  /** No field has a default value, at any depth. */
  predicate NoDefaults(fields: seq<Field>)
    decreases fields
  {
    forall i :: 0 <= i < |fields| ==> NoDefault(fields[i])
  }

  lemma {:induction false} ZeroedSlot(f: Field)
    requires FieldOk(f) && NoDefault(f)
    ensures InitSlot(f, ZeroSlot(f)) == ZeroSlot(f)
    decreases f, 1
  {
    assert TypeOk(f);
    if f.ltype.Submessage? {
      ZeroedIsFresh(f.ltype.fields);
    }
  }

  /** Without default values, clearing the memory does what setting the defaults does, so that
    * pb_decode_noinit may stand in for pb_decode. */
  lemma {:induction false} ZeroedIsFresh(fields: seq<Field>)
    requires FieldsOk(fields) && NoDefaults(fields)
    ensures Fresh(fields) == ZeroMessage(fields)
    decreases fields
  {
    var z := ZeroMessage(fields);
    forall i | 0 <= i < |fields| ensures InitSlot(fields[i], z.slots[i]) == z.slots[i] {
      ZeroedSlot(fields[i]);
    }
    assert Defaults(fields, z).slots == z.slots;
  }
}
