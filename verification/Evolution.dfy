/** What pb_encode writes is a string of complete records for any reader that knows the same fields or
  * fewer. So concatenated encodings merge. */
module Evolution {
  import opened Bits
  import opened Wire
  import opened Descriptors
  import opened DecodeSpec
  import opened EncodeSpec
  import opened Same
  import opened Records
  import opened RoundTrip

  /** The reader either has the very same field or none with its tag. */
  predicate Agrees(reader: seq<Field>, f: Field) {
    var j := Lookup(reader, f.tag);
    j < |reader| ==> reader[j] == f
  }

  predicate Knows(reader: seq<Field>, f: Field) { Lookup(reader, f.tag) < |reader| }

  // ----- encoded values reach exactly as far as any reader thinks

  lemma PieceExtent(p: seq<Byte>, t: seq<Byte>)
    requires |p| < TWO32
    ensures PieceRest(EncPiece(p) + t) == Rest(t) && Skip(WtString, EncPiece(p) + t) == Rest(t)
  {
    PieceRoundTrip(p, t);
  }

  lemma NumberExtent(f: Field, v: Value, t: seq<Byte>)
    requires FieldOk(f) && ValueOk(f, v) && f.ltype.Packable()
    ensures EncValue(f, v).Wrote?
    ensures LeafExtent(f, EncValue(f, v).bytes + t) == Rest(t)
    ensures Skip(FieldWireType(f), EncValue(f, v).bytes + t) == Rest(t)
  {
    assert TypeOk(f);
    Pow2Values();
    SplitAt(EncValue(f, v).bytes, t);
    if f.ltype.UVarint? {
      Pow2Mono(8 * f.dataSize, 64);
      VarintRoundTrip(v.i, t);
    } else if f.ltype.Varint? {
      VarintRoundTrip(v.i % TWO64, t);
    } else if f.ltype.SVarint? {
      Pow2Mono(8 * f.dataSize - 1, 63);
      assert Pow2(64) == 2 * Pow2(63);
      VarintRoundTrip(ZigZag(v.i), t);
    }
  }

  lemma ValueExtent(f: Field, v: Value, t: seq<Byte>)
    requires FieldOk(f) && ValueOk(f, v) && Fits(f, v) && EncValue(f, v).Wrote?
    ensures LeafExtent(f, EncValue(f, v).bytes + t) == Rest(t)
    ensures Skip(FieldWireType(f), EncValue(f, v).bytes + t) == Rest(t)
  {
    assert TypeOk(f);
    if f.ltype.Packable() {
      NumberExtent(f, v, t);
    } else if f.ltype.Bytes? {
      PieceExtent(v.buf[..v.size], t);
    } else if f.ltype.String? {
      PieceExtent(CString(v.buf), t);
    } else if f.ltype.FixedLengthBytes? {
      PieceExtent(v.buf, t);
    } else {
      PieceExtent(EncMessage(f.ltype.fields, v.msg).bytes, t);
    }
  }

  /** A record of field f in front of t: a reader that agrees with f sees where it ends, one that does not
    * know f steps over it. */
  ghost predicate OneRecordOf(reader: seq<Field>, r: seq<Byte>, t: seq<Byte>, known: bool)
    requires FieldsOk(reader)
  {
    && RecordRest(reader, r + t) == Rest(t)
    && (!known ==> forall st: State | MsgOk(reader, st.msg) :: DecRecord(reader, r + t, st) == More(st, t))
  }

  lemma TagAndPayload(reader: seq<Field>, f: Field, wt: WireType, payload: seq<Byte>, t: seq<Byte>)
    requires FieldsOk(reader) && FieldOk(f) && Agrees(reader, f) && !wt.WtInvalid?
    requires Extent(f, wt, payload + t) == Rest(t) && Skip(wt, payload + t) == Rest(t)
    ensures OneRecordOf(reader, EncTag(wt, f.tag) + payload, t, Knows(reader, f))
  {
    TagRoundTrip(wt, f.tag, payload + t);
    Assoc(EncTag(wt, f.tag), payload, t);
    hide Extent, Skip, DecTag, EncTag;
  }

  lemma TaggedExtent(reader: seq<Field>, f: Field, v: Value, t: seq<Byte>)
    requires FieldsOk(reader) && FieldOk(f) && Agrees(reader, f) && ValueOk(f, v) && Fits(f, v)
    requires EncTagged(f, v).Wrote?
    requires f.ltype.Packable() ==> !f.htype.Repeated?
    ensures OneRecordOf(reader, EncTagged(f, v).bytes, t, Knows(reader, f))
  {
    ValueExtent(f, v, t);
    TagAndPayload(reader, f, FieldWireType(f), EncValue(f, v).bytes, t);
  }

  /** Records in front of t: complete if t is, and stepped over by a reader that does not know the field. */
  ghost predicate RecordsOf(reader: seq<Field>, rs: seq<Byte>, t: seq<Byte>, known: bool)
    requires FieldsOk(reader)
  {
    && (Complete(reader, t) ==> Complete(reader, rs + t))
    && (!known ==> forall st: State | MsgOk(reader, st.msg) :: DecLoop(reader, rs + t, st) == DecLoop(reader, t, st))
  }

  lemma NoRecords(reader: seq<Field>, t: seq<Byte>, known: bool)
    requires FieldsOk(reader)
    ensures RecordsOf(reader, [], t, known)
  {
    NilLeft(t);
  }

  lemma RecordFirst(reader: seq<Field>, r: seq<Byte>, rs: seq<Byte>, t: seq<Byte>, known: bool)
    requires FieldsOk(reader) && OneRecordOf(reader, r, rs + t, known) && RecordsOf(reader, rs, t, known)
    ensures RecordsOf(reader, r + rs, t, known)
  {
    Assoc(r, rs, t);
    hide DecRecord, RecordRest;
  }

  lemma {:induction false} ItemsExtent(reader: seq<Field>, f: Field, items: seq<Value>, k: nat, count: nat,
                                       t: seq<Byte>)
    requires FieldsOk(reader) && FieldOk(f) && Agrees(reader, f) && !f.ltype.Packable()
    requires k <= count <= |items| && ItemsOk(f, items) && AllFit(f, items, count)
    requires EncTaggedItems(f, items, k, count).Wrote?
    ensures RecordsOf(reader, EncTaggedItems(f, items, k, count).bytes, t, Knows(reader, f))
    decreases count - k
  {
    hide RecordsOf, OneRecordOf, Fits, Agrees, Knows;
    if k == count {
      NoRecords(reader, t, Knows(reader, f));
    } else {
      var rest := EncTaggedItems(f, items, k + 1, count).bytes;
      assert Fits(f, items[k]);
      TaggedExtent(reader, f, items[k], rest + t);
      ItemsExtent(reader, f, items, k + 1, count, t);
      RecordFirst(reader, EncTagged(f, items[k]).bytes, rest, t, Knows(reader, f));
    }
  }

  lemma AloneRecord(reader: seq<Field>, r: seq<Byte>, t: seq<Byte>, known: bool)
    requires FieldsOk(reader) && OneRecordOf(reader, r, t, known)
    ensures RecordsOf(reader, r, t, known)
  {
    hide DecRecord, RecordRest;
  }

  lemma SlotExtent(reader: seq<Field>, f: Field, s: Slot, selected: bool, t: seq<Byte>)
    requires FieldsOk(reader) && FieldOk(f) && Agrees(reader, f) && SlotOk(f, s) && FitsSlot(f, s, selected)
    requires EncSlot(f, s, selected).Wrote?
    ensures RecordsOf(reader, EncSlot(f, s, selected).bytes, t, Knows(reader, f))
  {
    hide RecordsOf, OneRecordOf, Agrees, Knows;
    NoRecords(reader, t, Knows(reader, f));
    if EncSlot(f, s, selected) != Wrote([]) {
      match s
      case One(v) =>
        TaggedExtent(reader, f, v, t);
        AloneRecord(reader, EncTagged(f, v).bytes, t, Knows(reader, f));
      case Opt(_, v) =>
        TaggedExtent(reader, f, v, t);
        AloneRecord(reader, EncTagged(f, v).bytes, t, Knows(reader, f));
      case Many(count, items) =>
        if f.ltype.Packable() {
          var p := EncItems(f, items, 0, count).bytes;
          PieceExtent(p, t);
          TagAndPayload(reader, f, WtString, EncPiece(p), t);
          AloneRecord(reader, EncTag(WtString, f.tag) + EncPiece(p), t, Knows(reader, f));
        } else {
          ItemsExtent(reader, f, items, 0, count, t);
        }
    }
  }

  predicate AllAgree(reader: seq<Field>, fields: seq<Field>) {
    forall i :: 0 <= i < |fields| ==> Agrees(reader, fields[i])
  }

  lemma {:induction false} RestComplete(reader: seq<Field>, fields: seq<Field>, m: Message, i: nat)
    requires FieldsOk(reader) && FieldsOk(fields) && AllAgree(reader, fields) && MsgOk(fields, m)
    requires FitsMessage(fields, m)
    requires i <= |fields| && EncFrom(fields, m, i).Wrote?
    ensures Complete(reader, EncFrom(fields, m, i).bytes)
    decreases |fields| - i
  {
    if i < |fields| {
      RestComplete(reader, fields, m, i + 1);
      assert FieldOk(fields[i]) && FitsSlot(fields[i], m.slots[i], Selected(fields, m, i));
      SlotExtent(reader, fields[i], m.slots[i], Selected(fields, m, i), EncFrom(fields, m, i + 1).bytes);
    }
  }

  /** An encoded message is a string of complete records, for its own descriptors and for every reader
    * that agrees on the fields it knows. */
  lemma EncodedIsComplete(reader: seq<Field>, fields: seq<Field>, m: Message)
    requires FieldsOk(reader) && FieldsOk(fields) && AllAgree(reader, fields) && MsgOk(fields, m)
    requires FitsMessage(fields, m)
    requires EncMessage(fields, m).Wrote?
    ensures Complete(reader, EncMessage(fields, m).bytes)
  {
    RestComplete(reader, fields, m, 0);
  }

  /** Decoding two encodings one behind the other is decoding one and then the other into the result. */
  lemma EncodingsMerge(fields: seq<Field>, a: Message, b: seq<Byte>, m: Message)
    requires FieldsOk(fields) && NoRequired(fields) && MsgOk(fields, a) && MsgOk(fields, m) && FitsMessage(fields, a)
    requires EncMessage(fields, a).Wrote?
    ensures var first := EncMessage(fields, a).bytes;
            DecMessage(fields, first + b, m) ==
            if DecMessage(fields, first, m).Ok? then DecMessage(fields, b, DecMessage(fields, first, m).out)
            else DecMessage(fields, first, m)
  {
    SelfAgrees(fields);
    EncodedIsComplete(fields, fields, a);
    MergingPlain(fields, EncMessage(fields, a).bytes, b, m);
  }

  lemma SelfAgrees(fields: seq<Field>)
    requires FieldsOk(fields)
    ensures AllAgree(fields, fields)
  {
    forall i | 0 <= i < |fields| ensures Agrees(fields, fields[i]) {
      LookupFinds(fields, i, fields[i].tag);
    }
  }
}
