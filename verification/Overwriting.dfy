/** Of several records of one field that is neither an array nor a message, the last one counts. */
module Overwriting {
  import opened Wire
  import opened Descriptors
  import opened DecodeSpec
  import opened EncodeSpec
  import opened Same
  import opened Records
  import opened RoundTrip
  import opened Evolution
  import opened Order

  /** A required, optional, proto3-style or union field that is no message. */
  predicate IsSingleLeaf(f: Field) { FieldOk(f) && IsLeaf(f) && !f.htype.Repeated? }

  // ----- what was there before does not matter

  lemma {:induction false} TerminatedAlike(p: seq<Byte>, x: seq<Byte>, y: seq<Byte>)
    ensures CString(p + [0] + x) == CString(p + [0] + y)
  {
    if p != [] {
      assert (p + [0] + x)[1..] == p[1..] + [0] + x && (p + [0] + y)[1..] == p[1..] + [0] + y;
      TerminatedAlike(p[1..], x, y);
    }
  }

  /** Whatever the bytes: acceptance, contents and the bytes left do not depend on the old value. */
  lemma LeafOverwrites(f: Field, s: seq<Byte>, a: Value, b: Value)
    requires FieldOk(f) && IsLeaf(f) && ValueOk(f, a) && ValueOk(f, b)
    ensures var x, y := DecLeaf(f, s, a), DecLeaf(f, s, b);
            && (x.Done? <==> y.Done?)
            && (x.Done? ==> x.rest == y.rest && SameValue(f, x.v, y.v))
  {
    assert TypeOk(f);
    if f.ltype.Bytes? || f.ltype.String? {
      match DecVarint32(s)
      case VarintFail(_) =>
      case VarintOk(size, rest) =>
        if DecLeaf(f, s, a).Done? {
          var p := rest[..size];
          if f.ltype.Bytes? {
            SplitAt(p, a.buf[size..]);
            SplitAt(p, b.buf[size..]);
          } else {
            TerminatedAlike(p, a.buf[size + 1..], b.buf[size + 1..]);
          }
        }
    }
  }

  // ----- the value sent last

  /** Field i is present and holds v. */
  predicate HoldsLeaf(fields: seq<Field>, m: Message, i: nat, v: Value)
    requires MsgOk(fields, m) && i < |fields| && IsSingleLeaf(fields[i]) && ValueOk(fields[i], v)
  {
    assert SlotOk(fields[i], m.slots[i]);
    && SameValue(fields[i], v, m.slots[i].v)
    && (m.slots[i].Opt? ==> m.slots[i].has)
    && (fields[i].htype.Oneof? ==> Selected(fields, m, i))
  }

  /** Field i has received v, and the other fields are as before. */
  predicate Received(fields: seq<Field>, st: State, st': State, i: nat, v: Value)
    requires MsgOk(fields, st.msg) && i < |fields| && IsSingleLeaf(fields[i]) && ValueOk(fields[i], v)
  {
    && MsgOk(fields, st'.msg) && HoldsLeaf(fields, st'.msg, i, v)
    && (forall j :: 0 <= j < |fields| && j != i ==> st'.msg.slots[j] == st.msg.slots[j])
    && st'.seen == if fields[i].htype.Required? then st.seen + {i} else st.seen
  }

  lemma SlotReceives(f: Field, v: Value, slot: Slot, t: seq<Byte>) returns (slot': Slot)
    requires IsSingleLeaf(f) && ValueOk(f, v) && Proper(f, v) && SlotOk(f, slot)
    ensures EncValue(f, v).Wrote? && SlotOk(f, slot') && !slot'.Many? && SameValue(f, v, slot'.v)
    ensures slot'.Opt? ==> slot'.has
    ensures DecSlot(f, FieldWireType(f), EncValue(f, v).bytes + t, slot) == Ok(slot', t)
  {
    assert TypeOk(f);
    hide DecLeaf;
    var r := DecLeaf(f, EncValue(f, v).bytes + t, slot.v);
    LeafRoundTrip(f, v, slot.v, t);
    slot' := if slot.One? then One(r.v) else Opt(true, r.v);
  }

  /** A record of v in front of anything, whatever the struct held: v is there afterwards. */
  lemma LastWins(fields: seq<Field>, i: nat, v: Value, t: seq<Byte>, st: State) returns (st': State)
    requires FieldsOk(fields) && MsgOk(fields, st.msg) && i < |fields| && IsSingleLeaf(fields[i])
    requires ValueOk(fields[i], v) && Proper(fields[i], v)
    ensures EncTagged(fields[i], v).Wrote? && Received(fields, st, st', i, v)
    ensures DecLoop(fields, EncTagged(fields[i], v).bytes + t, st) == DecLoop(fields, t, st')
  {
    hide DecSlot, DecLoop, SameValue, Proper, FieldsOk, ValueOk, EncTag;
    var f := fields[i];
    var slot := SlotReceives(f, v, st.msg.slots[i], t);
    OneRecord(fields, i, FieldWireType(f), EncValue(f, v).bytes, t, st, slot);
    st' := Noting(fields, st, i, slot);
  }

  /** Of two records in a row the second stays. */
  lemma SecondWins(fields: seq<Field>, i: nat, v: Value, w: Value, t: seq<Byte>, st: State) returns (st': State)
    requires FieldsOk(fields) && MsgOk(fields, st.msg) && i < |fields| && IsSingleLeaf(fields[i])
    requires ValueOk(fields[i], v) && Proper(fields[i], v) && ValueOk(fields[i], w) && Proper(fields[i], w)
    ensures EncTagged(fields[i], v).Wrote? && EncTagged(fields[i], w).Wrote? && Received(fields, st, st', i, w)
    ensures DecLoop(fields, EncTagged(fields[i], v).bytes + EncTagged(fields[i], w).bytes + t, st) ==
              DecLoop(fields, t, st')
  {
    hide DecLoop, EncTagged, FieldsOk, MsgOk, SameValue, Proper, ValueOk;
    var st1 := LastWins(fields, i, w, t, st);
    var st2 := LastWins(fields, i, v, EncTagged(fields[i], w).bytes + t, st);
    st' := LastWins(fields, i, w, t, st2);
    Assoc(EncTagged(fields[i], v).bytes, EncTagged(fields[i], w).bytes, t);
  }

  // ----- whole messages

  /** No record of field i or of its union. */
  predicate NoRecordOf(fields: seq<Field>, rs: seq<seq<Byte>>, i: nat)
    requires i < |fields|
  {
    forall j :: 0 <= j < |rs| ==> Key(fields, rs[j]) != KeyOf(fields, i)
  }

  lemma {:induction false} NoneIsNothing(fields: seq<Field>, rs: seq<seq<Byte>>, i: nat)
    requires i < |fields| && NoRecordOf(fields, rs, i)
    ensures Only(fields, rs, KeyOf(fields, i)) == []
  {
    if rs != [] {
      NoneIsNothing(fields, rs[1..], i);
    }
  }

  /** Records of other fields leave field i alone. */
  lemma Untouched(fields: seq<Field>, rs: seq<seq<Byte>>, i: nat, st: State)
    requires FieldsOk(fields) && MsgOk(fields, st.msg) && AllRecords(fields, rs) && i < |fields|
    requires NoRecordOf(fields, rs, i)
    requires Run(fields, rs, st).Ok?
    ensures var m := Run(fields, rs, st).out.msg;
            && m.slots[i] == st.msg.slots[i]
            && (fields[i].htype.Oneof? ==> Which(m, Group(fields, i)) == Which(st.msg, Group(fields, i)))
  {
    hide FieldsOk, SlotOk;
    var k := KeyOf(fields, i);
    NoneIsNothing(fields, rs, i);
    AgreeSelf(fields, st, k);
    Projection(fields, rs, st, st, k);
    assert AgreeAt(Run(fields, rs, st).out, st, i);
  }

  lemma {:induction false} RunAppend(fields: seq<Field>, rs: seq<seq<Byte>>, qs: seq<seq<Byte>>, st: State)
    requires FieldsOk(fields) && MsgOk(fields, st.msg) && AllRecords(fields, rs)
    ensures Run(fields, rs + qs, st) ==
            if Run(fields, rs, st).Ok? then Run(fields, qs, Run(fields, rs, st).out) else Run(fields, rs, st)
  {
    hide DecRecord, FieldsOk, MsgOk;
    if rs == [] {
      assert rs + qs == qs;
    } else {
      RecordLocal(fields, rs[0], [], st);
      assert IsRecord(fields, rs[0]);
      assert (rs + qs)[1..] == rs[1..] + qs && (rs + qs)[0] == rs[0];
      match DecRecord(fields, rs[0], st)
      case More(st', _) => RunAppend(fields, rs[1..], qs, st');
      case _ =>
    }
  }

  lemma SentIsRecord(fields: seq<Field>, i: nat, v: Value)
    requires FieldsOk(fields) && i < |fields| && IsSingleLeaf(fields[i]) && ValueOk(fields[i], v)
    requires Proper(fields[i], v)
    ensures EncTagged(fields[i], v).Wrote? && IsRecord(fields, EncTagged(fields[i], v).bytes)
  {
    var f := fields[i];
    assert TypeOk(f);
    SaneEncodes(f, v);
    LookupFinds(fields, i, f.tag);
    assert Agrees(fields, f) && Sane(f, v) && Fits(f, v);
    TaggedExtent(fields, f, v, []);
    assert EncTagged(f, v).bytes + [] == EncTagged(f, v).bytes;
  }

  /** In any message that is accepted, a field holds what its last record says, unless a later record
    * gives its union to another member. */
  lemma LastRecordCounts(fields: seq<Field>, rs: seq<seq<Byte>>, i: nat, v: Value, qs: seq<seq<Byte>>, m: Message)
    requires FieldsOk(fields) && MsgOk(fields, m) && AllRecords(fields, rs) && AllRecords(fields, qs)
    requires i < |fields| && IsSingleLeaf(fields[i]) && ValueOk(fields[i], v) && Proper(fields[i], v)
    requires NoRecordOf(fields, qs, i) && EncTagged(fields[i], v).Wrote?
    ensures var r := DecMessage(fields, Concat(rs + ([EncTagged(fields[i], v).bytes] + qs)), m);
            r.Ok? ==> HoldsLeaf(fields, r.out, i, v)
  {
    hide DecLoop, DecMessage, DecRecord, Run, EncTagged, IsRecord, HoldsLeaf, Proper, FieldsOk, FieldOk, ValueOk,
        IsLeaf;
    var r, st := EncTagged(fields[i], v).bytes, State(m, {});
    SentIsRecord(fields, i, v);
    LoopOutcome(fields, rs + ([r] + qs), m);
    RunAppend(fields, rs, [r] + qs, st);
    if Run(fields, rs + ([r] + qs), st).Ok? {
      HeldAtEnd(fields, i, v, qs, Run(fields, rs, st).out);
    }
  }

  lemma HeldAtEnd(fields: seq<Field>, i: nat, v: Value, qs: seq<seq<Byte>>, st: State)
    requires FieldsOk(fields) && MsgOk(fields, st.msg) && AllRecords(fields, qs)
    requires i < |fields| && IsSingleLeaf(fields[i]) && ValueOk(fields[i], v) && Proper(fields[i], v)
    requires EncTagged(fields[i], v).Wrote?
    requires NoRecordOf(fields, qs, i) && Run(fields, [EncTagged(fields[i], v).bytes] + qs, st).Ok?
    ensures HoldsLeaf(fields, Run(fields, [EncTagged(fields[i], v).bytes] + qs, st).out.msg, i, v)
  {
    hide DecLoop, DecRecord, Run, EncTagged, IsRecord, HoldsLeaf, Proper, FieldsOk, FieldOk, ValueOk, IsLeaf;
    var r := EncTagged(fields[i], v).bytes;
    SentIsRecord(fields, i, v);
    RunAppend(fields, [r], qs, st);
    var st' := LastWins(fields, i, v, [], st);
    AloneRuns(fields, r, st);
    LoopEnds(fields, st');
    assert r + [] == r;
    Untouched(fields, qs, i, st');
    HeldStays(fields, st'.msg, Run(fields, qs, st').out.msg, i, v);
  }

  lemma LoopEnds(fields: seq<Field>, st: State)
    requires FieldsOk(fields) && MsgOk(fields, st.msg)
    ensures DecLoop(fields, [], st) == Ok(st, [])
  {
  }

  lemma HeldStays(fields: seq<Field>, a: Message, b: Message, i: nat, v: Value)
    requires MsgOk(fields, a) && MsgOk(fields, b) && i < |fields| && IsSingleLeaf(fields[i]) && ValueOk(fields[i], v)
    requires HoldsLeaf(fields, a, i, v) && a.slots[i] == b.slots[i]
    requires fields[i].htype.Oneof? ==> Which(a, Group(fields, i)) == Which(b, Group(fields, i))
    ensures HoldsLeaf(fields, b, i, v)
  {
    hide SameValue, FieldOk;
  }

  lemma AloneRuns(fields: seq<Field>, r: seq<Byte>, st: State)
    requires FieldsOk(fields) && MsgOk(fields, st.msg) && IsRecord(fields, r)
    ensures Run(fields, [r], st) == DecLoop(fields, r, st)
  {
    assert Concat([r]) == r;
    LoopIsRun(fields, [r], st);
  }

  lemma LoopOutcome(fields: seq<Field>, rs: seq<seq<Byte>>, m: Message)
    requires FieldsOk(fields) && MsgOk(fields, m) && AllRecords(fields, rs)
    ensures var r := DecMessage(fields, Concat(rs), m);
            r.Ok? ==> Run(fields, rs, State(m, {})).Ok? && r.out == Run(fields, rs, State(m, {})).out.msg
  {
    LoopIsRun(fields, rs, State(m, {}));
    hide DecLoop, FieldsOk, MsgOk;
  }
}
