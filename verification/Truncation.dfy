/** Where a message ends: cut off bytes and zero tag words. */
module Truncation {
  import opened Bits
  import opened Wire
  import opened Descriptors
  import opened DecodeSpec
  import opened Records

  // ----- a record cut short

  lemma ExtentExtend(f: Field, wt: WireType, s: seq<Byte>, t: seq<Byte>)
    requires Extent(f, wt, s).Rest?
    ensures Extent(f, wt, s + t) == Rest(Extent(f, wt, s).bytes + t)
  {
    if f.htype.Repeated? && wt.WtString? && f.ltype.Packable() {
      DecPieceExtend(s, t);
    } else if IsInt(f) {
      DecVarintExtend(s, t, 10, TWO64);
    } else if f.ltype.Fixed32? {
      SplitExtend(s, t, 4);
    } else if f.ltype.Fixed64? {
      SplitExtend(s, t, 8);
    } else {
      DecPieceExtend(s, t);
    }
  }

  lemma LeafCut(f: Field, s: seq<Byte>, v: Value)
    requires FieldOk(f) && ValueOk(f, v) && LeafExtent(f, s).NoRest?
    ensures DecValue(f, s, v).Err?
  {
    assert TypeOk(f);
  }

  /** Without a complete payload a field fails. */
  lemma SlotCut(f: Field, wt: WireType, s: seq<Byte>, slot: Slot)
    requires FieldOk(f) && SlotOk(f, slot) && Extent(f, wt, s).NoRest?
    ensures DecSlot(f, wt, s, slot).Err?
  {
    match slot
    case One(v) => LeafCut(f, s, UnionStart(f, v));
    case Opt(_, v) => LeafCut(f, s, v);
    case Many(count, items) =>
      if !(wt.WtString? && f.ltype.Packable()) && count < f.arraySize {
        LeafCut(f, s, items[count]);
      }
  }

  /** A varint that ends within p is a varint of p. */
  lemma SpanWithin(p: seq<Byte>, t: seq<Byte>)
    requires 0 < VarintSpan(p + t) <= |p|
    ensures VarintSpan(p) == VarintSpan(p + t)
  {
    var n := VarintSpan(p + t);
    SpanPrefix(p + t);
    assert (p + t)[..n] == p[..n];
    SpanExtend(p[..n], p[n..]);
    assert p[..n] + p[n..] == p;
  }

  lemma NotEmpty(s: seq<Byte>, t: seq<Byte>)
    requires t != []
    ensures s + t != []
  {
  }

  /** The tag of a record is cut: the end of the message. */
  lemma CutTag(p: seq<Byte>, t: seq<Byte>)
    requires VarintSpan(p) == 0 && DecTag(p + t).Tag?
    ensures DecTag(p) == TagEof([])
  {
    if |p| >= VarintSpan(p + t) {
      SpanWithin(p, t);
    }
  }

  /** The payload of a record is cut. */
  lemma CutPayload(fields: seq<Field>, p: seq<Byte>, t: seq<Byte>, st: State)
    requires FieldsOk(fields) && MsgOk(fields, st.msg) && t != [] && DecTag(p).Tag? && IsRecord(fields, p + t)
    ensures DecRecord(fields, p, st).Fail?
  {
    DecTagExtend(p, t);
    var Tag(wt, tag, rest) := DecTag(p);
    var i := Lookup(fields, tag);
    if i < |fields| {
      var f, slot := fields[i], st.msg.slots[i];
      assert FieldOk(f) && SlotOk(f, slot);
      ExtentCut(f, wt, rest, t);
      SlotCut(f, wt, rest, slot);
      hide DecSlot, Extent, Skip, DecTag, FieldOk, SlotOk, FieldsOk;
    } else {
      SkipCut(wt, rest, t);
      hide DecSlot, Extent, Skip, DecTag, FieldOk, SlotOk, FieldsOk;
    }
  }

  lemma ExtentCut(f: Field, wt: WireType, s: seq<Byte>, t: seq<Byte>)
    requires t != [] && Extent(f, wt, s + t) == Rest([])
    ensures Extent(f, wt, s).NoRest?
  {
    if Extent(f, wt, s).Rest? {
      ExtentExtend(f, wt, s, t);
      NotEmpty(Extent(f, wt, s).bytes, t);
    }
    hide Extent;
  }

  lemma SkipCut(wt: WireType, s: seq<Byte>, t: seq<Byte>)
    requires t != [] && Skip(wt, s + t) == Rest([])
    ensures Skip(wt, s).NoRest?
  {
    if Skip(wt, s).Rest? {
      SkipExtend(wt, s, t);
      NotEmpty(Skip(wt, s).bytes, t);
    }
    hide Skip;
  }

  lemma WholeTag(p: seq<Byte>, t: seq<Byte>)
    requires VarintSpan(p) > 0 && DecTag(p + t).Tag?
    ensures DecTag(p).Tag?
  {
    SpanExtend(p, t);
    SplitExtend(p, t, VarintSpan(p));
  }

  /** What is left of a record that was cut: the loop stops at a cut tag as at the end of the message, and
    * fails at a cut payload. */
  lemma CutRecord(fields: seq<Field>, p: seq<Byte>, t: seq<Byte>, st: State)
    requires FieldsOk(fields) && MsgOk(fields, st.msg) && p != [] && t != [] && IsRecord(fields, p + t)
    ensures if VarintSpan(p) == 0 then DecRecord(fields, p, st) == Stop([]) else DecRecord(fields, p, st).Fail?
  {
    assert DecTag(p + t).Tag?;
    hide DecTag, RecordRest, FieldsOk, MsgOk;
    if VarintSpan(p) == 0 {
      CutTag(p, t);
    } else {
      WholeTag(p, t);
      CutPayload(fields, p, t, st);
    }
  }

  /** Complete records and the beginning p of one more: the cut goes unnoticed exactly when it is in the tag. */
  lemma TruncationNoticed(fields: seq<Field>, a: seq<Byte>, p: seq<Byte>, t: seq<Byte>, st: State)
    requires FieldsOk(fields) && MsgOk(fields, st.msg) && Complete(fields, a) && DecLoop(fields, a, st).Ok?
    requires p != [] && t != [] && IsRecord(fields, p + t)
    ensures DecLoop(fields, a + p, st).Ok? <==> VarintSpan(p) == 0
    ensures VarintSpan(p) == 0 ==> DecLoop(fields, a + p, st) == DecLoop(fields, a, st)
  {
    LoopSplits(fields, a, p, st);
    CutRecord(fields, p, t, DecLoop(fields, a, st).out);
    hide DecRecord, Complete, IsRecord;
  }

  /** The whole message: it is accepted exactly when the cut is in a tag and the required fields came before,
    * and then it is the message of the records before the cut. */
  lemma TruncatedMessage(fields: seq<Field>, a: seq<Byte>, p: seq<Byte>, t: seq<Byte>, m: Message)
    requires FieldsOk(fields) && MsgOk(fields, m) && Complete(fields, a) && DecLoop(fields, a, State(m, {})).Ok?
    requires p != [] && t != [] && IsRecord(fields, p + t)
    ensures DecMessage(fields, a + p, m).Ok? <==>
            VarintSpan(p) == 0 && AllSeen(fields, DecLoop(fields, a, State(m, {})).out.seen)
    ensures VarintSpan(p) == 0 ==> DecMessage(fields, a + p, m) == DecMessage(fields, a, m)
  {
    TruncationNoticed(fields, a, p, t, State(m, {}));
    hide DecLoop, Complete, IsRecord;
  }

  /** A frame that is cut off is always noticed. */
  lemma TruncatedFrame(fields: seq<Field>, s: seq<Byte>, t: seq<Byte>, m: Message)
    requires FieldsOk(fields) && MsgOk(fields, m) && t != [] && DecPiece(s + t).Piece? && DecPiece(s + t).rest == []
    ensures DecDelimited(fields, s, m).Err?
  {
    if DecPiece(s).Piece? {
      DecPieceExtend(s, t);
      NotEmpty(DecPiece(s).rest, t);
    }
  }

  /** A record of an unknown field, number 17: cut in its tag it goes unnoticed, cut behind it not. */
  lemma CutTagExample(m: Message)
    requires MsgOk([], m)
    ensures FieldsOk([]) && IsRecord([], [136] + [1, 0])
    ensures DecMessage([], [136], m) == Ok(m, []) && DecMessage([], [136, 1], m).Err?
  {
    var none: seq<Field> := [];
    assert FieldsOk(none);
    assert [136] + [1, 0] == EncTag(WtVarint, 17) + [0] == [136, 1] + [0];
    TagRoundTrip(WtVarint, 17, [0]);
    assert VarintSpan([136]) == 0 && VarintSpan([136, 1]) == 2;
    var nothing: seq<Byte> := [];
    TruncatedMessage(none, nothing, [136], [1, 0], m);
    TruncatedMessage(none, nothing, [136, 1], [0], m);
    NilLeft([136]);
    NilLeft([136, 1]);
    hide DecMessage;
  }

  // ----- a zero tag word

  /** Behind complete records, what reads as the end ends the message, whatever follows. */
  lemma ZeroWordEnds(fields: seq<Field>, a: seq<Byte>, u: seq<Byte>, st: State)
    requires FieldsOk(fields) && MsgOk(fields, st.msg) && Complete(fields, a) && DecLoop(fields, a, st).Ok?
    requires u != [] && DecTag(u).TagEof?
    ensures DecLoop(fields, a + u, st) == Ok(DecLoop(fields, a, st).out, DecTag(u).rest)
  {
    LoopSplits(fields, a, u, st);
  }

  /** And nothing else leaves bytes unread: a message that is accepted with bytes left over stopped at a zero
    * tag word right before them. */
  lemma {:induction false} UnreadBehindZero(fields: seq<Field>, s: seq<Byte>, st: State) returns (u: seq<Byte>)
    requires FieldsOk(fields) && MsgOk(fields, st.msg) && DecLoop(fields, s, st).Ok?
    requires DecLoop(fields, s, st).rest != []
    ensures |u| <= |s| && u == s[|s| - |u|..]
    ensures DecVarint32(u) == VarintOk(0, DecLoop(fields, s, st).rest)
    decreases |s|
  {
    match DecRecord(fields, s, st)
    case Stop(_) => u := s;
    case More(st', rest) =>
      RecordIsSuffix(fields, s, st);
      u := UnreadBehindZero(fields, rest, st');
  }

  lemma RecordIsSuffix(fields: seq<Field>, s: seq<Byte>, st: State)
    requires FieldsOk(fields) && MsgOk(fields, st.msg) && DecRecord(fields, s, st).More?
    ensures var rest := DecRecord(fields, s, st).rest; |rest| <= |s| && rest == s[|s| - |rest|..]
  {
    var Tag(wt, tag, payload) := DecTag(s);
    var i := Lookup(fields, tag);
    if i < |fields| {
      var f, slot := fields[i], st.msg.slots[i];
      assert FieldOk(f) && SlotOk(f, slot);
      if Extent(f, wt, payload).NoRest? {
        SlotCut(f, wt, payload, slot);
      }
      SlotLocal(f, wt, payload, [], slot);
      ExtentSuffix(f, wt, payload);
      hide DecSlot, Extent, DecTag, FieldOk, SlotOk, FieldsOk;
    }
  }

  lemma ExtentSuffix(f: Field, wt: WireType, s: seq<Byte>)
    ensures var r := Extent(f, wt, s); r.Rest? ==> |r.bytes| <= |s| && r.bytes == s[|s| - |r.bytes|..]
  {
  }

  /** A zero byte in front of a record: accepted, and the record stays unread. */
  lemma ZeroByteExample(m: Message)
    requires MsgOk([], m)
    ensures FieldsOk([]) && DecMessage([], [0, 136, 1, 0], m) == Ok(m, [136, 1, 0])
  {
    var none: seq<Field> := [];
    var nothing: seq<Byte> := [];
    assert FieldsOk(none);
    var u := [0, 136, 1, 0];
    DecEncVarintIn(0, [136, 1, 0], 5, TWO32);
    assert EncVarint(0) + [136, 1, 0] == u;
    ZeroWordEnds(none, nothing, u, State(m, {}));
    NilLeft(u);
  }
}
