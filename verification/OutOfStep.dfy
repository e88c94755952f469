/** When a frame whose body fails leaves its stream out of step. */
module OutOfStep {
  import opened Bits
  import opened Wire
  import opened Descriptors
  import opened DecodeSpec
  import opened EncodeSpec
  import opened Integers
  import opened Same

  // ----- which packed payloads are read to their end

  /** The number at the head of p, modulo 2^64. */
  function Number(p: seq<Byte>): nat { Base128(p[..VarintSpan(p)]) % TWO64 }

  /** The element at the head of p is complete and its number fits the field. */
  predicate Fine(f: Field, p: seq<Byte>)
    requires FieldOk(f) && f.ltype.Packable()
  {
    assert TypeOk(f);
    match f.ltype
    case Fixed32 => |p| >= 4
    case Fixed64 => |p| >= 8
    case UVarint => 0 < VarintSpan(p) <= 10 && Number(p) < Pow2(8 * f.dataSize)
    case SVarint => 0 < VarintSpan(p) <= 10 && FitsSigned(UnZigZag(Number(p)), 8 * f.dataSize)
    case Varint => 0 < VarintSpan(p) <= 10 && (f.dataSize >= 4 || FitsSigned(ToSigned(Number(p), 32), 8 * f.dataSize))
  }

  /** A bad last number that leaves no byte behind: cut off within ten bytes, or out of range. */
  predicate Spent(f: Field, p: seq<Byte>) {
    IsInt(f) && |p| <= 10 && (VarintSpan(p) == 0 || VarintSpan(p) == |p|)
  }

  function Behind(f: Field, p: seq<Byte>): (r: seq<Byte>)
    requires FieldOk(f) && f.ltype.Packable() && Fine(f, p)
    ensures |r| < |p|
  {
    if f.ltype.Fixed32? then p[4..] else if f.ltype.Fixed64? then p[8..] else p[VarintSpan(p)..]
  }

  /** At most `room` fine elements, or fewer and then a bad one that uses up the rest. */
  predicate ReadsAll(f: Field, p: seq<Byte>, room: nat)
    requires FieldOk(f) && f.ltype.Packable()
    decreases |p|
  {
    p == [] || (room > 0 && if Fine(f, p) then ReadsAll(f, Behind(f, p), room - 1) else Spent(f, p))
  }

  function Room(f: Field, count: nat): nat { if count < f.arraySize then f.arraySize - count else 0 }

  lemma FineIsDone(f: Field, p: seq<Byte>, v: Value)
    requires FieldOk(f) && f.ltype.Packable() && ValueOk(f, v) && p != []
    ensures var r := DecLeaf(f, p, v);
            if Fine(f, p) then r.Done? && r.rest == Behind(f, p) else r.Failed? && (r.rest == [] <==> Spent(f, p))
  {
    assert TypeOk(f);
    if IsInt(f) {
      if DecVarint64(p).VarintOk? {
        IntAccepts(f, p, v);
      }
    }
  }

  /** The packed loop uses up its payload exactly when the payload is such a string of elements, whatever the
    * array holds. */
  lemma {:induction false} LeftIffBytes(f: Field, p: seq<Byte>, count: nat, items: seq<Value>)
    requires FieldOk(f) && f.ltype.Packable() && |items| == f.arraySize && ItemsOk(f, items)
    ensures DecElements(f, p, count, items).left == 0 <==> ReadsAll(f, p, Room(f, count))
    decreases |p|
  {
    if p != [] && count < f.arraySize {
      FineIsDone(f, p, items[count]);
      assert Room(f, count + 1) == Room(f, count) - 1;
      hide DecLeaf, Fine, Behind, Spent, FieldOk, ValueOk, Room;
      var r := DecLeaf(f, p, items[count]);
      if r.Done? {
        LeftIffBytes(f, r.rest, count + 1, items[count := r.v]);
      }
    }
  }

  // ----- the record that leaves the parent behind

  /** A packed array that is not read to its end, or a message whose body is stuck. */
  predicate StuckSlot(f: Field, wt: WireType, s: seq<Byte>, slot: Slot)
    requires FieldOk(f) && SlotOk(f, slot)
    decreases |s|, 2
  {
    match slot
    case One(v) => StuckValue(f, s, UnionStart(f, v))
    case Opt(_, v) => StuckValue(f, s, v)
    case Many(count, items) =>
      if wt.WtString? && f.ltype.Packable() then
        DecPiece(s).Piece? && !ReadsAll(f, DecPiece(s).payload, Room(f, count))
      else count < f.arraySize && StuckValue(f, s, items[count])
  }

  predicate StuckValue(f: Field, s: seq<Byte>, v: Value)
    requires FieldOk(f) && ValueOk(f, v)
    decreases |s|, 1
  {
    assert TypeOk(f);
    f.ltype.Submessage? && DecPiece(s).Piece? &&
    Stuck(f.ltype.fields, DecPiece(s).payload,
          State(if f.htype.Repeated? then Defaults(f.ltype.fields, v.msg) else v.msg, {}))
  }

  /** Behind records that decode stands such a record. */
  predicate Stuck(fields: seq<Field>, s: seq<Byte>, st: State)
    requires FieldsOk(fields) && MsgOk(fields, st.msg)
    decreases |s|, 3
  {
    StuckRecord(fields, s, st) ||
    (s != [] && match DecRecord(fields, s, st) case More(st', rest) => Stuck(fields, rest, st') case _ => false)
  }

  predicate StuckRecord(fields: seq<Field>, s: seq<Byte>, st: State)
    requires FieldsOk(fields) && MsgOk(fields, st.msg)
    decreases |s|, 3, 0
  {
    match DecTag(s)
    case Tag(wt, tag, rest) =>
      (var i := Lookup(fields, tag); i < |fields| && StuckSlot(fields[i], wt, rest, st.msg.slots[i]))
    case _ => false
  }

  lemma {:induction false} ValueLag(f: Field, s: seq<Byte>, v: Value)
    requires FieldOk(f) && ValueOk(f, v)
    ensures DecValue(f, s, v).Err? && DecValue(f, s, v).lag > 0 <==> StuckValue(f, s, v)
    decreases |s|, 1
  {
    assert TypeOk(f);
    if f.ltype.Submessage? && DecPiece(s).Piece? {
      MessageLag(f.ltype.fields, DecPiece(s).payload,
                 if f.htype.Repeated? then Defaults(f.ltype.fields, v.msg) else v.msg);
    }
  }

  lemma {:induction false} SlotLag(f: Field, wt: WireType, s: seq<Byte>, slot: Slot)
    requires FieldOk(f) && SlotOk(f, slot)
    ensures DecSlot(f, wt, s, slot).Err? && DecSlot(f, wt, s, slot).lag > 0 <==> StuckSlot(f, wt, s, slot)
    decreases |s|, 2
  {
    match slot
    case One(v) => ValueLag(f, s, UnionStart(f, v));
    case Opt(_, v) => ValueLag(f, s, v);
    case Many(count, items) =>
      if wt.WtString? && f.ltype.Packable() {
        if DecPiece(s).Piece? {
          var p := DecPiece(s).payload;
          LeftWithin(f, p, count, items);
          LeftIffBytes(f, p, count, items);
        }
      } else if count < f.arraySize {
        ValueLag(f, s, items[count]);
      }
  }

  lemma {:induction false} LeftWithin(f: Field, p: seq<Byte>, count: nat, items: seq<Value>)
    requires f.ltype.Packable() && FieldOk(f) && |items| == f.arraySize && ItemsOk(f, items)
    ensures DecElements(f, p, count, items).left <= |p|
    decreases |p|
  {
    if p != [] && count < f.arraySize {
      match DecLeaf(f, p, items[count])
      case Done(v, rest) => LeftWithin(f, rest, count + 1, items[count := v]);
      case Failed(_, _) =>
    }
  }

  lemma {:induction false} RecordLag(fields: seq<Field>, s: seq<Byte>, st: State)
    requires FieldsOk(fields) && MsgOk(fields, st.msg)
    ensures DecRecord(fields, s, st).Fail? && DecRecord(fields, s, st).lag > 0 <==> StuckRecord(fields, s, st)
    decreases |s|, 3
  {
    if DecTag(s).Tag? {
      var i := Lookup(fields, DecTag(s).tag);
      if i < |fields| {
        assert FieldOk(fields[i]) && SlotOk(fields[i], st.msg.slots[i]);
        SlotLag(fields[i], DecTag(s).wt, DecTag(s).rest, st.msg.slots[i]);
      }
    }
  }

  lemma {:induction false} LoopLag(fields: seq<Field>, s: seq<Byte>, st: State)
    requires FieldsOk(fields) && MsgOk(fields, st.msg)
    ensures DecLoop(fields, s, st).Err? && DecLoop(fields, s, st).lag > 0 <==> Stuck(fields, s, st)
    decreases |s|, 4
  {
    RecordLag(fields, s, st);
    if s != [] {
      match DecRecord(fields, s, st)
      case More(st', rest) => LoopLag(fields, rest, st');
      case Fail(_, _) =>
      case Stop(_) =>
    }
  }

  lemma {:induction false} MessageLag(fields: seq<Field>, s: seq<Byte>, m: Message)
    requires FieldsOk(fields) && MsgOk(fields, m)
    ensures DecMessage(fields, s, m).Err? && DecMessage(fields, s, m).lag > 0 <==> Stuck(fields, s, State(m, {}))
    decreases |s|, 5
  {
    LoopLag(fields, s, State(m, {}));
  }

  /** After a failed frame the parent lags behind the end of the frame exactly when, behind records that
    * decode, the body has a packed array that `ReadsAll` refuses. */
  lemma FrameInStep(fields: seq<Field>, s: seq<Byte>, m: Message)
    requires FieldsOk(fields) && MsgOk(fields, m) && DecPiece(s).Piece? && DecDelimited(fields, s, m).Err?
    ensures DecDelimited(fields, s, m).lag == 0 <==> !Stuck(fields, DecPiece(s).payload, State(Defaults(fields, m), {}))
  {
    MessageLag(fields, DecPiece(s).payload, Defaults(fields, m));
  }

  // ----- which descriptors are safe

  /** A packable array at any depth that decoding can reach. */
  predicate CanLagAt(f: Field)
    decreases f, 0
  {
    || (f.htype.Repeated? && f.ltype.Packable())
    || (f.ltype.Submessage? && (f.htype.Repeated? ==> f.arraySize > 0) && CanLag(f.ltype.fields))
  }

  predicate CanLag(fields: seq<Field>)
    decreases fields
  {
    exists i :: 0 <= i < |fields| && CanLagAt(fields[i])
  }

  lemma {:induction false} ValueSafe(f: Field, s: seq<Byte>, v: Value)
    requires FieldOk(f) && ValueOk(f, v) && (f.ltype.Submessage? ==> !CanLag(f.ltype.fields))
    ensures !StuckValue(f, s, v)
    decreases |s|, 1
  {
    assert TypeOk(f);
    if f.ltype.Submessage? && DecPiece(s).Piece? {
      MessageSafe(f.ltype.fields, DecPiece(s).payload,
                  State(if f.htype.Repeated? then Defaults(f.ltype.fields, v.msg) else v.msg, {}));
    }
  }

  lemma {:induction false} SlotSafe(f: Field, wt: WireType, s: seq<Byte>, slot: Slot)
    requires FieldOk(f) && SlotOk(f, slot) && !CanLagAt(f)
    ensures !StuckSlot(f, wt, s, slot)
    decreases |s|, 2
  {
    match slot
    case One(v) => ValueSafe(f, s, UnionStart(f, v));
    case Opt(_, v) => ValueSafe(f, s, v);
    case Many(count, items) =>
      assert !f.ltype.Packable();
      if count < f.arraySize {
        ValueSafe(f, s, items[count]);
      }
  }

  lemma {:induction false} MessageSafe(fields: seq<Field>, s: seq<Byte>, st: State)
    requires FieldsOk(fields) && MsgOk(fields, st.msg) && !CanLag(fields)
    ensures !Stuck(fields, s, st)
    decreases |s|, 4
  {
    if DecTag(s).Tag? {
      var i := Lookup(fields, DecTag(s).tag);
      if i < |fields| {
        assert FieldOk(fields[i]) && SlotOk(fields[i], st.msg.slots[i]) && !CanLagAt(fields[i]);
        SlotSafe(fields[i], DecTag(s).wt, DecTag(s).rest, st.msg.slots[i]);
      }
    }
    hide StuckSlot, DecTag, FieldOk, SlotOk;
    if s != [] {
      match DecRecord(fields, s, st)
      case More(st', rest) => MessageSafe(fields, rest, st');
      case _ =>
    }
  }

  /** Without such an array, every failed frame leaves its stream at the end of the frame. */
  lemma NeverLags(fields: seq<Field>, s: seq<Byte>, m: Message)
    requires FieldsOk(fields) && MsgOk(fields, m) && !CanLag(fields)
    ensures DecDelimited(fields, s, m).Err? ==> DecDelimited(fields, s, m).lag == 0
  {
    if DecPiece(s).Piece? {
      var p := DecPiece(s).payload;
      MessageSafe(fields, p, State(Defaults(fields, m), {}));
      MessageLag(fields, p, Defaults(fields, m));
    }
  }

  // Eleven bytes that are neither a number nor a whole count of words.
  const ELEVEN: seq<Byte> := [128, 128, 128, 128, 128, 128, 128, 128, 128, 128, 128]

  function FirstLagging(fields: seq<Field>): (i: nat)
    requires CanLag(fields)
    ensures i < |fields| && CanLagAt(fields[i])
  {
    if CanLagAt(fields[0]) then 0 else
      assert CanLag(fields[1..]) by {
        var j :| 0 <= j < |fields| && CanLagAt(fields[j]);
        assert fields[1..][j - 1] == fields[j];
      }
      1 + FirstLagging(fields[1..])
  }

  /** A body that lags, for any descriptors that can. */
  function Witness(fields: seq<Field>): seq<Byte>
    requires CanLag(fields)
    decreases fields
  {
    WitnessAt(fields[FirstLagging(fields)])
  }

  function WitnessAt(f: Field): (s: seq<Byte>)
    requires CanLagAt(f)
    decreases f
  {
    EncTag(WtString, f.tag) + EncPiece(if f.ltype.Packable() then ELEVEN else Witness(f.ltype.fields))
  }

  lemma ElevenSticks(f: Field, room: nat)
    requires FieldOk(f) && f.ltype.Packable()
    ensures !ReadsAll(f, ELEVEN, room)
  {
    SpanOfContinuations(ELEVEN, []);
    assert ELEVEN + [] == ELEVEN;
    if f.ltype.Fixed32? && room > 1 {
      assert Behind(f, ELEVEN) == ELEVEN[4..] && Behind(f, ELEVEN[4..]) == ELEVEN[8..];
      assert !ReadsAll(f, ELEVEN[8..], room - 2);
    }
  }

  lemma PieceAlone(p: seq<Byte>)
    requires |p| < TWO32
    ensures DecPiece(EncPiece(p)) == Piece(p, [])
  {
    PieceRoundTrip(p, []);
    assert EncPiece(p) + [] == EncPiece(p);
  }

  /** A body that sticks, in the slot of a message in which nothing is present. */
  lemma {:induction false} NestedSticks(f: Field, slot: Slot)
    requires FieldOk(f) && SlotOk(f, slot) && ClearedSlot(f, slot)
    requires f.ltype.Submessage? && (f.htype.Repeated? ==> f.arraySize > 0) && CanLag(f.ltype.fields)
    requires |Witness(f.ltype.fields)| < TWO32
    ensures StuckSlot(f, WtString, EncPiece(Witness(f.ltype.fields)), slot)
    decreases f, 0
  {
    assert TypeOk(f);
    var sub := f.ltype.fields;
    var start := if slot.Many? then slot.items[0] else if slot.One? then UnionStart(f, slot.v) else slot.v;
    assert ValueOk(f, start);
    var m := if f.htype.Repeated? then Defaults(sub, start.msg) else start.msg;
    DefaultsCleared(sub, start.msg);
    DefaultsCleared(sub, ZeroMessage(sub));
    WitnessSticks(sub, State(m, {}));
    PieceAlone(Witness(sub));
    hide Stuck, Witness, ClearedMessage, DecPiece, EncPiece;
  }

  lemma {:induction false} WitnessSticks(fields: seq<Field>, st: State)
    requires FieldsOk(fields) && MsgOk(fields, st.msg) && ClearedMessage(fields, st.msg)
    requires CanLag(fields) && |Witness(fields)| < TWO32
    ensures Stuck(fields, Witness(fields), st)
    decreases fields
  {
    var i := FirstLagging(fields);
    var f, slot := fields[i], st.msg.slots[i];
    assert FieldOk(f) && SlotOk(f, slot) && ClearedSlot(f, slot);
    var p := if f.ltype.Packable() then ELEVEN else Witness(f.ltype.fields);
    assert Witness(fields) == EncTag(WtString, f.tag) + EncPiece(p);
    TagRoundTrip(WtString, f.tag, EncPiece(p));
    LookupFinds(fields, i, f.tag);
    if f.ltype.Packable() {
      PieceAlone(p);
      ElevenSticks(f, Room(f, slot.count));
      assert StuckSlot(f, WtString, EncPiece(p), slot);
    } else {
      NestedSticks(f, slot);
    }
    hide StuckSlot, EncTag, EncPiece, DecTag, Witness, ClearedMessage, FieldOk, SlotOk, DecRecord;
  }

  /** With such an array, some frame fails and leaves its stream short of its end, whatever the struct held. */
  lemma WitnessLags(fields: seq<Field>, m: Message)
    requires FieldsOk(fields) && MsgOk(fields, m) && CanLag(fields) && |Witness(fields)| < TWO32
    ensures var r := DecDelimited(fields, EncPiece(Witness(fields)), m); r.Err? && r.lag > 0
  {
    var p := Witness(fields);
    PieceAlone(p);
    DefaultsCleared(fields, m);
    WitnessSticks(fields, State(Defaults(fields, m), {}));
    MessageLag(fields, p, Defaults(fields, m));
  }

  // An array of one unsigned number, and a frame that packs two of them.
  const ONE_UINT: Field := Field(1, Repeated, Static, UVarint, 4, -4, 4, 1, NoDefault)
  const ONE_SLOT: Slot := Many(0, [IntV(0)])
  const ONE_MSG: Message := Message([ONE_SLOT], map[])

  lemma OneUintOk()
    ensures FieldOk(ONE_UINT) && IntOk(ONE_UINT, 0) && IntOk(ONE_UINT, 1) && SlotOk(ONE_UINT, ONE_SLOT)
    ensures FieldsOk([ONE_UINT]) && MsgOk([ONE_UINT], ONE_MSG)
    ensures Defaults([ONE_UINT], ONE_MSG) == ONE_MSG
  {
    Pow2Values();
    assert 8 * ONE_UINT.dataSize == 32;
    assert TypeOk(ONE_UINT);
    assert FieldOk(ONE_UINT);
    assert RequiredBefore([ONE_UINT], 1) == 0;
    assert ValueOk(ONE_UINT, IntV(0));
    assert Groups([ONE_UINT], 1) == {};
    assert Defaults([ONE_UINT], ONE_MSG).slots == [ONE_SLOT];
  }

  lemma SmallPieces()
    ensures DecPiece([2, 1, 2]) == Piece([1, 2], [])
    ensures DecPiece([4, 10, 2, 1, 2]) == Piece([10, 2, 1, 2], [])
    ensures DecTag([10, 2, 1, 2]) == Tag(WtString, 1, [2, 1, 2])
  {
    assert EncPiece([1, 2]) + [] == [2, 1, 2];
    PieceRoundTrip([1, 2], []);
    assert EncPiece([10, 2, 1, 2]) + [] == [4, 10, 2, 1, 2];
    PieceRoundTrip([10, 2, 1, 2], []);
    assert EncTag(WtString, 1) + [2, 1, 2] == [10, 2, 1, 2];
    TagRoundTrip(WtString, 1, [2, 1, 2]);
  }

  lemma FirstElement()
    ensures FieldOk(ONE_UINT) && DecLeaf(ONE_UINT, [1, 2], IntV(0)) == Done(IntV(1), [2])
  {
    OneUintOk();
    assert EncValue(ONE_UINT, IntV(1)).bytes + [2] == [1, 2];
    hide FieldOk, DecInt;
    IntRoundTrip(ONE_UINT, 1, [2], IntV(0));
  }

  /** Two packed elements for an array of one. */
  lemma SecondElementLeft()
    ensures FieldOk(ONE_UINT) && SlotOk(ONE_UINT, ONE_SLOT)
    ensures var r := DecSlot(ONE_UINT, WtString, [2, 1, 2], ONE_SLOT); r.Err? && r.lag == 2
  {
    OneUintOk();
    SmallPieces();
    FirstElement();
    hide FieldOk, ValueOk, DecPiece, DecLeaf;
    var e := DecElements(ONE_UINT, [1, 2], 0, [IntV(0)]);
    assert e.left == 1;
  }

  /** Such a frame fails and leaves the parent two bytes short of its end. */
  lemma FrameOutOfStep()
    ensures FieldsOk([ONE_UINT]) && MsgOk([ONE_UINT], ONE_MSG)
    ensures var r := DecDelimited([ONE_UINT], [4, 10, 2, 1, 2], ONE_MSG); r.Err? && r.lag == 2
  {
    OneUintOk();
    SmallPieces();
    SecondElementLeft();
    hide DecSlot, DecTag, DecPiece, FieldOk, SlotOk;
    var step := DecRecord([ONE_UINT], [10, 2, 1, 2], State(ONE_MSG, {}));
    assert step.Fail? && step.lag == 2;
    var r := DecMessage([ONE_UINT], [10, 2, 1, 2], ONE_MSG);
    assert r.Err? && r.lag == 2;
  }
}
