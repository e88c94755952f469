/** Complete field records: the bytes one turn of the decoding loop consumes. */
module Records {
  import opened Bits
  import opened Wire
  import opened Descriptors
  import opened DecodeSpec

  // ----- how far a payload reaches, whatever its contents

  function PieceRest(s: seq<Byte>): (r: Rest)
    ensures r.Rest? ==> |r.bytes| < |s|
  {
    match DecPiece(s)
    case Piece(_, rest) => Rest(rest)
    case NoPiece => NoRest
  }

  function LeafExtent(f: Field, s: seq<Byte>): (r: Rest)
    ensures r.Rest? ==> |r.bytes| < |s|
  {
    if IsInt(f) then (match DecVarint64(s) case VarintOk(_, rest) => Rest(rest) case VarintFail(_) => NoRest)
    else if f.ltype.Fixed32? then Drop(s, 4)
    else if f.ltype.Fixed64? then Drop(s, 8)
    else PieceRest(s)
  }

  function Extent(f: Field, wt: WireType, s: seq<Byte>): (r: Rest)
    ensures r.Rest? ==> |r.bytes| < |s|
  {
    if f.htype.Repeated? && wt.WtString? && f.ltype.Packable() then PieceRest(s) else LeafExtent(f, s)
  }

  /** What is left after the record at the head of s; NoRest when no complete record is there. The tag
    * word 0 and the tag number 0 start no record. */
  function RecordRest(fields: seq<Field>, s: seq<Byte>): (r: Rest)
    ensures r.Rest? ==> |r.bytes| < |s|
  {
    match DecTag(s)
    case TagEof(_) => NoRest
    case TagError => NoRest
    case Tag(wt, tag, rest) =>
      var i := Lookup(fields, tag);
      if tag == 0 then NoRest
      else if i < |fields| then Extent(fields[i], wt, rest)
      else Skip(wt, rest)
  }

  predicate IsRecord(fields: seq<Field>, r: seq<Byte>) { RecordRest(fields, r) == Rest([]) }

  /** A string of complete records. */
  predicate Complete(fields: seq<Field>, a: seq<Byte>)
    decreases |a|
  {
    a == [] || (RecordRest(fields, a).Rest? && Complete(fields, RecordRest(fields, a).bytes))
  }

  // ----- decoding looks no further than the extent

  /** The same outcome with t behind it. */
  function Followed<T>(r: Decoded<T>, t: seq<Byte>): Decoded<T> {
    match r
    case Ok(out, rest) => Ok(out, rest + t)
    case Err(_, _) => r
  }

  function FollowedStep(r: Step, t: seq<Byte>): Step {
    match r
    case More(st, rest) => More(st, rest + t)
    case Stop(rest) => Stop(rest + t)
    case Fail(_, _) => r
  }

  lemma PieceLeafLocal(f: Field, s: seq<Byte>, t: seq<Byte>, v: Value)
    requires IsLeaf(f) && !f.ltype.Packable() && FieldOk(f) && ValueOk(f, v) && DecPiece(s).Piece?
    ensures var a, b := DecLeaf(f, s, v), DecLeaf(f, s + t, v);
            && (a.Done? <==> b.Done?) && a.v == b.v
            && (a.Done? ==> a.rest == DecPiece(s).rest && b.rest == a.rest + t)
  {
    DecVarintExtend(s, t, 5, TWO32);
    var VarintOk(n, rest) := DecVarint32(s);
    SplitExtend(rest, t, n);
  }

  lemma LeafLocal(f: Field, s: seq<Byte>, t: seq<Byte>, v: Value)
    requires IsLeaf(f) && FieldOk(f) && ValueOk(f, v) && LeafExtent(f, s).Rest?
    ensures var a, b := DecLeaf(f, s, v), DecLeaf(f, s + t, v);
            && (a.Done? <==> b.Done?) && a.v == b.v
            && (a.Done? ==> a.rest == LeafExtent(f, s).bytes && b.rest == a.rest + t)
  {
    if IsInt(f) {
      DecVarintExtend(s, t, 10, TWO64);
    } else if f.ltype.Fixed32? {
      SplitExtend(s, t, 4);
    } else if f.ltype.Fixed64? {
      SplitExtend(s, t, 8);
    } else {
      PieceLeafLocal(f, s, t, v);
    }
  }

  lemma ValueLocal(f: Field, s: seq<Byte>, t: seq<Byte>, v: Value)
    requires FieldOk(f) && ValueOk(f, v) && LeafExtent(f, s).Rest?
    ensures DecValue(f, s, v).Ok? ==> DecValue(f, s, v).rest == LeafExtent(f, s).bytes
    ensures DecValue(f, s + t, v) == Followed(DecValue(f, s, v), t)
  {
    assert TypeOk(f);
    if f.ltype.Submessage? {
      DecPieceExtend(s, t);
    } else {
      LeafLocal(f, s, t, v);
    }
  }

  lemma SlotLocal(f: Field, wt: WireType, s: seq<Byte>, t: seq<Byte>, slot: Slot)
    requires FieldOk(f) && SlotOk(f, slot) && Extent(f, wt, s).Rest?
    ensures DecSlot(f, wt, s, slot).Ok? ==> DecSlot(f, wt, s, slot).rest == Extent(f, wt, s).bytes
    ensures DecSlot(f, wt, s + t, slot) == Followed(DecSlot(f, wt, s, slot), t)
  {
    match slot
    case One(v) => ValueLocal(f, s, t, UnionStart(f, v));
    case Opt(_, v) => ValueLocal(f, s, t, v);
    case Many(count, items) =>
      if wt.WtString? && f.ltype.Packable() {
        DecPieceExtend(s, t);
      } else if count < f.arraySize {
        ValueLocal(f, s, t, items[count]);
      }
  }

  /** A complete record is decoded the same whatever follows it, and never ends the message. */
  lemma RecordLocal(fields: seq<Field>, r: seq<Byte>, t: seq<Byte>, st: State)
    requires FieldsOk(fields) && MsgOk(fields, st.msg) && RecordRest(fields, r).Rest?
    ensures !DecRecord(fields, r, st).Stop?
    ensures DecRecord(fields, r, st).More? ==> DecRecord(fields, r, st).rest == RecordRest(fields, r).bytes
    ensures DecRecord(fields, r + t, st) == FollowedStep(DecRecord(fields, r, st), t)
  {
    DecTagExtend(r, t);
    var Tag(wt, tag, rest) := DecTag(r);
    var i := Lookup(fields, tag);
    if i < |fields| {
      assert FieldOk(fields[i]) && SlotOk(fields[i], st.msg.slots[i]);
      SlotLocal(fields[i], wt, rest, t, st.msg.slots[i]);
    } else {
      SkipExtend(wt, rest, t);
    }
  }

  // ----- concatenation is merging

  /** The loop on a ++ b is the loop on a, then the loop on b. */
  lemma {:induction false} LoopSplits(fields: seq<Field>, a: seq<Byte>, b: seq<Byte>, st: State)
    requires FieldsOk(fields) && MsgOk(fields, st.msg) && Complete(fields, a)
    ensures DecLoop(fields, a, st).Ok? ==> DecLoop(fields, a, st).rest == []
    ensures DecLoop(fields, a + b, st) ==
            if DecLoop(fields, a, st).Ok? then DecLoop(fields, b, DecLoop(fields, a, st).out)
            else DecLoop(fields, a, st)
    decreases |a|
  {
    if a == [] {
      NilLeft(b);
    } else {
      RecordLocal(fields, a, b, st);
      match DecRecord(fields, a, st)
      case Fail(_, _) =>
      case More(st', rest) => LoopSplits(fields, rest, b, st');
    }
  }

  function Collected(r: Decoded<State>, extra: set<nat>): Decoded<State> {
    r.(out := State(r.out.msg, r.out.seen + extra))
  }

  function CollectedStep(r: Step, extra: set<nat>): Step {
    if r.Stop? then r else r.(st := State(r.st.msg, r.st.seen + extra))
  }

  /** The set of fields seen only collects. */
  lemma {:induction false} LoopCollects(fields: seq<Field>, s: seq<Byte>, m: Message, seen: set<nat>, extra: set<nat>)
    requires FieldsOk(fields) && MsgOk(fields, m)
    ensures DecLoop(fields, s, State(m, seen + extra)) == Collected(DecLoop(fields, s, State(m, seen)), extra)
    decreases |s|
  {
    if s != [] {
      RecordCollects(fields, s, m, seen, extra);
      match DecRecord(fields, s, State(m, seen))
      case Stop(_) =>
      case Fail(_, _) =>
      case More(st, rest) => LoopCollects(fields, rest, st.msg, st.seen, extra);
    }
  }

  lemma RecordCollects(fields: seq<Field>, s: seq<Byte>, m: Message, seen: set<nat>, extra: set<nat>)
    requires FieldsOk(fields) && MsgOk(fields, m)
    ensures DecRecord(fields, s, State(m, seen + extra)) == CollectedStep(DecRecord(fields, s, State(m, seen)), extra)
  {
    match DecTag(s)
    case TagEof(_) =>
    case TagError =>
    case Tag(_, tag, _) =>
      var i := Lookup(fields, tag);
      assert seen + extra + {i} == seen + {i} + extra;
  }

  /** Decoding a into the struct, then b into the result. */
  function Merged(fields: seq<Field>, a: seq<Byte>, b: seq<Byte>, m: Message): Decoded<Message>
    requires FieldsOk(fields) && MsgOk(fields, m)
  {
    match DecLoop(fields, a, State(m, {}))
    case Err(st, lag) => Err(st.msg, lag)
    case Ok(st, _) =>
      match DecLoop(fields, b, State(st.msg, {}))
      case Err(st', lag) => Err(st'.msg, lag)
      case Ok(st', rest) => if AllSeen(fields, st'.seen + st.seen) then Ok(st'.msg, rest) else Err(st'.msg, 0)
  }

  /** Decoding a ++ b merges: it is decoding a into the struct and then b into the result; a required
    * field may come from either part. */
  lemma Merging(fields: seq<Field>, a: seq<Byte>, b: seq<Byte>, m: Message)
    requires FieldsOk(fields) && MsgOk(fields, m) && Complete(fields, a)
    ensures DecMessage(fields, a + b, m) == Merged(fields, a, b, m)
  {
    LoopSplits(fields, a, b, State(m, {}));
    match DecLoop(fields, a, State(m, {}))
    case Err(_, _) =>
    case Ok(st, _) =>
      assert {} + st.seen == st.seen;
      LoopCollects(fields, b, st.msg, {}, st.seen);
  }

  predicate NoRequired(fields: seq<Field>) {
    forall i :: 0 <= i < |fields| ==> !fields[i].htype.Required?
  }

  /** If the bytes decode, no required field is missing. */
  predicate LacksNothing(fields: seq<Field>, s: seq<Byte>, m: Message)
    requires FieldsOk(fields) && MsgOk(fields, m)
  {
    var r := DecLoop(fields, s, State(m, {}));
    r.Ok? ==> AllSeen(fields, r.out.seen)
  }

  /** Each part has all required fields by itself. */
  predicate PartsLackNothing(fields: seq<Field>, a: seq<Byte>, b: seq<Byte>, m: Message)
    requires FieldsOk(fields) && MsgOk(fields, m)
  {
    var r := DecLoop(fields, a, State(m, {}));
    LacksNothing(fields, a, m) && (r.Ok? ==> LacksNothing(fields, b, r.out.msg))
  }

  /** pb_decode_noinit on a and then on b meets no missing field exactly then, and so is pb_decode_noinit on
    * a ++ b. */
  lemma MergingParts(fields: seq<Field>, a: seq<Byte>, b: seq<Byte>, m: Message)
    requires FieldsOk(fields) && MsgOk(fields, m) && Complete(fields, a)
    ensures var d := DecMessage(fields, a, m);
            var e := if d.Ok? then DecMessage(fields, b, d.out) else d;
            if PartsLackNothing(fields, a, b, m) then DecMessage(fields, a + b, m) == e else e.Err?
  {
    Merging(fields, a, b, m);
    hide DecLoop, Complete, FieldsOk, MsgOk;
  }

  /** Without required fields: pb_decode_noinit on a ++ b is pb_decode_noinit on a, then on b. */
  lemma MergingPlain(fields: seq<Field>, a: seq<Byte>, b: seq<Byte>, m: Message)
    requires FieldsOk(fields) && MsgOk(fields, m) && Complete(fields, a) && NoRequired(fields)
    ensures DecMessage(fields, a + b, m) ==
            if DecMessage(fields, a, m).Ok? then DecMessage(fields, b, DecMessage(fields, a, m).out)
            else DecMessage(fields, a, m)
  {
    Merging(fields, a, b, m);
  }

  predicate Merges(f: Field) { f.ltype.Submessage? && (f.htype.Required? || f.htype.Optional?) }

  /** The slot of a message that has arrived. */
  function Held(f: Field, m: Message): Slot { if f.HasFlag() then Opt(true, MsgV(m)) else One(MsgV(m)) }

  /** The message in a slot, present or not. */
  function Inside(f: Field, s: Slot): (m: Message)
    requires FieldOk(f) && SlotOk(f, s) && Merges(f)
    ensures FieldsOk(f.ltype.fields) && MsgOk(f.ltype.fields, m)
  {
    assert TypeOk(f) && ValueOk(f, s.v);
    s.v.msg
  }

  lemma HeldOk(f: Field, m: Message)
    requires FieldOk(f) && Merges(f) && MsgOk(f.ltype.fields, m)
    ensures SlotOk(f, Held(f, m)) && FieldsOk(f.ltype.fields) && Inside(f, Held(f, m)) == m
  {
    assert TypeOk(f);
  }

  /** A message merges into what its slot holds. */
  lemma MessageSlot(f: Field, p: seq<Byte>, t: seq<Byte>, slot: Slot)
    requires FieldOk(f) && SlotOk(f, slot) && Merges(f) && |p| < TWO32
    ensures var d := DecMessage(f.ltype.fields, p, Inside(f, slot));
            DecSlot(f, WtString, EncPiece(p) + t, slot) ==
            if d.Ok? then Ok(Held(f, d.out), t) else Err(Held(f, d.out), d.lag)
  {
    assert TypeOk(f);
    PieceRoundTrip(p, t);
    hide DecMessage, DecPiece, EncPiece, FieldsOk;
  }

  /** The turn of the loop on a record of field i. */
  function Turned(fields: seq<Field>, i: nat, d: Decoded<Slot>, st: State): Step
    requires i < |fields| && MsgOk(fields, st.msg) && SlotOk(fields[i], d.out)
  {
    var st' := State(Put(fields, st.msg, i, d.out), if fields[i].htype.Required? then st.seen + {i} else st.seen);
    match d
    case Ok(_, rest) => More(st', rest)
    case Err(_, lag) => Fail(st', lag)
  }

  lemma RecordTurn(fields: seq<Field>, i: nat, wt: WireType, payload: seq<Byte>, st: State)
    requires FieldsOk(fields) && MsgOk(fields, st.msg) && i < |fields| && !wt.WtInvalid?
    ensures FieldOk(fields[i]) && SlotOk(fields[i], st.msg.slots[i])
    ensures DecRecord(fields, EncTag(wt, fields[i].tag) + payload, st) ==
            Turned(fields, i, DecSlot(fields[i], wt, payload, st.msg.slots[i]), st)
  {
    assert FieldOk(fields[i]);
    TagRoundTrip(wt, fields[i].tag, payload);
    LookupFinds(fields, i, fields[i].tag);
    hide DecSlot, DecTag, EncTag, FieldOk;
  }

  function MessageRecord(f: Field, p: seq<Byte>, t: seq<Byte>): seq<Byte> {
    EncTag(WtString, f.tag) + (EncPiece(p) + t)
  }

  /** The outcome of decoding a message into a slot. */
  function Into(f: Field, d: Decoded<Message>, t: seq<Byte>): Decoded<Slot> {
    if d.Ok? then Ok(Held(f, d.out), t) else Err(Held(f, d.out), d.lag)
  }

  lemma MessageTurn(fields: seq<Field>, i: nat, p: seq<Byte>, t: seq<Byte>, st: State)
    requires FieldsOk(fields) && MsgOk(fields, st.msg) && i < |fields| && Merges(fields[i]) && |p| < TWO32
    ensures FieldOk(fields[i]) && SlotOk(fields[i], st.msg.slots[i])
    ensures var r := Into(fields[i], DecMessage(fields[i].ltype.fields, p, Inside(fields[i], st.msg.slots[i])), t);
            SlotOk(fields[i], r.out)
                && DecRecord(fields, MessageRecord(fields[i], p, t), st) == Turned(fields, i, r, st)
  {
    RecordTurn(fields, i, WtString, EncPiece(p) + t, st);
    MessageSlot(fields[i], p, t, st.msg.slots[i]);
    HeldOk(fields[i], DecMessage(fields[i].ltype.fields, p, Inside(fields[i], st.msg.slots[i])).out);
    hide DecRecord, DecMessage, DecSlot, Turned, Held, EncTag, EncPiece, FieldOk, SlotOk;
  }

  /** Two records of one message field, required or optional, with a flag or without, are one record of the
    * joined payload, whatever follows and whatever the slot held, if each has the message's required fields.
    * If one of them lacks one, they fail, even where the joined payload would not. */
  lemma NestedMerging(fields: seq<Field>, i: nat, p: seq<Byte>, q: seq<Byte>, t: seq<Byte>, st: State)
    requires FieldsOk(fields) && MsgOk(fields, st.msg) && i < |fields| && Merges(fields[i])
    requires Complete(fields[i].ltype.fields, p) && |p| + |q| < TWO32
    requires FieldOk(fields[i]) && SlotOk(fields[i], st.msg.slots[i])
    ensures var two := DecLoop(fields, MessageRecord(fields[i], p, MessageRecord(fields[i], q, t)), st);
            if PartsLackNothing(fields[i].ltype.fields, p, q, Inside(fields[i], st.msg.slots[i]))
            then two == DecLoop(fields, MessageRecord(fields[i], p + q, t), st)
            else two.Err?
  {
    var f, slot := fields[i], st.msg.slots[i];
    var rest := MessageRecord(f, q, t);
    MessageTurn(fields, i, p, rest, st);
    MessageTurn(fields, i, p + q, t, st);
    var sub, m := f.ltype.fields, Inside(f, slot);
    MergingParts(sub, p, q, m);
    var d := DecMessage(sub, p, m);
    assert MessageRecord(f, p, rest) != [] && MessageRecord(f, p + q, t) != [];
    if d.Ok? {
      HeldOk(f, d.out);
      var st1 := Turned(fields, i, Into(f, d, rest), st).st;
      MessageTurn(fields, i, q, t, st1);
      var e := DecMessage(sub, q, d.out);
      HeldOk(f, e.out);
      TurnedTwice(fields, i, Into(f, d, rest), Into(f, e, t), st);
      assert rest != [];
    }
    hide DecRecord, DecMessage, Turned, Held, Inside, MessageRecord, FieldsOk, FieldOk, SlotOk, PartsLackNothing;
  }

  lemma TurnedTwice(fields: seq<Field>, i: nat, a: Decoded<Slot>, b: Decoded<Slot>, st: State)
    requires i < |fields| && MsgOk(fields, st.msg) && SlotOk(fields[i], a.out) && SlotOk(fields[i], b.out) && a.Ok?
    ensures Turned(fields, i, b, Turned(fields, i, a, st).st) == Turned(fields, i, b, st)
    ensures Turned(fields, i, a, st).st.msg.slots[i] == a.out
  {
    PutTwice(fields, st.msg, i, a.out, b.out);
    assert st.seen + {i} + {i} == st.seen + {i};
    hide SlotOk, Group;
  }

  lemma PutTwice(fields: seq<Field>, m: Message, i: nat, a: Slot, b: Slot)
    requires MsgOk(fields, m) && i < |fields| && SlotOk(fields[i], a) && SlotOk(fields[i], b)
    ensures Put(fields, Put(fields, m, i, a), i, b) == Put(fields, m, i, b)
  {
    assert m.slots[i := a][i := b] == m.slots[i := b];
    var g := Group(fields, i);
    assert m.which[g := fields[i].tag][g := fields[i].tag] == m.which[g := fields[i].tag];
    hide SlotOk, Group;
  }

  /** A union member that is a message never merges: of two records of it the first leaves no trace. */
  lemma UnionMessageResets(fields: seq<Field>, i: nat, p: seq<Byte>, q: seq<Byte>, t: seq<Byte>, st: State)
    requires FieldsOk(fields) && MsgOk(fields, st.msg) && i < |fields| && |p| < TWO32 && |q| < TWO32
    requires fields[i].htype.Oneof? && fields[i].ltype.Submessage?
    requires DecRecord(fields, MessageRecord(fields[i], p, []), st).More?
    ensures DecLoop(fields, MessageRecord(fields[i], p, MessageRecord(fields[i], q, t)), st) ==
            DecLoop(fields, MessageRecord(fields[i], q, t), st)
  {
    var f, slot := fields[i], st.msg.slots[i];
    var rest := MessageRecord(f, q, t);
    RecordTurn(fields, i, WtString, EncPiece(p) + rest, st);
    RecordTurn(fields, i, WtString, EncPiece(p) + [], st);
    UnionSlot(f, p, rest, slot, slot);
    UnionSlot(f, p, [], slot, slot);
    var a := DecSlot(f, WtString, EncPiece(p) + rest, slot);
    var st1 := Turned(fields, i, a, st).st;
    RecordTurn(fields, i, WtString, EncPiece(q) + t, st1);
    RecordTurn(fields, i, WtString, EncPiece(q) + t, st);
    UnionSlot(f, q, t, slot, st1.msg.slots[i]);
    TurnedTwice(fields, i, a, DecSlot(f, WtString, EncPiece(q) + t, slot), st);
    assert rest != [] && MessageRecord(f, p, rest) != [];
    hide DecRecord, DecSlot, Turned, EncTag, EncPiece, FieldsOk, FieldOk, SlotOk;
  }

  /** Its old contents and what follows do not matter. */
  lemma UnionSlot(f: Field, p: seq<Byte>, t: seq<Byte>, a: Slot, b: Slot)
    requires FieldOk(f) && f.htype.Oneof? && f.ltype.Submessage? && SlotOk(f, a) && SlotOk(f, b) && |p| < TWO32
    ensures DecSlot(f, WtString, EncPiece(p) + t, a) == DecSlot(f, WtString, EncPiece(p) + t, b)
    ensures DecSlot(f, WtString, EncPiece(p) + t, a).Ok? <==> DecSlot(f, WtString, EncPiece(p) + [], a).Ok?
    ensures var d := DecSlot(f, WtString, EncPiece(p) + t, a); d.Ok? ==> d.rest == t
  {
    PieceRoundTrip(p, t);
    PieceRoundTrip(p, []);
    hide DecMessage, DecPiece, EncPiece, FieldsOk;
  }

  // ----- unknown fields

  /** A complete record of a valid wire type whose tag no field has. */
  predicate IsUnknown(fields: seq<Field>, u: seq<Byte>) {
    match DecTag(u)
    case Tag(wt, tag, rest) => tag != 0 && Lookup(fields, tag) == |fields| && Skip(wt, rest) == Rest([])
    case _ => false
  }

  /** Unknown fields are transparent, wherever they stand between complete records. */
  lemma UnknownTransparent(fields: seq<Field>, a: seq<Byte>, u: seq<Byte>, b: seq<Byte>, m: Message)
    requires FieldsOk(fields) && MsgOk(fields, m) && Complete(fields, a) && IsUnknown(fields, u)
    ensures DecMessage(fields, a + u + b, m) == DecMessage(fields, a + b, m)
  {
    hide DecSlot, Skip, DecTag, MsgOk;
    var st := State(m, {});
    Assoc(a, u, b);
    LoopSplits(fields, a, u + b, st);
    LoopSplits(fields, a, b, st);
    match DecLoop(fields, a, st)
    case Err(_, _) =>
    case Ok(st', _) =>
      RecordLocal(fields, u, b, st');
      NilLeft(b);
  }
}
