/** A reader that knows the wire format but no descriptors, and what it reads in an encoded message. */
module Schemaless {
  import opened Bits
  import opened Wire
  import opened Descriptors
  import opened EncodeSpec
  import opened Emptiness

  // ----- the reader

  /** A field number and what came with it: a number, eight bytes, a string of bytes, or four bytes. */
  datatype Record =
    | Number(tag: nat, n: nat)
    | Eight(tag: nat, bytes: seq<Byte>)
    | Delimited(tag: nat, bytes: seq<Byte>)
    | Four(tag: nat, bytes: seq<Byte>)

  datatype One = Got(r: Record, rest: seq<Byte>) | Nothing

  /** What the tag word w announces. */
  function ReadOne(w: nat, s: seq<Byte>): (r: One)
    ensures r.Got? ==> |r.rest| <= |s|
  {
    var n := VarintSpan(s);
    if w / 8 == 0 then Nothing
    else if w % 8 == 0 && n > 0 then Got(Number(w / 8, Base128(s[..n])), s[n..])
    else if w % 8 == 1 && |s| >= 8 then Got(Eight(w / 8, s[..8]), s[8..])
    else if w % 8 == 2 && n > 0 && n + Base128(s[..n]) <= |s| then
      var size := Base128(s[..n]);
      Got(Delimited(w / 8, s[n..n + size]), s[n + size..])
    else if w % 8 == 5 && |s| >= 4 then Got(Four(w / 8, s[..4]), s[4..])
    else Nothing
  }

  datatype Reading = Records(rs: seq<Record>) | Unreadable

  function Before(r: Record, more: Reading): Reading {
    if more.Records? then Records([r] + more.rs) else Unreadable
  }

  function BeforeAll(rs: seq<Record>, more: Reading): Reading {
    if more.Records? then Records(rs + more.rs) else Unreadable
  }

  function Read(s: seq<Byte>): Reading
    decreases |s|
  {
    if s == [] then Records([])
    else
      var n := VarintSpan(s);
      if n == 0 then Unreadable
      else
        match ReadOne(Base128(s[..n]), s[n..])
        case Nothing => Unreadable
        case Got(r, rest) => Before(r, Read(rest))
  }

  // ----- what the records say

  function Little4(p: seq<Byte>): nat
    requires |p| == 4
  {
    var a: nat, b: nat, c: nat, d: nat := p[0], p[1], p[2], p[3];
    a + 0x100 * b + 0x1_0000 * c + 0x100_0000 * d
  }

  function Little8(p: seq<Byte>): nat
    requires |p| == 8
  {
    Little4(p[..4]) + 0x1_0000_0000 * Little4(p[4..])
  }

  /** The number on the wire for i: in two's complement of 64 bits, or in zigzag order. */
  function OnWire(f: Field, i: int): int {
    if f.ltype.SVarint? then if i >= 0 then 2 * i else -2 * i - 1
    else if i >= 0 then i else i + 0x1_0000_0000_0000_0000
  }

  /** p is the string in the buffer, up to a zero byte or the end. */
  predicate IsString(p: seq<Byte>, buf: seq<Byte>) {
    && |p| <= |buf| && p == buf[..|p|]
    && (forall k :: 0 <= k < |p| ==> p[k] != 0)
    && (|p| < |buf| ==> buf[|p|] == 0)
  }

  ghost predicate Tells(f: Field, v: Value, r: Record)
    requires FieldOk(f) && ValueOk(f, v)
    decreases f, 0
  {
    assert TypeOk(f);
    && r.tag == f.tag
    && match f.ltype
       case Varint => r.Number? && r.n == OnWire(f, v.i)
       case UVarint => r.Number? && r.n == OnWire(f, v.i)
       case SVarint => r.Number? && r.n == OnWire(f, v.i)
       case Fixed32 => r.Four? && |r.bytes| == 4 && Little4(r.bytes) == v.i
       case Fixed64 => r.Eight? && |r.bytes| == 8 && Little8(r.bytes) == v.i
       case Bytes => r.Delimited? && v.size <= |v.buf| && r.bytes == v.buf[..v.size]
       case String => r.Delimited? && IsString(r.bytes, v.buf)
       case FixedLengthBytes => r.Delimited? && r.bytes == v.buf
       case Submessage(sub) => r.Delimited? && Read(r.bytes).Records? && TellsMessage(sub, v.msg, Read(r.bytes).rs)
  }

  /** The elements of a packed payload, back to back. */
  predicate TellsElements(f: Field, items: seq<Value>, k: nat, count: nat, p: seq<Byte>)
    requires FieldOk(f) && f.ltype.Packable() && k <= count <= |items| && ItemsOk(f, items)
    decreases count - k
  {
    if k == count then p == []
    else if f.ltype.Fixed32? then
      |p| >= 4 && Little4(p[..4]) == items[k].i && TellsElements(f, items, k + 1, count, p[4..])
    else if f.ltype.Fixed64? then
      |p| >= 8 && Little8(p[..8]) == items[k].i && TellsElements(f, items, k + 1, count, p[8..])
    else
      var n := VarintSpan(p);
      n > 0 && Base128(p[..n]) == OnWire(f, items[k].i) && TellsElements(f, items, k + 1, count, p[n..])
  }

  /** How many records a field has. */
  ghost function Amount(f: Field, s: Slot, selected: bool): nat
    requires FieldOk(f) && SlotOk(f, s)
  {
    match s
    case One(v) =>
      if (f.htype.Oneof? && !selected) || (f.Singular() && AllBlank(Place(f, v))) then 0 else 1
    case Opt(has, _) => if has then 1 else 0
    case Many(count, _) => if count > 0 && f.ltype.Packable() then 1 else count
  }

  ghost predicate TellsSlot(f: Field, s: Slot, selected: bool, rs: seq<Record>)
    requires FieldOk(f) && SlotOk(f, s)
    decreases f, 1
  {
    && |rs| == Amount(f, s, selected)
    && match s
       case Many(count, items) =>
         && count <= |items|
         && if f.ltype.Packable() then
              forall r :: r in rs ==> r.Delimited? && r.tag == f.tag && TellsElements(f, items, 0, count, r.bytes)
            else forall k :: 0 <= k < count ==> Tells(f, items[k], rs[k])
       case _ => rs != [] ==> Tells(f, s.v, rs[0])
  }

  /** The records of the fields from i on, in the order of the descriptors. */
  ghost predicate TellsFrom(fields: seq<Field>, m: Message, i: nat, rs: seq<Record>)
    requires FieldsOk(fields) && MsgOk(fields, m) && i <= |fields|
    decreases fields, 0, |fields| - i
  {
    if i == |fields| then rs == []
    else
      var n := Amount(fields[i], m.slots[i], Selected(fields, m, i));
      && n <= |rs| && TellsSlot(fields[i], m.slots[i], Selected(fields, m, i), rs[..n])
      && TellsFrom(fields, m, i + 1, rs[n..])
  }

  ghost predicate TellsMessage(fields: seq<Field>, m: Message, rs: seq<Record>)
    requires FieldsOk(fields) && MsgOk(fields, m)
    decreases fields, 1
  {
    TellsFrom(fields, m, 0, rs)
  }

  // ----- reading one record

  lemma VarintHead(v: nat, t: seq<Byte>)
    ensures var p := EncVarint(v);
            && VarintSpan(p + t) == |p| && Base128((p + t)[..|p|]) == v && (p + t)[|p|..] == t
  {
    EncVarintSpan(v);
    SpanExtend(EncVarint(v), t);
    SplitAt(EncVarint(v), t);
  }

  lemma ReadWord(w: nat, s: seq<Byte>)
    ensures Read(EncVarint(w) + s) ==
            match ReadOne(w, s) case Nothing => Unreadable case Got(r, rest) => Before(r, Read(rest))
  {
    hide ReadOne, Base128, VarintSpan;
    VarintHead(w, s);
  }

  lemma ReadNumber(tag: nat, v: nat, t: seq<Byte>)
    requires tag > 0
    ensures ReadOne(8 * tag, EncVarint(v) + t) == Got(Number(tag, v), t)
  {
    VarintHead(v, t);
  }

  lemma ReadDelimited(tag: nat, p: seq<Byte>, t: seq<Byte>)
    requires tag > 0
    ensures ReadOne(8 * tag + 2, EncPiece(p) + t) == Got(Delimited(tag, p), t)
  {
    VarintHead(|p|, p + t);
    Assoc(EncVarint(|p|), p, t);
    SplitAt(p, t);
  }

  /** The first four bytes of a word. */
  lemma FourBytes(p: seq<Byte>)
    requires |p| >= 4
    ensures DecFixed(p) == Little4(p[..4]) + 0x1_0000_0000 * DecFixed(p[4..])
  {
    assert p[1..][1..] == p[2..] && p[2..][1..] == p[3..] && p[3..][1..] == p[4..];
    assert DecFixed(p[3..]) == p[3] + 256 * DecFixed(p[4..]);
    assert DecFixed(p[2..]) == p[2] + 256 * DecFixed(p[3..]);
    assert DecFixed(p[1..]) == p[1] + 256 * DecFixed(p[2..]);
  }

  lemma LittleWord(v: nat)
    ensures v < 0x1_0000_0000 ==> Little4(EncFixed(v, 4)) == v
    ensures v < 0x1_0000_0000_0000_0000 ==> Little8(EncFixed(v, 8)) == v
  {
    hide EncFixed, Little4;
    Pow2Values();
    var p, q := EncFixed(v, 4), EncFixed(v, 8);
    FourBytes(p);
    FourBytes(q);
    FourBytes(q[4..]);
    assert p[..4] == p && p[4..] == [] && q[4..][..4] == q[4..] && q[4..][4..] == [];
    if v < 0x1_0000_0000 {
      FixedRoundTrip(v, 4);
    }
    if v < 0x1_0000_0000_0000_0000 {
      FixedRoundTrip(v, 8);
    }
  }

  lemma ReadFour(tag: nat, v: nat, t: seq<Byte>)
    requires tag > 0
    ensures ReadOne(8 * tag + 5, EncFixed(v, 4) + t) == Got(Four(tag, EncFixed(v, 4)), t)
  {
    SplitAt(EncFixed(v, 4), t);
  }

  lemma ReadEight(tag: nat, v: nat, t: seq<Byte>)
    requires tag > 0
    ensures ReadOne(8 * tag + 1, EncFixed(v, 8) + t) == Got(Eight(tag, EncFixed(v, 8)), t)
  {
    SplitAt(EncFixed(v, 8), t);
  }

  // ----- reading what the encoder wrote

  lemma CStringIsString(buf: seq<Byte>)
    ensures IsString(CString(buf), buf)
  {
  }

  lemma OnWireNumber(f: Field, v: Value)
    requires FieldOk(f) && ValueOk(f, v) && f.ltype.Packable() && !f.ltype.Fixed32? && !f.ltype.Fixed64?
    ensures OnWire(f, v.i) >= 0 && EncValue(f, v) == Wrote(EncVarint(OnWire(f, v.i)))
  {
    assert TypeOk(f);
    Pow2Values();
    if !f.ltype.UVarint? {
      Pow2Mono(8 * f.dataSize - 1, 63);
      assert Pow2(64) == 2 * Pow2(63);
    }
  }

  lemma NumberTells(f: Field, v: Value, t: seq<Byte>) returns (r: Record)
    requires FieldOk(f) && ValueOk(f, v) && f.ltype.Packable() && EncValue(f, v).Wrote?
    ensures Tells(f, v, r)
    ensures ReadOne(8 * f.tag + WireCode(FieldWireType(f)), EncValue(f, v).bytes + t) == Got(r, t)
  {
    hide ReadOne, Read, Little4, Little8, EncVarint, EncFixed;
    assert TypeOk(f);
    if f.ltype.Fixed32? {
      r := Four(f.tag, EncFixed(v.i, 4));
      ReadFour(f.tag, v.i, t);
      LittleWord(v.i);
    } else if f.ltype.Fixed64? {
      r := Eight(f.tag, EncFixed(v.i, 8));
      ReadEight(f.tag, v.i, t);
      LittleWord(v.i);
    } else {
      OnWireNumber(f, v);
      r := Number(f.tag, OnWire(f, v.i));
      ReadNumber(f.tag, r.n, t);
    }
  }

  /** What stands behind a tag. */
  lemma {:induction false} ValueTells(f: Field, v: Value, t: seq<Byte>) returns (r: Record)
    requires FieldOk(f) && ValueOk(f, v) && EncValue(f, v).Wrote?
    ensures Tells(f, v, r)
    ensures ReadOne(8 * f.tag + WireCode(FieldWireType(f)), EncValue(f, v).bytes + t) == Got(r, t)
    decreases f, 0
  {
    hide ReadOne, Read, TellsMessage, EncVarint, EncPiece, EncFixed, IsString, OnWire;
    assert TypeOk(f);
    match f.ltype
    case Bytes =>
      r := Delimited(f.tag, v.buf[..v.size]);
      ReadDelimited(f.tag, r.bytes, t);
    case String =>
      r := Delimited(f.tag, CString(v.buf));
      ReadDelimited(f.tag, r.bytes, t);
      CStringIsString(v.buf);
    case FixedLengthBytes =>
      r := Delimited(f.tag, v.buf);
      ReadDelimited(f.tag, r.bytes, t);
    case Submessage(sub) =>
      r := Delimited(f.tag, EncMessage(sub, v.msg).bytes);
      ReadDelimited(f.tag, r.bytes, t);
      MessageTells(sub, v.msg);
    case _ =>
      r := NumberTells(f, v, t);
  }

  lemma {:induction false} TaggedTells(f: Field, v: Value, t: seq<Byte>) returns (r: Record)
    requires FieldOk(f) && ValueOk(f, v) && EncTagged(f, v).Wrote?
    ensures Tells(f, v, r) && Read(EncTagged(f, v).bytes + t) == Before(r, Read(t))
    decreases f, 1
  {
    hide Tells, ReadOne, EncValue, EncVarint;
    r := ValueTells(f, v, t);
    var p := EncValue(f, v).bytes;
    ReadWord(8 * f.tag + WireCode(FieldWireType(f)), p + t);
    Assoc(FieldTag(f), p, t);
  }

  lemma {:induction false} ElementsTold(f: Field, items: seq<Value>, k: nat, count: nat)
    requires FieldOk(f) && f.ltype.Packable() && k <= count <= |items| && ItemsOk(f, items)
    ensures EncItems(f, items, k, count).Wrote? && TellsElements(f, items, k, count, EncItems(f, items, k, count).bytes)
    decreases count - k
  {
    if k < count {
      ElementsTold(f, items, k + 1, count);
      ElementSize(f, items[k]);
      ElementHead(f, items[k], EncItems(f, items, k + 1, count).bytes);
      hide EncValue, Little4, Little8, VarintSpan, Base128, OnWire;
    }
  }

  lemma ElementHead(f: Field, v: Value, t: seq<Byte>)
    requires FieldOk(f) && f.ltype.Packable() && ValueOk(f, v) && EncValue(f, v).Wrote?
    ensures var p := EncValue(f, v).bytes; var s := p + t;
            if f.ltype.Fixed32? then |s| >= 4 && Little4(s[..4]) == v.i && s[4..] == t
            else if f.ltype.Fixed64? then |s| >= 8 && Little8(s[..8]) == v.i && s[8..] == t
            else var n := VarintSpan(s); n > 0 && Base128(s[..n]) == OnWire(f, v.i) && s[n..] == t
  {
    var p := EncValue(f, v).bytes;
    SplitAt(p, t);
    if f.ltype.Fixed32? || f.ltype.Fixed64? {
      assert TypeOk(f);
      LittleWord(v.i);
    } else {
      OnWireNumber(f, v);
      VarintHead(OnWire(f, v.i), t);
    }
  }

  lemma {:induction false} ItemsTell(f: Field, items: seq<Value>, k: nat, count: nat, t: seq<Byte>)
      returns (rs: seq<Record>)
    requires FieldOk(f) && k <= count <= |items| && ItemsOk(f, items) && EncTaggedItems(f, items, k, count).Wrote?
    ensures |rs| == count - k && forall j :: k <= j < count ==> Tells(f, items[j], rs[j - k])
    ensures Read(EncTaggedItems(f, items, k, count).bytes + t) == BeforeAll(rs, Read(t))
    decreases f, 2, count - k
  {
    hide Tells, Read, EncTagged;
    rs := [];
    if k == count {
      NilLeft(t);
      NoneBefore(Read(t));
    } else {
      var rest := EncTaggedItems(f, items, k + 1, count).bytes;
      var r := TaggedTells(f, items[k], rest + t);
      var more := ItemsTell(f, items, k + 1, count, t);
      Assoc(EncTagged(f, items[k]).bytes, rest, t);
      rs := [r] + more;
      OneBefore(r, more, Read(t));
    }
  }

  lemma NoneBefore(more: Reading)
    ensures BeforeAll([], more) == more
  {
    assert more.Records? ==> [] + more.rs == more.rs;
  }

  lemma OneBefore(r: Record, rs: seq<Record>, more: Reading)
    ensures Before(r, BeforeAll(rs, more)) == BeforeAll([r] + rs, more)
  {
    assert more.Records? ==> [r] + (rs + more.rs) == [r] + rs + more.rs;
  }

  lemma PackedTells(f: Field, items: seq<Value>, count: nat, t: seq<Byte>) returns (r: Record)
    requires FieldOk(f) && f.ltype.Packable() && count <= |items| && ItemsOk(f, items)
    ensures EncItems(f, items, 0, count).Wrote?
    ensures r.Delimited? && r.tag == f.tag && TellsElements(f, items, 0, count, r.bytes)
    ensures Read(EncTag(WtString, f.tag) + EncPiece(EncItems(f, items, 0, count).bytes) + t) == Before(r, Read(t))
  {
    hide Read, ReadOne, EncPiece, EncVarint, EncItems, TellsElements;
    ElementsTold(f, items, 0, count);
    var p := EncItems(f, items, 0, count).bytes;
    r := Delimited(f.tag, p);
    ReadDelimited(f.tag, p, t);
    ReadWord(8 * f.tag + 2, EncPiece(p) + t);
    Assoc(EncTag(WtString, f.tag), EncPiece(p), t);
  }

  lemma {:induction false} ArrayTells(f: Field, s: Slot, t: seq<Byte>) returns (rs: seq<Record>)
    requires FieldOk(f) && SlotOk(f, s) && f.htype.Repeated? && EncSlot(f, s, false).Wrote? && s.count > 0
    ensures TellsSlot(f, s, false, rs) && Read(EncSlot(f, s, false).bytes + t) == BeforeAll(rs, Read(t))
    decreases f, 3
  {
    hide Read, Tells, TellsElements, EncTaggedItems, EncItems, EncPiece, EncTag;
    if f.ltype.Packable() {
      var r := PackedTells(f, s.items, s.count, t);
      rs := [r];
      NoneBefore(Read(t));
      OneBefore(r, [], Read(t));
    } else {
      rs := ItemsTell(f, s.items, 0, s.count, t);
    }
  }

  lemma {:induction false} SlotTells(f: Field, s: Slot, selected: bool, t: seq<Byte>) returns (rs: seq<Record>)
    requires FieldOk(f) && SlotOk(f, s) && EncSlot(f, s, selected).Wrote?
    ensures TellsSlot(f, s, selected, rs) && Read(EncSlot(f, s, selected).bytes + t) == BeforeAll(rs, Read(t))
    decreases f, 4
  {
    hide Read, AllBlank, IsZero, Tells, TellsElements, EncTagged, EncTaggedItems, EncItems;
    rs := [];
    NilLeft(t);
    NoneBefore(Read(t));
    if s.Many? {
      if s.count > 0 {
        rs := ArrayTells(f, s, t);
      }
    } else {
      ZeroIsAllBlank(f, s.v);
      if Amount(f, s, selected) > 0 {
        var r := TaggedTells(f, s.v, t);
        rs := [r];
        OneBefore(r, [], Read(t));
      }
    }
  }

  lemma {:induction false} RestTells(fields: seq<Field>, m: Message, i: nat) returns (rs: seq<Record>)
    requires FieldsOk(fields) && MsgOk(fields, m) && i <= |fields| && EncFrom(fields, m, i).Wrote?
    ensures Read(EncFrom(fields, m, i).bytes) == Records(rs) && TellsFrom(fields, m, i, rs)
    decreases fields, 0, |fields| - i
  {
    rs := [];
    if i < |fields| {
      hide Read, EncSlot, Tells, AllBlank;
      var more := RestTells(fields, m, i + 1);
      var first := SlotTells(fields[i], m.slots[i], Selected(fields, m, i), EncFrom(fields, m, i + 1).bytes);
      rs := first + more;
      assert rs[..|first|] == first && rs[|first|..] == more;
    }
  }

  /** A message that is encoded reads, without its descriptors, as its present fields in their order: each
    * number in its wire type, each string and message delimited, packable arrays in one record, and inside
    * a message again so. */
  lemma {:induction false} MessageTells(fields: seq<Field>, m: Message)
    requires FieldsOk(fields) && MsgOk(fields, m) && EncMessage(fields, m).Wrote?
    ensures var r := Read(EncMessage(fields, m).bytes); r.Records? && TellsMessage(fields, m, r.rs)
    decreases fields, 1
  {
    var _ := RestTells(fields, m, 0);
  }
}
