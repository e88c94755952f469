/** `pb_encode.c`: the encoder over output streams, proved against `EncodeSpec`. */
module Encoder {
  import opened Bits
  import opened Wire
  import opened Descriptors
  import opened EncodeSpec
  import opened Emptiness
  import opened OutputStream
  import opened FieldIterator

  // ----- field encoders

  /** pb_encode_tag_for_field */
  method EncodeTagForField(stream: OStream, f: Field) returns (ok: bool)
    requires stream.Valid() && FieldOk(f)
    modifies stream, stream.buf
    ensures stream.Valid() && Did(old(stream.Now()), stream.Now(), ok, Wrote(FieldTag(f)))
  {
    ok := stream.EncodeTag(FieldWireType(f), f.tag);
  }

  /** pb_enc_varint and pb_enc_uvarint load the field by its size; pb_enc_svarint zigzags it. */
  method EncodeIntField(stream: OStream, f: Field, v: Value) returns (ok: bool)
    requires stream.Valid() && FieldOk(f) && ValueOk(f, v) && (f.ltype.Varint? || f.ltype.UVarint? || f.ltype.SVarint?)
    modifies stream, stream.buf
    ensures stream.Valid() && Did(old(stream.Now()), stream.Now(), ok, EncValue(f, v))
  {
    assert TypeOk(f);
    Pow2Values();
    match f.ltype
    case Varint => ok := stream.EncodeVarint(ToU64(v.i));
    case UVarint =>
      Pow2Mono(8 * f.dataSize, 64);
      ok := stream.EncodeVarint(v.i);
    case SVarint =>
      Pow2Mono(8 * f.dataSize - 1, 63);
      ok := stream.EncodeSvarint(v.i);
  }

  /** The strnlen loop of pb_enc_string */
  method StringLength(buf: seq<Byte>) returns (size: nat)
    ensures size == |CString(buf)|
  {
    size := 0;
    while size < |buf| && buf[size] != 0
      invariant size <= |buf| && size + |CString(buf[size..])| == |CString(buf)|
    {
      assert buf[size..][1..] == buf[size + 1..];
      size := size + 1;
    }
  }

  /** pb_enc_string */
  method EncodeStringField(stream: OStream, f: Field, v: Value) returns (ok: bool)
    requires stream.Valid() && FieldOk(f) && f.ltype.String? && ValueOk(f, v)
    modifies stream, stream.buf
    ensures stream.Valid() && Did(old(stream.Now()), stream.Now(), ok, EncValue(f, v))
  {
    assert TypeOk(f);
    var size := StringLength(v.buf);
    ok := stream.EncodeString(v.buf[..size]);
  }

  /** pb_enc_bytes */
  method EncodeBytesField(stream: OStream, f: Field, v: Value) returns (ok: bool)
    requires stream.Valid() && FieldOk(f) && f.ltype.Bytes? && ValueOk(f, v)
    modifies stream, stream.buf
    ensures stream.Valid() && Did(old(stream.Now()), stream.Now(), ok, EncValue(f, v))
  {
    assert TypeOk(f);
    if v.size + BYTES_HEADER > f.dataSize {
      DidNothing(stream.Now());
      return false;
    }
    ok := stream.EncodeString(v.buf[..v.size]);
  }

  /** The PB_ENCODERS table */
  method EncodeValue(stream: OStream, f: Field, v: Value) returns (ok: bool)
    requires stream.Valid() && FieldOk(f) && ValueOk(f, v) && Sized(f, v)
    modifies stream, stream.buf
    ensures stream.Valid() && Did(old(stream.Now()), stream.Now(), ok, EncValue(f, v))
    decreases f, 0
  {
    assert TypeOk(f);
    match f.ltype
    case Varint => ok := EncodeIntField(stream, f, v);
    case UVarint => ok := EncodeIntField(stream, f, v);
    case SVarint => ok := EncodeIntField(stream, f, v);
    case Fixed32 => ok := stream.EncodeFixed32(v.i);
    case Fixed64 => ok := stream.EncodeFixed64(v.i);
    case Bytes => ok := EncodeBytesField(stream, f, v);
    case String => ok := EncodeStringField(stream, f, v);
    case FixedLengthBytes => ok := stream.EncodeString(v.buf);
    case Submessage(sub) => ok := EncodeSubmessage(stream, sub, v.msg);
  }

  // ----- the test for proto3 default values

  /** A number as it lies in memory: two's complement, least significant byte first. */
  function Memory(f: Field, i: int): (p: seq<Byte>)
    ensures |p| == f.dataSize
  {
    EncFixed(i % Pow2(8 * f.dataSize), f.dataSize)
  }

  predicate AllZero(p: seq<Byte>) { forall k :: 0 <= k < |p| ==> p[k] == 0 }

  lemma AllZeroStep(b: Byte, q: seq<Byte>)
    ensures AllZero([b] + q) <==> b == 0 && AllZero(q)
  {
    var p := [b] + q;
    assert p[0] == b;
    forall k | 0 <= k < |q| ensures q[k] == p[k + 1] {
    }
  }

  lemma {:induction false} ZeroBytes(v: nat, n: nat)
    requires v < Pow2(8 * n)
    ensures v == 0 <==> AllZero(EncFixed(v, n))
  {
    if n != 0 {
      Pow2Add(8, 8 * (n - 1));
      Pow2Values();
      assert 8 * n == 8 + 8 * (n - 1);
      ZeroBytes(v / 256, n - 1);
      AllZeroStep(v % 256, EncFixed(v / 256, n - 1));
      hide AllZero;
    }
  }

  lemma ZeroResidue(i: int, m: nat)
    requires 0 < i + m && i < m
    ensures 0 <= i % m < m && (i % m == 0 <==> i == 0)
  {
    var q: int := i / m;
    assert i == q * m + i % m;
    MulAtLeast(q, m);
    MulAtLeast(-q, m);
  }

  /** The bytes of a number are all zero exactly when the number is. */
  lemma ZeroMemory(f: Field, i: int)
    requires FieldOk(f) && f.ltype.Packable() && IntOk(f, i)
    ensures i == 0 <==> AllZero(Memory(f, i))
  {
    assert TypeOk(f);
    Pow2Values();
    var m := Pow2(8 * f.dataSize);
    assert m == 2 * Pow2(8 * f.dataSize - 1);
    ZeroResidue(i, m);
    ZeroBytes(i % m, f.dataSize);
  }

  /** The catch-all loop of pb_check_proto3_default_value over the bytes of a number */
  method CheckBytes(f: Field, v: Value) returns (zero: bool)
    requires FieldOk(f) && f.ltype.Packable() && ValueOk(f, v)
    ensures zero <==> IsZero(f, v)
  {
    hide Memory, FieldOk, Pow2, IntOk;
    ZeroMemory(f, v.i);
    var p := Memory(f, v.i);
    for i := 0 to f.dataSize
      invariant forall k :: 0 <= k < i ==> p[k] == 0
    {
      if p[i] != 0 {
        return false;
      }
    }
    return true;
  }

  /** pb_check_proto3_default_value */
  method CheckProto3Default(f: Field, v: Value) returns (zero: bool)
    requires FieldOk(f) && ValueOk(f, v)
    ensures zero <==> IsZero(f, v)
    ensures zero <==> AllBlank(Place(f, v))
    decreases f, 0
  {
    hide AllBlank;
    assert TypeOk(f);
    ZeroIsAllBlank(f, v);
    if f.ltype.Bytes? {
      return v.size == 0;
    } else if f.ltype.String? {
      return v.buf[0] == 0;
    } else if f.ltype.FixedLengthBytes? {
      return f.dataSize == 0;
    } else if f.ltype.Submessage? {
      zero := CheckFields(f.ltype.fields, v.msg);
    } else {
      zero := CheckBytes(f, v);
    }
  }

  /** The data at a field's pointer: of an array, its first item. */
  method CheckData(f: Field, s: Slot) returns (zero: bool)
    requires FieldOk(f) && SlotOk(f, s)
    ensures zero <==> ZeroData(f, s)
    decreases f, 1
  {
    if s.Many? && s.items == [] {
      return true;
    }
    zero := CheckProto3Default(f, if s.Many? then s.items[0] else s.v);
  }

  /** Its loop over the fields of a message */
  method CheckFields(fields: seq<Field>, m: Message) returns (zero: bool)
    requires FieldsOk(fields) && MsgOk(fields, m)
    ensures zero <==> AllZeroData(fields, m)
    decreases fields
  {
    var iter := new FieldIter(fields, 0);
    var more := At(fields, 0).tag != 0;
    OkTagsNonzero(fields);
    hide ZeroData, DataAt, SizeAt, RequiredBefore;
    while more
      invariant iter.Valid() && iter.fields == fields && fresh(iter)
      invariant more ==> iter.pos < |fields|
      invariant forall k :: 0 <= k < (if more then iter.pos else |fields|) ==> ZeroData(fields[k], m.slots[k])
      decreases more, |fields| - iter.pos
    {
      zero := CheckData(fields[iter.pos], m.slots[iter.pos]);
      if !zero {
        return;
      }
      more := iter.Next();
    }
    return true;
  }

  // ----- submessages

  /** pb_encode_submessage, also pb_encode_delimited: a sizing pass, the length, then the writing pass
    * into a substream of exactly that size, which is always filled. */
  method EncodeSubmessage(stream: OStream, fields: seq<Field>, m: Message) returns (ok: bool)
    requires stream.Valid() && FieldsOk(fields) && MsgOk(fields, m) && SizedMessage(fields, m)
    modifies stream, stream.buf
    ensures stream.Valid() && Did(old(stream.Now()), stream.Now(), ok, Framed(EncMessage(fields, m)))
    decreases fields, 2
  {
    ghost var a, e := stream.Now(), EncMessage(fields, m);
    var sizeStream := new OStream.Sizing();
    var sized := Encode(sizeStream, fields, m);
    if !sized {
      DidNothing(a);
      return false;
    }
    var size := sizeStream.bytesWritten;
    assert size == |e.bytes|;
    ok := stream.EncodeVarint(size);
    ghost var b := stream.Now();
    ghost var length := Wrote(EncVarint(size));
    if !ok {
      DidFirst(a, b, length, e);
      return;
    }
    if stream.sizing {
      stream.Count(size);
      DidBoth(a, b, stream.Now(), true, length, e);
      return true;
    }
    if stream.bytesWritten + size > stream.maxSize {
      DidBoth(a, b, b, false, length, e);
      return false;
    }
    var substream := new OStream(stream.buf, stream.state, size);
    var status := Encode(substream, fields, m);
    stream.bytesWritten := stream.bytesWritten + substream.bytesWritten;
    stream.state := substream.state;
    DidBoth(a, b, stream.Now(), true, length, e);
    // "submsg size changed" cannot happen
    assert status && substream.bytesWritten == size;
    return substream.bytesWritten == size && status;
  }

  // ----- fields

  /** A tag and a value, as every branch of encode_basic_field writes them. */
  method EncodeTagged(stream: OStream, f: Field, v: Value) returns (ok: bool)
    requires stream.Valid() && FieldOk(f) && ValueOk(f, v) && Sized(f, v)
    modifies stream, stream.buf
    ensures stream.Valid() && Did(old(stream.Now()), stream.Now(), ok, EncTagged(f, v))
    decreases f, 1
  {
    ghost var a := stream.Now();
    ok := EncodeTagForField(stream, f);
    ghost var b := stream.Now();
    if !ok {
      DidFirst(a, b, Wrote(FieldTag(f)), EncValue(f, v));
      return;
    }
    ok := EncodeValue(stream, f, v);
    DidBoth(a, b, stream.Now(), ok, Wrote(FieldTag(f)), EncValue(f, v));
  }

  /** The sizing loop of encode_array */
  method PackedSize(f: Field, count: nat, items: seq<Value>) returns (size: nat)
    requires FieldOk(f) && f.ltype.Packable() && count <= |items| && ItemsOk(f, items)
    ensures EncItems(f, items, 0, count).Wrote? && size == |EncItems(f, items, 0, count).bytes|
    decreases f, 1
  {
    ItemsSize(f, items, 0, count);
    if f.ltype.Fixed32? {
      return 4 * count;
    } else if f.ltype.Fixed64? {
      return 8 * count;
    }
    var sizeStream := new OStream.Sizing();
    var done := EncodeItems(sizeStream, f, count, items);
    return sizeStream.bytesWritten;
  }

  /** The loop of encode_array that writes packed items */
  method EncodeItems(stream: OStream, f: Field, count: nat, items: seq<Value>) returns (ok: bool)
    requires stream.Valid() && FieldOk(f) && f.ltype.Packable() && count <= |items| && ItemsOk(f, items)
    modifies stream, stream.buf
    ensures stream.Valid() && Did(old(stream.Now()), stream.Now(), ok, EncItems(f, items, 0, count))
    decreases f, 1, 0
  {
    ghost var a, e, whole := stream.Now(), Wrote([]), EncItems(f, items, 0, count);
    DidNothing(a);
    ThenFirst(whole);
    hide Did, EncValue, EncTagged, FieldOk, ValueOk;
    for i := 0 to count
      invariant stream.Valid() && e.Wrote? && Did(a, stream.Now(), true, e)
      invariant e.Then(EncItems(f, items, i, count)) == whole
    {
      ghost var b, item, rest := stream.Now(), EncValue(f, items[i]), EncItems(f, items, i + 1, count);
      ok := EncodeValue(stream, f, items[i]);
      DidNext(a, b, stream.Now(), ok, e, item, rest);
      if !ok {
        return;
      }
      e := e.Then(item);
    }
    ok := true;
  }

  /** The loop of encode_array that writes one record per item */
  method EncodeTaggedItems(stream: OStream, f: Field, count: nat, items: seq<Value>) returns (ok: bool)
    requires stream.Valid() && FieldOk(f) && count <= |items| && ItemsOk(f, items)
    requires forall j :: 0 <= j < count ==> Sized(f, items[j])
    modifies stream, stream.buf
    ensures stream.Valid() && Did(old(stream.Now()), stream.Now(), ok, EncTaggedItems(f, items, 0, count))
    decreases f, 2, 0
  {
    ghost var a, e, whole := stream.Now(), Wrote([]), EncTaggedItems(f, items, 0, count);
    DidNothing(a);
    ThenFirst(whole);
    hide Did, EncValue, EncTagged, FieldOk, ValueOk;
    for i := 0 to count
      invariant stream.Valid() && e.Wrote? && Did(a, stream.Now(), true, e)
      invariant e.Then(EncTaggedItems(f, items, i, count)) == whole
    {
      ghost var b, item, rest := stream.Now(), EncTagged(f, items[i]), EncTaggedItems(f, items, i + 1, count);
      ok := EncodeTagged(stream, f, items[i]);
      DidNext(a, b, stream.Now(), ok, e, item, rest);
      if !ok {
        return;
      }
      e := e.Then(item);
    }
    ok := true;
  }

  /** The packed branch of encode_array */
  method EncodePacked(stream: OStream, f: Field, count: nat, items: seq<Value>) returns (ok: bool)
    requires stream.Valid() && FieldOk(f) && f.ltype.Packable() && 0 < count <= |items|
    requires |items| == f.arraySize && ItemsOk(f, items)
    modifies stream, stream.buf
    ensures stream.Valid() && Did(old(stream.Now()), stream.Now(), ok, EncArray(f, count, items))
    decreases f, 2, 0
  {
    ItemsSize(f, items, 0, count);
    ghost var a, body := stream.Now(), EncItems(f, items, 0, count);
    ghost var tag, length := Wrote(EncTag(WtString, f.tag)), Wrote(EncVarint(|body.bytes|));
    ThenAssoc(tag, length, body);
    ok := stream.EncodeTag(WtString, f.tag);
    ghost var b := stream.Now();
    if !ok {
      DidFirst(a, b, tag, length.Then(body));
      return;
    }
    var size := PackedSize(f, count, items);
    ok := stream.EncodeVarint(size);
    ghost var c := stream.Now();
    DidBoth(a, b, c, ok, tag, length);
    if !ok {
      DidFirst(a, c, tag.Then(length), body);
      return;
    }
    if stream.sizing {
      stream.Count(size);
      DidBoth(a, c, stream.Now(), true, tag.Then(length), body);
      return true;
    }
    ok := EncodeItems(stream, f, count, items);
    DidBoth(a, c, stream.Now(), ok, tag.Then(length), body);
  }

  /** encode_array */
  method EncodeArray(stream: OStream, f: Field, count: nat, items: seq<Value>) returns (ok: bool)
    requires stream.Valid() && FieldOk(f) && |items| == f.arraySize && ItemsOk(f, items)
    requires count <= |items| ==> forall j :: 0 <= j < count ==> Sized(f, items[j])
    modifies stream, stream.buf
    ensures stream.Valid() && Did(old(stream.Now()), stream.Now(), ok, EncArray(f, count, items))
    decreases f, 3
  {
    DidNothing(stream.Now());
    if count == 0 {
      return true;
    }
    if count > f.arraySize {
      return false;
    }
    if f.ltype.Packable() {
      ok := EncodePacked(stream, f, count, items);
    } else {
      ok := EncodeTaggedItems(stream, f, count, items);
    }
  }

  /** encode_basic_field; `selected` compares the union's selector with the field's tag */
  method EncodeField(stream: OStream, f: Field, slot: Slot, selected: bool) returns (ok: bool)
    requires stream.Valid() && FieldOk(f) && SlotOk(f, slot) && SizedSlot(f, slot, selected)
    modifies stream, stream.buf
    ensures stream.Valid() && Did(old(stream.Now()), stream.Now(), ok, EncSlot(f, slot, selected))
    decreases f, 4
  {
    assert TypeOk(f);
    hide Did;
    DidNothing(stream.Now());
    ok := true;
    match f.htype
    case Required =>
      ok := EncodeTagged(stream, f, slot.v);
    case Optional =>
      var present: bool;
      if f.sizeOffset != 0 {
        present := slot.has;
      } else {
        var zero := CheckProto3Default(f, slot.v);
        present := !zero;
      }
      if present {
        ok := EncodeTagged(stream, f, slot.v);
      }
    case Repeated =>
      ok := EncodeArray(stream, f, slot.count, slot.items);
    case Oneof =>
      if selected {
        ok := EncodeTagged(stream, f, slot.v);
      }
  }

  // ----- messages

  /** One turn of the loop of pb_encode, behind the fields written so far. */
  method EncodeNth(stream: OStream, fields: seq<Field>, m: Message, i: nat, ghost a: Snapshot, ghost e: Encoded)
      returns (ok: bool, ghost e': Encoded)
    requires stream.Valid() && FieldsOk(fields) && MsgOk(fields, m) && SizedMessage(fields, m) && i < |fields|
    requires a.Valid() && e.Wrote? && Did(a, stream.Now(), true, e)
    modifies stream, stream.buf
    ensures stream.Valid()
    ensures ok ==>
              && e'.Wrote? && Did(a, stream.Now(), true, e')
              && e'.Then(EncFrom(fields, m, i + 1)) == e.Then(EncFrom(fields, m, i))
    ensures !ok ==> Did(a, stream.Now(), false, e.Then(EncFrom(fields, m, i)))
    decreases fields, 0
  {
    assert FieldOk(fields[i]) && SlotOk(fields[i], m.slots[i])
           && SizedSlot(fields[i], m.slots[i], Selected(fields, m, i));
    ghost var b := stream.Now();
    ghost var one, rest := EncSlot(fields[i], m.slots[i], Selected(fields, m, i)), EncFrom(fields, m, i + 1);
    hide EncSlot, SlotOk, SizedSlot, FieldOk;
    ok := EncodeField(stream, fields[i], m.slots[i], Selected(fields, m, i));
    DidNext(a, b, stream.Now(), ok, e, one, rest);
    e' := e.Then(one);
  }

  lemma NothingLeft(fields: seq<Field>, m: Message, e: Encoded)
    requires FieldsOk(fields) && MsgOk(fields, m)
    ensures e.Then(EncFrom(fields, m, |fields|)) == e
  {
    if e.Wrote? {
      assert e.bytes + [] == e.bytes;
    }
  }

  /** pb_encode: it succeeds exactly when the message can be encoded and there is room for all of it, and
    * then appends exactly the encoding. */
  method Encode(stream: OStream, fields: seq<Field>, m: Message) returns (ok: bool)
    requires stream.Valid() && FieldsOk(fields) && MsgOk(fields, m) && SizedMessage(fields, m)
    modifies stream, stream.buf
    ensures stream.Valid() && Did(old(stream.Now()), stream.Now(), ok, EncMessage(fields, m))
    decreases fields, 1
  {
    ghost var a, e := stream.Now(), Wrote([]);
    ghost var whole := EncMessage(fields, m);
    DidNothing(a);
    var iter := new FieldIter(fields, 0);
    var more := At(fields, 0).tag != 0;
    OkTagsNonzero(fields);
    ThenFirst(whole);
    hide Did, EncFrom, EncSlot, FieldsOk, MsgOk, SizedMessage, DataAt, SizeAt, RequiredBefore, EncVarint;
    while more
      invariant iter.Valid() && iter.fields == fields && fresh(iter)
      invariant stream.Valid() && e.Wrote? && Did(a, stream.Now(), true, e)
      invariant more ==> iter.pos < |fields| && e.Then(EncFrom(fields, m, iter.pos)) == whole
      invariant !more ==> e.Then(EncFrom(fields, m, |fields|)) == whole
      decreases more, |fields| - iter.pos
    {
      ok, e := EncodeNth(stream, fields, m, iter.pos, a, e);
      if !ok {
        return;
      }
      more := iter.Next();
    }
    NothingLeft(fields, m, e);
    ok := true;
  }

  /** pb_get_encoded_size */
  method GetEncodedSize(fields: seq<Field>, m: Message) returns (ok: bool, size: nat)
    requires FieldsOk(fields) && MsgOk(fields, m) && SizedMessage(fields, m)
    ensures ok == EncMessage(fields, m).Wrote?
    ensures ok ==> size == |EncMessage(fields, m).bytes|
  {
    var stream := new OStream.Sizing();
    ok := Encode(stream, fields, m);
    size := stream.bytesWritten;
  }
}
