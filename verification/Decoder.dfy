/** `pb_decode.c`: the decoder over input streams, proved against `DecodeSpec`. */
module Decoder {
  import opened Bits
  import opened Wire
  import opened Descriptors
  import opened DecodeSpec
  import opened Integers
  import opened InputStream
  import opened FieldIterator
  import opened RequiredBits

  // ----- field decoders

  /** pb_dec_varint */
  method DecVarintField(stream: IStream, f: Field, v: Value) returns (ok: bool, v': Value)
    requires stream.Valid() && f.ltype.Varint?
    modifies stream
    ensures stream.Valid() && stream.End() == old(stream.End())
    ensures var r := DecInt(f, old(stream.Contents()), v);
            ok == r.Done? && v' == r.v && stream.Contents() == r.rest
  {
    hide Pow2, DecVarintIn, ToSigned, ToU64, FitsSigned, Cast;
    var read, value := stream.DecodeVarint();
    if !read {
      return false, v;
    }
    var svalue := if f.dataSize == 8 then ToSigned(value, 64) else ToSigned(value, 32);
    SignedCasts(f, svalue);
    var clamped: int;
    if f.dataSize == 8 {
      SignedCast(svalue, 8);
      clamped := svalue;
    } else if f.dataSize == 4 {
      clamped := ToSigned(ToU64(svalue), 32);
    } else if f.dataSize == 2 {
      clamped := ToSigned(ToU64(svalue), 16);
    } else if f.dataSize == 1 {
      clamped := ToSigned(ToU64(svalue), 8);
    } else {
      return false, v;
    }
    return clamped == svalue, IntV(clamped);
  }

  lemma UnsignedCasts(f: Field, value: nat)
    requires f.ltype.UVarint? && value < TWO64
    ensures f.dataSize == 8 ==> Cast(f, value) == value
    ensures f.dataSize == 4 ==> Cast(f, value) == value % TWO32
    ensures f.dataSize == 2 ==> Cast(f, value) == value % 0x1_0000
    ensures f.dataSize == 1 ==> Cast(f, value) == value % 0x100
  {
    Pow2Values();
    SmallMod(value, TWO64);
  }

  lemma SignedCasts(f: Field, value: int)
    requires f.ltype.Varint? || f.ltype.SVarint?
    ensures f.dataSize == 8 ==> Cast(f, value) == ToSigned(ToU64(value), 64)
    ensures f.dataSize == 4 ==> Cast(f, value) == ToSigned(ToU64(value), 32)
    ensures f.dataSize == 2 ==> Cast(f, value) == ToSigned(ToU64(value), 16)
    ensures f.dataSize == 1 ==> Cast(f, value) == ToSigned(ToU64(value), 8)
  {
    hide ToSigned;
  }

  /** pb_dec_uvarint */
  method DecUvarintField(stream: IStream, f: Field, v: Value) returns (ok: bool, v': Value)
    requires stream.Valid() && f.ltype.UVarint?
    modifies stream
    ensures stream.Valid() && stream.End() == old(stream.End())
    ensures var r := DecInt(f, old(stream.Contents()), v);
            ok == r.Done? && v' == r.v && stream.Contents() == r.rest
  {
    var read, value := stream.DecodeVarint();
    if !read {
      return false, v;
    }
    var clamped: nat;
    UnsignedCasts(f, value);
    hide Cast;
    if f.dataSize == 8 {
      clamped := value;
    } else if f.dataSize == 4 {
      clamped := value % TWO32;
    } else if f.dataSize == 2 {
      clamped := value % 0x1_0000;
    } else if f.dataSize == 1 {
      clamped := value % 0x100;
    } else {
      return false, v;
    }
    return clamped == value, IntV(clamped);
  }

  /** pb_dec_svarint */
  method DecSvarintField(stream: IStream, f: Field, v: Value) returns (ok: bool, v': Value)
    requires stream.Valid() && f.ltype.SVarint?
    modifies stream
    ensures stream.Valid() && stream.End() == old(stream.End())
    ensures var r := DecInt(f, old(stream.Contents()), v);
            ok == r.Done? && v' == r.v && stream.Contents() == r.rest
  {
    hide Pow2, DecVarintIn, ToSigned, ToU64, FitsSigned, UnZigZag, Cast;
    var read, value := stream.DecodeSvarint();
    if !read {
      return false, v;
    }
    SignedCasts(f, value);
    var clamped: int;
    if f.dataSize == 8 {
      UnZigZagFits(DecVarint64(old(stream.Contents())).value);
      SignedCast(value, 8);
      clamped := value;
    } else if f.dataSize == 4 {
      clamped := ToSigned(ToU64(value), 32);
    } else if f.dataSize == 2 {
      clamped := ToSigned(ToU64(value), 16);
    } else if f.dataSize == 1 {
      clamped := ToSigned(ToU64(value), 8);
    } else {
      return false, v;
    }
    return clamped == value, IntV(clamped);
  }

  lemma UnZigZagFits(u: nat)
    requires u < TWO64
    ensures FitsSigned(UnZigZag(u), 64)
  {
    Pow2Values();
    assert Pow2(64) == 2 * Pow2(63);
  }

  /** pb_dec_bytes */
  method DecBytesField(stream: IStream, f: Field, v: Value) returns (ok: bool, v': Value)
    requires stream.Valid() && f.ltype.Bytes? && ValueOk(f, v)
    modifies stream
    ensures stream.Valid() && stream.End() == old(stream.End())
    ensures var r := DecBytes(f, old(stream.Contents()), v);
            ok == r.Done? && v' == r.v && stream.Contents() == r.rest
  {
    var read, size := stream.DecodeVarint32();
    if !read {
      return false, v;
    }
    var allocSize := size + BYTES_HEADER;
    if size > PB_SIZE_MAX || size > allocSize || allocSize > f.dataSize {
      return false, v;
    }
    var got, bytes := stream.Read(size);
    if !got {
      return false, BytesV(size, v.buf);
    }
    return true, BytesV(size, bytes + v.buf[size..]);
  }

  /** pb_dec_string; size + 1 is computed in 32 bits */
  method DecStringField(stream: IStream, f: Field, v: Value) returns (ok: bool, v': Value)
    requires stream.Valid() && f.ltype.String? && f.dataSize <= PB_SIZE_MAX && ValueOk(f, v)
    modifies stream
    ensures stream.Valid() && stream.End() == old(stream.End())
    ensures var r := DecString(f, old(stream.Contents()), v);
            ok == r.Done? && v' == r.v && stream.Contents() == r.rest
  {
    var read, size := stream.DecodeVarint32();
    if !read {
      return false, v;
    }
    var allocSize := (size + 1) % TWO32;
    if allocSize < size || allocSize > f.dataSize {
      return false, v;
    }
    var got, bytes := stream.Read(size);
    if !got {
      return false, BufV(v.buf[size := 0]);
    }
    return true, BufV(bytes + [0] + v.buf[size + 1..]);
  }

  /** pb_dec_fixed_length_bytes */
  method DecFixedLengthField(stream: IStream, f: Field, v: Value) returns (ok: bool, v': Value)
    requires stream.Valid() && f.ltype.FixedLengthBytes? && ValueOk(f, v)
    modifies stream
    ensures stream.Valid() && stream.End() == old(stream.End())
    ensures var r := DecFixedLength(f, old(stream.Contents()), v);
            ok == r.Done? && v' == r.v && stream.Contents() == r.rest
  {
    var read, size := stream.DecodeVarint32();
    if !read || size > PB_SIZE_MAX {
      return false, v;
    }
    if size == 0 {
      return true, BufV(Zeros(f.dataSize));
    }
    if size != f.dataSize {
      return false, v;
    }
    var got, bytes := stream.Read(f.dataSize);
    return got, if got then BufV(bytes) else v;
  }

  /** The PB_DECODERS table, for everything but messages. */
  method DecodeLeaf(stream: IStream, f: Field, v: Value) returns (ok: bool, v': Value)
    requires stream.Valid() && IsLeaf(f) && FieldOk(f) && ValueOk(f, v)
    modifies stream
    ensures stream.Valid() && stream.End() == old(stream.End())
    ensures var r := DecLeaf(f, old(stream.Contents()), v);
            ok == r.Done? && v' == r.v && stream.Contents() == r.rest
  {
    hide DecInt, DecBytes, DecString, DecFixedLength;
    assert TypeOk(f);
    match f.ltype
    case Varint => ok, v' := DecVarintField(stream, f, v);
    case UVarint => ok, v' := DecUvarintField(stream, f, v);
    case SVarint => ok, v' := DecSvarintField(stream, f, v);
    case Fixed32 =>
      var value: nat;
      ok, value := stream.DecodeFixed32();
      v' := if ok then IntV(value) else v;
    case Fixed64 =>
      var value: nat;
      ok, value := stream.DecodeFixed64();
      v' := if ok then IntV(value) else v;
    case Bytes => ok, v' := DecBytesField(stream, f, v);
    case String => ok, v' := DecStringField(stream, f, v);
    case FixedLengthBytes => ok, v' := DecFixedLengthField(stream, f, v);
  }

  // ----- default values

  /** The initial value of a field that is not an array or a union member. */
  method SetValueToDefault(f: Field, v: Value) returns (v': Value)
    requires FieldOk(f) && ValueOk(f, v)
    ensures v' == InitValue(f, v)
    decreases f, 0
  {
    assert TypeOk(f);
    if f.ltype.Submessage? {
      var m := SetToDefaults(f.ltype.fields, v.msg);
      v' := MsgV(m);
    } else if f.default.Default? {
      v' := f.default.v;
    } else {
      v' := ZeroValue(f);
    }
  }

  /** pb_field_set_to_default: the slot, and the union selector for a union member. */
  method SetFieldToDefault(f: Field, s: Slot, which: map<nat, nat>, group: nat)
      returns (s': Slot, which': map<nat, nat>)
    requires FieldOk(f) && SlotOk(f, s)
    ensures s' == InitSlot(f, s)
    ensures which' == if f.htype.Oneof? then which - {group} else which
    decreases f, 1
  {
    s', which' := s, which;
    if f.HasFlag() {
      var v := SetValueToDefault(f, s.v);
      s' := Opt(false, v);
    } else if f.htype.Repeated? {
      s' := Many(0, s.items);
    } else if f.htype.Oneof? {
      which' := which - {group};
    } else {
      var v := SetValueToDefault(f, s.v);
      s' := One(v);
    }
  }

  /** The fields before n hold their defaults, the others are untouched. */
  predicate DefaultsUpTo(fields: seq<Field>, m: Message, n: nat, slots: seq<Slot>, which: map<nat, nat>)
    requires FieldsOk(fields) && MsgOk(fields, m) && n <= |fields|
  {
    && |slots| == |fields|
    && which == m.which - Groups(fields, n)
    && (forall i :: 0 <= i < n ==> slots[i] == InitSlot(fields[i], m.slots[i]))
    && (forall i :: n <= i < |fields| ==> slots[i] == m.slots[i])
  }

  lemma DefaultsStep(fields: seq<Field>, m: Message, n: nat, slots: seq<Slot>, which: map<nat, nat>)
    requires FieldsOk(fields) && MsgOk(fields, m) && n < |fields| && DefaultsUpTo(fields, m, n, slots, which)
    ensures var which' := if fields[n].htype.Oneof? then which - {Group(fields, n)} else which;
            |slots| == |fields| && slots[n] == m.slots[n]
            && DefaultsUpTo(fields, m, n + 1, slots[n := InitSlot(fields[n], m.slots[n])], which')
  {
    GroupsStep(fields, n, m.which);
  }

  lemma DefaultsNone(fields: seq<Field>, m: Message)
    requires FieldsOk(fields) && MsgOk(fields, m)
    ensures DefaultsUpTo(fields, m, 0, m.slots, m.which)
  {
    assert Groups(fields, 0) == {};
  }

  lemma DefaultsDone(fields: seq<Field>, m: Message, slots: seq<Slot>, which: map<nat, nat>)
    requires FieldsOk(fields) && MsgOk(fields, m) && DefaultsUpTo(fields, m, |fields|, slots, which)
    ensures Message(slots, which) == Defaults(fields, m)
  {
    assert slots == Defaults(fields, m).slots;
  }

  lemma FieldAndSlotOk(fields: seq<Field>, m: Message, i: nat)
    requires FieldsOk(fields) && MsgOk(fields, m) && i < |fields|
    ensures FieldOk(fields[i]) && |m.slots| == |fields| && SlotOk(fields[i], m.slots[i])
  {
    hide FieldOk, SlotOk;
  }

  /** pb_message_set_to_defaults */
  method SetToDefaults(fields: seq<Field>, m: Message) returns (m': Message)
    requires FieldsOk(fields) && MsgOk(fields, m)
    ensures m' == Defaults(fields, m)
    decreases fields
  {
    var slots, which := m.slots, m.which;
    var iter := new FieldIter(fields, 0);
    var more := At(fields, 0).tag != 0;
    OkTagsNonzero(fields);
    DefaultsNone(fields, m);
    hide DefaultsUpTo, InitSlot, FieldsOk, FieldOk, MsgOk, SlotOk, DataAt, SizeAt, RequiredBefore, Group;
    while more
      invariant iter.Valid() && iter.fields == fields && fresh(iter)
      invariant more ==> iter.pos < |fields|
      invariant DefaultsUpTo(fields, m, if more then iter.pos else |fields|, slots, which)
      decreases more, |fields| - iter.pos
    {
      var i := iter.pos;
      FieldAndSlotOk(fields, m, i);
      DefaultsStep(fields, m, i, slots, which);
      var slot: Slot;
      slot, which := SetFieldToDefault(fields[i], slots[i], which, Group(fields, i));
      slots := slots[i := slot];
      more := iter.Next();
    }
    DefaultsDone(fields, m, slots, which);
    m' := Message(slots, which);
  }

  lemma GroupsStep(fields: seq<Field>, i: nat, which: map<nat, nat>)
    requires i < |fields|
    ensures which - Groups(fields, i + 1) ==
            if fields[i].htype.Oneof? then which - Groups(fields, i) - {Group(fields, i)} else which - Groups(fields, i)
  {
    var g := if fields[i].htype.Oneof? then {Group(fields, i)} else {};
    assert Groups(fields, i + 1) == Groups(fields, i) + g by {
      forall x | x in Groups(fields, i + 1) ensures x in Groups(fields, i) + g {
        var j :| 0 <= j < i + 1 && fields[j].htype.Oneof? && Group(fields, j) == x;
      }
    }
  }

  // ----- fields and messages

  /** The stream after an operation that failed may lag behind its byte count. */
  ghost predicate After<T>(stream: IStream, oldEnd: nat, r: Decoded<T>, ok: bool)
    reads stream, stream.buf
  {
    && stream.Valid()
    && ok == r.Ok?
    && match r
       case Ok(_, rest) => stream.End() == oldEnd && stream.Contents() == rest
       case Err(_, lag) => stream.End() + lag == oldEnd
  }

  /** The contents of a submessage: a new array entry starts from its defaults. */
  method DecodeBody(stream: IStream, f: Field, v: Value) returns (ok: bool, m: Message)
    requires stream.Valid() && FieldOk(f) && f.ltype.Submessage? && ValueOk(f, v)
    modifies stream
    ensures FieldsOk(f.ltype.fields) && MsgOk(f.ltype.fields, v.msg)
    ensures var m0 := if f.htype.Repeated? then Defaults(f.ltype.fields, v.msg) else v.msg;
            var r := DecMessage(f.ltype.fields, old(stream.Contents()), m0);
            After(stream, old(stream.End()), r, ok) && m == r.out
    decreases stream.bytesLeft, 7
  {
    assert TypeOk(f);
    hide FieldOk, FieldsOk, MsgOk, DecMessage, Defaults;
    if f.htype.Repeated? {
      ok, m := Decode(stream, f.ltype.fields, v.msg);
    } else {
      ok, m := DecodeNoinit(stream, f.ltype.fields, v.msg);
    }
  }

  /** pb_dec_submessage */
  method DecodeSubmessage(stream: IStream, f: Field, v: Value) returns (ok: bool, v': Value)
    requires stream.Valid() && FieldOk(f) && f.ltype.Submessage? && ValueOk(f, v)
    modifies stream
    ensures var r := DecValue(f, old(stream.Contents()), v);
            After(stream, old(stream.End()), r, ok) && v' == r.out
    decreases stream.bytesLeft, 1
  {
    hide FieldOk, ValueOk, DecMessage, DecPiece, DecLeaf, Defaults;
    ghost var piece := DecPiece(stream.Contents());
    var made, substream := stream.MakeSubstream();
    if !made {
      return false, v;
    }
    var status, m := DecodeBody(substream, f, v);
    var closed := stream.CloseSubstream(substream);
    if status {
      assert stream.Contents() == piece.rest;
    }
    return closed && status, MsgV(m);
  }

  /** One item of a field. */
  method DecodeValue(stream: IStream, f: Field, v: Value) returns (ok: bool, v': Value)
    requires stream.Valid() && FieldOk(f) && ValueOk(f, v)
    modifies stream
    ensures var r := DecValue(f, old(stream.Contents()), v);
            After(stream, old(stream.End()), r, ok) && v' == r.out
    decreases stream.bytesLeft, 2
  {
    assert TypeOk(f);
    if f.ltype.Submessage? {
      ok, v' := DecodeSubmessage(stream, f, v);
    } else {
      ok, v' := DecodeLeaf(stream, f, v);
    }
  }

  /** The loop over a packed payload */
  method DecodeElements(stream: IStream, f: Field, slot: Slot) returns (status: bool, slot': Slot)
    requires stream.Valid() && FieldOk(f) && SlotOk(f, slot) && f.htype.Repeated? && f.ltype.Packable()
    modifies stream
    ensures stream.Valid() && stream.End() == old(stream.End())
    ensures slot'.Many?
    ensures DecElements(f, old(stream.Contents()), slot.count, slot.items) ==
              Elements(slot'.count, slot'.items, stream.bytesLeft, status)
  {
    hide DecLeaf, FieldOk, ValueOk;
    ghost var p := stream.Contents();
    status := true;
    var size: nat, items := slot.count, slot.items;
    while stream.bytesLeft > 0 && size < f.arraySize
      invariant stream.Valid() && stream.End() == old(stream.End()) && status
      invariant |items| == f.arraySize && forall j :: 0 <= j < |items| ==> ValueOk(f, items[j])
      invariant DecElements(f, p, slot.count, slot.items) == DecElements(f, stream.Contents(), size, items)
      decreases stream.bytesLeft
    {
      var done, v := DecodeLeaf(stream, f, items[size]);
      items := items[size := v];
      if !done {
        status := false;
        break;
      }
      size := size + 1;
    }
    slot' := Many(size, items);
  }

  /** The packed branch of decode_static_field. A full array or a bad element with bytes left over
    * returns without closing the substream. */
  method DecodePacked(stream: IStream, f: Field, slot: Slot) returns (ok: bool, slot': Slot)
    requires stream.Valid() && FieldOk(f) && SlotOk(f, slot) && f.htype.Repeated? && f.ltype.Packable()
    modifies stream
    ensures var r := DecSlot(f, WtString, old(stream.Contents()), slot);
            After(stream, old(stream.End()), r, ok) && slot' == r.out
  {
    hide DecElements, DecPiece, FieldOk, ValueOk;
    ghost var piece := DecPiece(stream.Contents());
    var made, substream := stream.MakeSubstream();
    if !made {
      return false, slot;
    }
    var status: bool;
    status, slot' := DecodeElements(substream, f, slot);
    if substream.bytesLeft != 0 {
      return false, slot';
    }
    var closed := stream.CloseSubstream(substream);
    assert stream.Contents() == piece.rest;
    return closed && status, slot';
  }

  /** decode_static_field, on the slot that the iterator's pointers stand for */
  method DecodeSlot(stream: IStream, wt: WireType, f: Field, slot: Slot) returns (ok: bool, slot': Slot)
    requires stream.Valid() && FieldOk(f) && SlotOk(f, slot)
    modifies stream
    ensures var r := DecSlot(f, wt, old(stream.Contents()), slot);
            After(stream, old(stream.End()), r, ok) && slot' == r.out
    decreases stream.bytesLeft, 3
  {
    hide FieldOk, ValueOk, DecValue, DecElements, DecPiece;
    var v: Value;
    match f.htype
    case Required =>
      ok, v := DecodeValue(stream, f, slot.v);
      slot' := One(v);
    case Optional =>
      ok, v := DecodeValue(stream, f, slot.v);
      slot' := if f.HasFlag() then Opt(true, v) else One(v);
    case Oneof =>
      var start := slot.v;
      if f.ltype.Submessage? {
        start := ClearUnionMessage(f);
      }
      ok, v := DecodeValue(stream, f, start);
      slot' := One(v);
    case Repeated =>
      if wt.WtString? && f.ltype.Packable() {
        ok, slot' := DecodePacked(stream, f, slot);
      } else if slot.count >= f.arraySize {
        return false, slot;
      } else {
        ok, v := DecodeValue(stream, f, slot.items[slot.count]);
        slot' := Many(slot.count + 1, slot.items[slot.count := v]);
      }
  }

  /** The memset and pb_message_set_to_defaults of a union's message. */
  method ClearUnionMessage(f: Field) returns (v: Value)
    requires FieldOk(f) && f.ltype.Submessage? && f.htype.Oneof?
    ensures ValueOk(f, v) && forall u :: ValueOk(f, u) ==> v == UnionStart(f, u)
  {
    assert TypeOk(f);
    var m := SetToDefaults(f.ltype.fields, ZeroMessage(f.ltype.fields));
    v := MsgV(m);
  }

  /** The check at the end of pb_decode_noinit: it walks the iterator to the end to count the required
    * fields, then compares the bitmap words. */
  method CheckRequired(iter: FieldIter, fieldsSeen: array<nat>) returns (ok: bool)
    requires iter.Valid() && FieldsOk(iter.fields) && fieldsSeen.Length == 2
    modifies iter
    ensures ok == CheckPasses(RequiredBefore(iter.fields, |iter.fields|), fieldsSeen[0], fieldsSeen[1])
  {
    hide DataAt, SizeAt;
    OkTagsNonzero(iter.fields);
    hide FieldsOk, Pow2;
    var fields := iter.fields;
    var reqFieldCount := iter.requiredFieldIndex;
    var last := At(fields, iter.pos);
    var more := iter.Next();
    while more
      invariant iter.Valid()
      invariant more ==>
                  0 < iter.pos < |fields|
                      && RequiredBefore(fields, iter.pos) == reqFieldCount + (if last.htype.Required? then 1 else 0)
      invariant !more && fields != [] ==>
                  iter.pos == 0
                      && RequiredBefore(fields, |fields|) == reqFieldCount + (if last.htype.Required? then 1 else 0)
      invariant fields == [] ==> reqFieldCount == 0 && !more
      decreases more, |fields| - iter.pos
    {
      reqFieldCount := iter.requiredFieldIndex;
      last := At(fields, iter.pos);
      more := iter.Next();
    }
    if last.htype.Required? && At(fields, iter.pos).tag != 0 {
      reqFieldCount := reqFieldCount + 1;
    }
    if reqFieldCount > 0 {
      for i := 0 to reqFieldCount / 32
        invariant forall k :: 0 <= k < i ==> fieldsSeen[k] == ALLBITS
      {
        if fieldsSeen[i] != ALLBITS {
          return false;
        }
      }
      if fieldsSeen[reqFieldCount / 32] != ALLBITS / Pow2(32 - reqFieldCount % 32) {
        return false;
      }
    }
    return true;
  }

  datatype Turn = NextField | EndOfMessage | DecodeError

  /** Finding and marking the field of a tag in pb_decode_noinit. */
  method FindAndMark(fields: seq<Field>, iter: FieldIter, fieldsSeen: array<nat>, tag: nat, ghost seen: set<nat>)
      returns (found: bool, ghost seen': set<nat>)
    requires FieldsOk(fields) && iter.Valid() && iter.fields == fields && fieldsSeen.Length == 2
    requires Tracks(fields, seen, fieldsSeen[0], fieldsSeen[1])
    modifies iter, fieldsSeen
    ensures iter.Valid() && Tracks(fields, seen', fieldsSeen[0], fieldsSeen[1])
    ensures found <==> Lookup(fields, tag) < |fields| || (fields == [] && tag == 0)
    ensures found && fields != [] ==>
              && iter.pos == Lookup(fields, tag)
              && seen' == if fields[iter.pos].htype.Required? then seen + {iter.pos} else seen
    ensures !found || fields == [] ==> seen' == seen
  {
    hide DataAt, SizeAt, Tracks;
    OkTagsNonzero(fields);
    LeavesNoExtension(fields);
    hide FieldOk, Bit, Or;
    seen' := seen;
    found := iter.Find(tag);
    if !found || fields == [] {
      return;
    }
    var i := iter.pos;
    LookupFinds(fields, i, tag);
    if fields[i].htype.Required? && iter.requiredFieldIndex < MAX_REQUIRED_FIELDS {
      MarkTracks(fields, seen, fieldsSeen[0], fieldsSeen[1], i);
      var word := iter.requiredFieldIndex / 32;
      fieldsSeen[word] := Or(fieldsSeen[word], Pow2(iter.requiredFieldIndex % 32));
      seen' := seen + {i};
    }
    RequiredWithinBitmap(fields, i);
  }

  lemma LeavesNoExtension(fields: seq<Field>)
    requires FieldsOk(fields)
    ensures forall i :: 0 <= i < |fields| ==> !fields[i].ltype.Extension?
  {
    assert forall i :: 0 <= i < |fields| ==> FieldOk(fields[i]) && TypeOk(fields[i]);
  }

  lemma RequiredWithinBitmap(fields: seq<Field>, i: nat)
    requires FieldsOk(fields) && i < |fields|
    ensures fields[i].htype.Required? ==> RequiredBefore(fields, i) < MAX_REQUIRED_FIELDS
  {
    BeforeMono(fields, i, |fields|);
  }

  /** One turn of the loop of pb_decode_noinit. */
  method DecodeRecord(stream: IStream, fields: seq<Field>, iter: FieldIter, fieldsSeen: array<nat>, extensionStart: nat,
                      m: Message, ghost seen: set<nat>)
      returns (turn: Turn, m': Message, extensionStart': nat, ghost seen': set<nat>)
    requires stream.Valid() && stream.bytesLeft > 0 && FieldsOk(fields) && MsgOk(fields, m)
    requires iter.Valid() && iter.fields == fields && fieldsSeen.Length == 2
    requires Tracks(fields, seen, fieldsSeen[0], fieldsSeen[1])
    modifies stream, iter, fieldsSeen
    ensures stream.Valid() && iter.Valid() && Tracks(fields, seen', fieldsSeen[0], fieldsSeen[1])
    ensures var step := DecRecord(fields, old(stream.Contents()), State(m, seen));
            && (turn.NextField? <==> step.More?) && (turn.EndOfMessage? <==> step.Stop?)
            && (step.More? ==>
                step.st == State(m', seen') && stream.Contents() == step.rest && stream.End() == old(stream.End()))
            && (step.Stop? ==>
                m' == m && seen' == seen && stream.Contents() == step.rest && stream.End() == old(stream.End()))
            && (step.Fail? ==> step.st.msg == m' && stream.End() + step.lag == old(stream.End()))
    decreases stream.bytesLeft, 4
  {
    hide DecTag, DecSlot, Skip, Tracks, FieldOk;
    m', extensionStart', seen' := m, extensionStart, seen;
    var got, wt, tag, eof := stream.DecodeTag();
    if !got {
      return if eof then EndOfMessage else DecodeError, m', extensionStart', seen';
    }
    var found: bool;
    found, seen' := FindAndMark(fields, iter, fieldsSeen, tag, seen);
    if !found {
      if tag >= extensionStart {
        // no placeholder: the range starts beyond every tag, and decode_extension is never tried
        var placeholder := FindPlaceholder(iter);
        extensionStart' := PB_SIZE_MAX;
        assert !placeholder && tag < extensionStart';
      }
      var skipped := stream.SkipField(wt);
      return if skipped then NextField else DecodeError, m', extensionStart', seen';
    }
    if fields == [] {
      // PB_LAST_FIELD: pb_dec_varint on a field of size 0
      var bad, _ := DecVarintField(stream, LAST_FIELD, IntV(0));
      return if bad then NextField else DecodeError, m', extensionStart', seen';
    }
    var slot: Slot;
    got, slot := DecodeSlot(stream, wt, fields[iter.pos], m.slots[iter.pos]);
    m' := Put(fields, m, iter.pos, slot);
    return if got then NextField else DecodeError, m', extensionStart', seen';
  }

  /** find_extension_field; these descriptors have no placeholder. */
  method FindPlaceholder(iter: FieldIter) returns (placeholder: bool)
    requires iter.Valid() && FieldsOk(iter.fields)
    modifies iter
    ensures iter.Valid() && iter.pos == old(iter.pos) && !placeholder
  {
    OkTagsNonzero(iter.fields);
    LeavesNoExtension(iter.fields);
    placeholder := iter.FindExtension();
  }

  /** pb_decode_noinit */
  method DecodeNoinit(stream: IStream, fields: seq<Field>, m: Message) returns (ok: bool, m': Message)
    requires stream.Valid() && FieldsOk(fields) && MsgOk(fields, m)
    modifies stream
    ensures var r := DecMessage(fields, old(stream.Contents()), m);
            After(stream, old(stream.End()), r, ok) && m' == r.out
    decreases stream.bytesLeft, 5
  {
    hide FieldsOk, MsgOk, DecRecord, Tracks, DataAt, SizeAt;
    m' := m;
    var fieldsSeen := new nat[2](_ => 0);
    var extensionStart := 0;
    var iter := new FieldIter(fields, 0);
    ghost var s0, oldEnd := stream.Contents(), stream.End();
    ghost var seen: set<nat> := {};
    NothingTracked(fields);
    var turn := NextField;
    while stream.bytesLeft != 0 && turn.NextField?
      invariant !turn.DecodeError?
      invariant stream.Valid() && stream.End() == oldEnd && MsgOk(fields, m')
      invariant iter.Valid() && iter.fields == fields && fresh(iter) && fresh(fieldsSeen)
      invariant Tracks(fields, seen, fieldsSeen[0], fieldsSeen[1])
      invariant DecLoop(fields, s0, State(m, {})) ==
                if turn.NextField? then DecLoop(fields, stream.Contents(), State(m', seen))
                else Ok(State(m', seen), stream.Contents())
      invariant stream.bytesLeft <= old(stream.bytesLeft)
      decreases turn.NextField?, stream.bytesLeft
    {
      turn, m', extensionStart, seen := DecodeRecord(stream, fields, iter, fieldsSeen, extensionStart, m', seen);
      if turn.DecodeError? {
        return false, m';
      }
    }
    RequiredCovered(fields);
    var complete := CheckRequired(iter, fieldsSeen);
    CheckIsExact(fields, seen, fieldsSeen[0], fieldsSeen[1]);
    return complete, m';
  }

  lemma RequiredCovered(fields: seq<Field>)
    requires FieldsOk(fields)
    ensures BitmapCovers(RequiredBefore(fields, |fields|))
  {
  }

  /** pb_decode */
  method Decode(stream: IStream, fields: seq<Field>, m: Message) returns (ok: bool, m': Message)
    requires stream.Valid() && FieldsOk(fields) && MsgOk(fields, m)
    modifies stream
    ensures var r := DecInit(fields, old(stream.Contents()), m);
            After(stream, old(stream.End()), r, ok) && m' == r.out
    decreases stream.bytesLeft, 6
  {
    var d := SetToDefaults(fields, m);
    ok, m' := DecodeNoinit(stream, fields, d);
  }

  /** pb_decode_delimited: on success the parent stands at the end of the frame; on failure it stands
    * there too unless the body failed inside a packed array. */
  method DecodeDelimited(stream: IStream, fields: seq<Field>, m: Message) returns (ok: bool, m': Message)
    requires stream.Valid() && FieldsOk(fields) && MsgOk(fields, m)
    modifies stream
    ensures var r := DecDelimited(fields, old(stream.Contents()), m);
            After(stream, old(stream.End()), r, ok) && m' == r.out
    ensures var piece := DecPiece(old(stream.Contents()));
            piece.Piece? ==> stream.bytesLeft == |piece.rest|
  {
    hide FieldsOk, MsgOk, DecInit, DecPiece;
    ghost var piece := DecPiece(stream.Contents());
    var made, substream := stream.MakeSubstream();
    if !made {
      return false, m;
    }
    var status: bool;
    status, m' := Decode(substream, fields, m);
    var closed := stream.CloseSubstream(substream);
    if status {
      assert stream.Contents() == piece.rest;
    }
    return closed && status, m';
  }
}
