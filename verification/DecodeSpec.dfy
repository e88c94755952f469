/** What decoding computes, as functions of the remaining bytes and the old contents of the struct.
  * The methods of `Decoder` compute exactly these functions. */
module DecodeSpec {
  import opened Bits
  import opened Wire
  import opened Descriptors

  // ----- scalar, bytes and string fields

  /** The outcome for one leaf: what the destination holds and what is left of the stream. */
  datatype Leaf = Done(v: Value, rest: seq<Byte>) | Failed(v: Value, rest: seq<Byte>)

  predicate IsInt(f: Field) { f.ltype.Varint? || f.ltype.UVarint? || f.ltype.SVarint? }

  /** The number a varint stands for, before it is cast to the field's size. Signed fields of up to
    * four bytes go through int32_t first. */
  function IntRead(f: Field, u: nat): int
    requires IsInt(f)
  {
    match f.ltype
    case Varint => if f.dataSize == 8 then ToSigned(u, 64) else ToSigned(u, 32)
    case SVarint => UnZigZag(u)
    case _ => u
  }

  /** The C cast to the field's width. */
  function Cast(f: Field, i: int): int
    requires IsInt(f) && IntSize(f.dataSize)
  {
    if f.ltype.UVarint? then i % Pow2(8 * f.dataSize) else ToSigned(ToU64(i), 8 * f.dataSize)
  }

  function DecInt(f: Field, s: seq<Byte>, v: Value): (r: Leaf)
    requires IsInt(f)
    ensures |r.rest| <= |s| && (r.Done? ==> |r.rest| < |s|)
    ensures ValueOk(f, v) ==> ValueOk(f, r.v)
  {
    match DecVarint64(s)
    case VarintFail(rest) => Failed(v, rest)
    case VarintOk(u, rest) =>
      if !IntSize(f.dataSize) then Failed(v, rest)
      else
        var clamped := Cast(f, IntRead(f, u));
        if clamped == IntRead(f, u) then Done(IntV(clamped), rest) else Failed(IntV(clamped), rest)
  }

  function DecWord(s: seq<Byte>, n: nat, v: Value): (r: Leaf)
    requires n > 0
    ensures |r.rest| <= |s| && (r.Done? ==> |r.rest| < |s|)
  {
    if |s| < n then Failed(v, s) else Done(IntV(DecFixed(s[..n])), s[n..])
  }

  function DecBytes(f: Field, s: seq<Byte>, v: Value): (r: Leaf)
    requires f.ltype.Bytes? && ValueOk(f, v)
    ensures |r.rest| <= |s| && (r.Done? ==> |r.rest| < |s|)
    ensures ValueOk(f, r.v)
  {
    match DecVarint32(s)
    case VarintFail(rest) => Failed(v, rest)
    case VarintOk(size, rest) =>
      if size + BYTES_HEADER > f.dataSize then Failed(v, rest)
      else if |rest| < size then Failed(BytesV(size, v.buf), rest)
      else Done(BytesV(size, rest[..size] + v.buf[size..]), rest[size..])
  }

  /** The terminator is stored even when the read fails. */
  function DecString(f: Field, s: seq<Byte>, v: Value): (r: Leaf)
    requires f.ltype.String? && f.dataSize <= PB_SIZE_MAX && ValueOk(f, v)
    ensures |r.rest| <= |s| && (r.Done? ==> |r.rest| < |s|)
    ensures ValueOk(f, r.v)
  {
    match DecVarint32(s)
    case VarintFail(rest) => Failed(v, rest)
    case VarintOk(size, rest) =>
      if size == TWO32 - 1 || size + 1 > f.dataSize then Failed(v, rest)
      else if |rest| < size then Failed(BufV(v.buf[size := 0]), rest)
      else Done(BufV(rest[..size] + [0] + v.buf[size + 1..]), rest[size..])
  }

  function DecFixedLength(f: Field, s: seq<Byte>, v: Value): (r: Leaf)
    requires f.ltype.FixedLengthBytes? && ValueOk(f, v)
    ensures |r.rest| <= |s| && (r.Done? ==> |r.rest| < |s|)
    ensures ValueOk(f, r.v)
  {
    match DecVarint32(s)
    case VarintFail(rest) => Failed(v, rest)
    case VarintOk(size, rest) =>
      if size == 0 then Done(BufV(Zeros(f.dataSize)), rest)
      else if size != f.dataSize || |rest| < size then Failed(v, rest)
      else Done(BufV(rest[..size]), rest[size..])
  }

  predicate IsLeaf(f: Field) { !f.ltype.Submessage? && !f.ltype.Extension? }

  function DecLeaf(f: Field, s: seq<Byte>, v: Value): (r: Leaf)
    requires IsLeaf(f) && FieldOk(f) && ValueOk(f, v)
    ensures |r.rest| <= |s| && (r.Done? ==> |r.rest| < |s|)
    ensures ValueOk(f, r.v)
  {
    match f.ltype
    case Fixed32 => Pow2Values(); DecWord(s, 4, v)
    case Fixed64 => Pow2Values(); DecWord(s, 8, v)
    case Bytes => DecBytes(f, s, v)
    case String => DecString(f, s, v)
    case FixedLengthBytes => DecFixedLength(f, s, v)
    case Varint => DecInt(f, s, v)
    case UVarint => DecInt(f, s, v)
    case SVarint => DecInt(f, s, v)
  }

  // ----- packed arrays

  datatype Elements = Elements(count: nat, items: seq<Value>, left: nat, good: bool)

  /** The packed loop: it stops at the end of the payload, at a full array or at a bad element. */
  function DecElements(f: Field, p: seq<Byte>, count: nat, items: seq<Value>): (e: Elements)
    requires f.ltype.Packable() && FieldOk(f)
    requires |items| == f.arraySize && forall j :: 0 <= j < |items| ==> ValueOk(f, items[j])
    ensures |e.items| == f.arraySize && forall j :: 0 <= j < |e.items| ==> ValueOk(f, e.items[j])
    decreases |p|
  {
    if p == [] || count >= f.arraySize then Elements(count, items, |p|, true)
    else
      match DecLeaf(f, p, items[count])
      case Done(v, rest) => DecElements(f, rest, count + 1, items[count := v])
      case Failed(v, rest) => Elements(count, items[count := v], |rest|, false)
  }

  // ----- fields, records, messages

  /** `out` is what memory holds afterwards, in either case. A failure that leaves a packed substream
    * unclosed leaves the parent `lag` bytes short of where its byte count says it is. */
  datatype Decoded<T> = Ok(out: T, rest: seq<Byte>) | Err(out: T, lag: nat)

  datatype State = State(msg: Message, seen: set<nat>)

  datatype Step = More(st: State, rest: seq<Byte>) | Stop(rest: seq<Byte>) | Fail(st: State, lag: nat)

  function DecValue(f: Field, s: seq<Byte>, v: Value): (r: Decoded<Value>)
    requires FieldOk(f) && ValueOk(f, v)
    ensures r.Ok? ==> |r.rest| < |s|
    ensures ValueOk(f, r.out)
    decreases |s|, 1
  {
    assert TypeOk(f);
    if f.ltype.Submessage? then
      var sub := f.ltype.fields;
      match DecPiece(s)
      case NoPiece => Err(v, 0)
      case Piece(p, rest) =>
        match DecMessage(sub, p, if f.htype.Repeated? then Defaults(sub, v.msg) else v.msg)
        case Ok(m, _) => Ok(MsgV(m), rest)
        case Err(m, lag) => Err(MsgV(m), lag)
    else
      match DecLeaf(f, s, v)
      case Done(v', rest) => Ok(v', rest)
      case Failed(v', _) => Err(v', 0)
  }

  /** A union member that is a message starts from a cleared struct. */
  function UnionStart(f: Field, v: Value): (v': Value)
    requires FieldOk(f) && ValueOk(f, v)
    ensures ValueOk(f, v')
  {
    assert TypeOk(f);
    if f.htype.Oneof? && f.ltype.Submessage? then MsgV(Fresh(f.ltype.fields)) else v
  }

  function DecSlot(f: Field, wt: WireType, s: seq<Byte>, slot: Slot): (r: Decoded<Slot>)
    requires FieldOk(f) && SlotOk(f, slot)
    ensures r.Ok? ==> |r.rest| < |s|
    ensures SlotOk(f, r.out)
    decreases |s|, 2
  {
    match slot
    case One(v) =>
      (match DecValue(f, s, UnionStart(f, v))
       case Ok(v', rest) => Ok(One(v'), rest)
       case Err(v', lag) => Err(One(v'), lag))
    case Opt(_, v) =>
      (match DecValue(f, s, v)
       case Ok(v', rest) => Ok(Opt(true, v'), rest)
       case Err(v', lag) => Err(Opt(true, v'), lag))
    case Many(count, items) =>
      if wt.WtString? && f.ltype.Packable() then
        match DecPiece(s)
        case NoPiece => Err(slot, 0)
        case Piece(p, rest) =>
          var e := DecElements(f, p, count, items);
          var slot' := Many(e.count, e.items);
          if e.left != 0 then Err(slot', |p|) else if e.good then Ok(slot', rest) else Err(slot', 0)
      else if count >= f.arraySize then Err(slot, 0)
      else
        match DecValue(f, s, items[count])
        case Ok(v, rest) => Ok(Many(count + 1, items[count := v]), rest)
        case Err(v, lag) => Err(Many(count + 1, items[count := v]), lag)
  }

  /** The field with a tag, |fields| when there is none. */
  function Lookup(fields: seq<Field>, tag: nat): (i: nat)
    ensures i <= |fields|
    ensures i < |fields| ==> fields[i].tag == tag
    ensures i == |fields| ==> forall j :: 0 <= j < |fields| ==> fields[j].tag != tag
  {
    if fields == [] then 0
    else if fields[|fields| - 1].tag == tag then |fields| - 1
    else
      var i := Lookup(fields[..|fields| - 1], tag);
      if i == |fields| - 1 then |fields| else i
  }

  lemma LookupFinds(fields: seq<Field>, i: nat, tag: nat)
    requires UniqueTags(fields) && i < |fields|
    ensures Lookup(fields, tag) == i <==> fields[i].tag == tag
  {
  }

  /** One turn of the decoding loop, on a stream that is not empty. */
  function DecRecord(fields: seq<Field>, s: seq<Byte>, st: State): (r: Step)
    requires FieldsOk(fields) && MsgOk(fields, st.msg)
    ensures r.More? ==> |r.rest| < |s|
    ensures r.Stop? ==> |r.rest| <= |s|
    ensures !r.Stop? ==> MsgOk(fields, r.st.msg)
    decreases |s|, 3
  {
    match DecTag(s)
    case TagEof(rest) => Stop(rest)
    case TagError => Fail(st, 0)
    case Tag(wt, tag, rest) =>
      var i := Lookup(fields, tag);
      if i < |fields| then
        var seen := if fields[i].htype.Required? then st.seen + {i} else st.seen;
        match DecSlot(fields[i], wt, rest, st.msg.slots[i])
        case Ok(slot, rest') => More(State(Put(fields, st.msg, i, slot), seen), rest')
        case Err(slot, lag) => Fail(State(Put(fields, st.msg, i, slot), seen), lag)
      else if fields == [] && tag == 0 then Fail(st, 0)  // PB_LAST_FIELD matches, as a varint of size 0
      else
        match Skip(wt, rest)
        case NoRest => Fail(st, 0)
        case Rest(rest') => More(st, rest')
  }

  function DecLoop(fields: seq<Field>, s: seq<Byte>, st: State): (r: Decoded<State>)
    requires FieldsOk(fields) && MsgOk(fields, st.msg)
    ensures MsgOk(fields, r.out.msg)
    decreases |s|, 4
  {
    if s == [] then Ok(st, [])
    else
      match DecRecord(fields, s, st)
      case Stop(rest) => Ok(st, rest)
      case Fail(st', lag) => Err(st', lag)
      case More(st', rest) => DecLoop(fields, rest, st')
  }

  predicate AllSeen(fields: seq<Field>, seen: set<nat>) {
    forall i :: 0 <= i < |fields| && fields[i].htype.Required? ==> i in seen
  }

  /** pb_decode_noinit */
  function DecMessage(fields: seq<Field>, s: seq<Byte>, m: Message): (r: Decoded<Message>)
    requires FieldsOk(fields) && MsgOk(fields, m)
    ensures MsgOk(fields, r.out)
    decreases |s|, 5
  {
    match DecLoop(fields, s, State(m, {}))
    case Err(st, lag) => Err(st.msg, lag)
    case Ok(st, rest) => if AllSeen(fields, st.seen) then Ok(st.msg, rest) else Err(st.msg, 0)
  }

  /** pb_decode */
  function DecInit(fields: seq<Field>, s: seq<Byte>, m: Message): (r: Decoded<Message>)
    requires FieldsOk(fields) && MsgOk(fields, m)
    ensures MsgOk(fields, r.out)
  {
    DecMessage(fields, s, Defaults(fields, m))
  }

  /** pb_decode_delimited */
  function DecDelimited(fields: seq<Field>, s: seq<Byte>, m: Message): (r: Decoded<Message>)
    requires FieldsOk(fields) && MsgOk(fields, m)
    ensures r.Ok? ==> |r.rest| < |s|
    ensures MsgOk(fields, r.out)
  {
    match DecPiece(s)
    case NoPiece => Err(m, 0)
    case Piece(p, rest) =>
      match DecInit(fields, p, m)
      case Ok(m', _) => Ok(m', rest)
      case Err(m', lag) => Err(m', lag)
  }
}
