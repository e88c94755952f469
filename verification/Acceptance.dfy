/** What each kind of field accepts, and what a record that fails leaves behind. */
module Acceptance {
  import opened Bits
  import opened Wire
  import opened Descriptors
  import opened DecodeSpec
  import opened EncodeSpec
  import opened WireTypes
  import opened Integers
  import opened RoundTrip

  // ----- length-delimited leaves

  /** Bytes: accepted with room for a header of four bytes; what is behind them in the buffer stays. */
  lemma BytesAccept(f: Field, p: seq<Byte>, v: Value, t: seq<Byte>)
    requires FieldOk(f) && f.ltype.Bytes? && ValueOk(f, v) && |p| < 0x1_0000_0000
    ensures DecLeaf(f, EncPiece(p) + t, v) ==
            if |p| + 4 <= f.dataSize then Done(BytesV(|p|, p + v.buf[|p|..]), t) else Failed(v, p + t)
  {
    if |p| + 4 <= f.dataSize {
      BytesDecode(f, p, v, t);
    } else {
      Varint32RoundTrip(|p|, p + t);
      Assoc(EncVarint(|p|), p, t);
    }
  }

  /** Strings: accepted with room for a terminator. */
  lemma StringAccept(f: Field, p: seq<Byte>, v: Value, t: seq<Byte>)
    requires FieldOk(f) && f.ltype.String? && ValueOk(f, v) && |p| < 0x1_0000_0000
    ensures DecLeaf(f, EncPiece(p) + t, v) ==
            if |p| + 1 <= f.dataSize then Done(BufV(p + [0] + v.buf[|p| + 1..]), t) else Failed(v, p + t)
  {
    assert TypeOk(f);
    if |p| + 1 <= f.dataSize {
      StringDecode(f, p, v, t);
    } else {
      Varint32RoundTrip(|p|, p + t);
      Assoc(EncVarint(|p|), p, t);
    }
  }

  /** Bytes of fixed length: accepted with that length, or empty and then read as zeros. */
  lemma FixedLengthAccept(f: Field, p: seq<Byte>, v: Value, t: seq<Byte>)
    requires FieldOk(f) && f.ltype.FixedLengthBytes? && ValueOk(f, v) && |p| < 0x1_0000_0000
    ensures var r := DecLeaf(f, EncPiece(p) + t, v);
            if p == [] then
              && r.Done? && r.rest == t && r.v.BufV? && |r.v.buf| == f.dataSize
              && forall k :: 0 <= k < f.dataSize ==> r.v.buf[k] == 0
            else r == if |p| == f.dataSize then Done(BufV(p), t) else Failed(v, p + t)
  {
    Varint32RoundTrip(|p|, p + t);
    Assoc(EncVarint(|p|), p, t);
    SplitAt(p, t);
    NilLeft(t);
  }

  /** Of a payload that is cut short, bytes keep the announced size and strings get their terminator. */
  lemma CutPayload(f: Field, n: nat, q: seq<Byte>, v: Value)
    requires FieldOk(f) && (f.ltype.Bytes? || f.ltype.String?) && ValueOk(f, v) && |q| < n < 0x1_0000_0000
    ensures f.ltype.Bytes? && n + 4 <= f.dataSize ==> DecLeaf(f, EncVarint(n) + q, v) == Failed(BytesV(n, v.buf), q)
    ensures f.ltype.String? && n + 1 <= f.dataSize ==>
              n < |v.buf| && DecLeaf(f, EncVarint(n) + q, v) == Failed(BufV(v.buf[n := 0]), q)
  {
    Varint32RoundTrip(n, q);
  }

  // ----- numbers

  /** A number that does not fit is refused, but stored modulo its width. */
  lemma IntOverflows(f: Field, s: seq<Byte>, v: Value)
    requires FieldOk(f) && f.ltype.UVarint? && ValueOk(f, v) && DecVarint64(s).VarintOk?
    ensures var u, m := DecVarint64(s).value, Pow2(8 * f.dataSize);
            DecInt(f, s, v) ==
            if u < m then Done(IntV(u), DecVarint64(s).rest) else Failed(IntV(u % m), DecVarint64(s).rest)
  {
    var u := DecVarint64(s).value;
    assert TypeOk(f);
    IntAccepts(f, s, v);
    SmallMod(u, if u < Pow2(8 * f.dataSize) then Pow2(8 * f.dataSize) else u + 1);
  }

  // ----- whole records

  /** The record of field i with one of the eight codes. */
  function Coded(f: Field, code: nat, s: seq<Byte>): seq<Byte> { EncVarint(8 * f.tag + code) + s }

  predicate IsPackedRecord(f: Field, code: nat) { f.htype.Repeated? && f.ltype.Packable() && code == 2 }

  lemma CodedRecord(fields: seq<Field>, i: nat, code: nat, s: seq<Byte>, st: State)
    requires FieldsOk(fields) && MsgOk(fields, st.msg) && i < |fields| && code < 8
    ensures FieldOk(fields[i]) && SlotOk(fields[i], st.msg.slots[i])
    ensures var wt := DecTag(Coded(fields[i], code, s));
            && wt.Tag? && Codes(wt.wt, code)
            && var d := DecSlot(fields[i], wt.wt, s, st.msg.slots[i]);
               var seen := if fields[i].htype.Required? then st.seen + {i} else st.seen;
               var st' := State(Put(fields, st.msg, i, d.out), seen);
               DecRecord(fields, Coded(fields[i], code, s), st) == if d.Ok? then More(st', d.rest) else Fail(st', d.lag)
  {
    hide DecSlot, DecTag, FieldOk, SlotOk, EncVarint, Lookup, Skip;
    var f := fields[i];
    TagFits(f);
    TagOfWord(8 * f.tag + code, s);
    LookupFinds(fields, i, f.tag);
  }

  lemma TagFits(f: Field)
    requires FieldOk(f)
    ensures 0 < f.tag < 0x2000_0000
  {
  }

  /** Except for packed arrays the code does not matter to a field that is known. */
  lemma CodeIgnored(fields: seq<Field>, i: nat, a: nat, b: nat, s: seq<Byte>, st: State)
    requires FieldsOk(fields) && MsgOk(fields, st.msg) && i < |fields| && a < 8 && b < 8
    requires IsPackedRecord(fields[i], a) == IsPackedRecord(fields[i], b)
    ensures DecRecord(fields, Coded(fields[i], a, s), st) == DecRecord(fields, Coded(fields[i], b, s), st)
  {
    CodedRecord(fields, i, a, s, st);
    CodedRecord(fields, i, b, s, st);
    hide DecRecord, DecValue, DecTag, Coded, FieldsOk, FieldOk;
  }

  /** A full array takes no further item. */
  lemma FullArrayFails(fields: seq<Field>, i: nat, code: nat, s: seq<Byte>, st: State)
    requires FieldsOk(fields) && MsgOk(fields, st.msg) && i < |fields| && code < 8
    requires fields[i].htype.Repeated? && !IsPackedRecord(fields[i], code)
    requires st.msg.slots[i].Many? && st.msg.slots[i].count >= fields[i].arraySize
    ensures var r := DecRecord(fields, Coded(fields[i], code, s), st);
            r.Fail? && r.lag == 0 && r.st.msg.slots == st.msg.slots
  {
    CodedRecord(fields, i, code, s, st);
    hide DecRecord, DecValue, DecTag, Coded, FieldsOk, FieldOk;
  }

  /** A record that fails has left its mark all the same. */
  lemma FailureMarks(fields: seq<Field>, i: nat, code: nat, s: seq<Byte>, st: State)
    requires FieldsOk(fields) && MsgOk(fields, st.msg) && i < |fields| && code < 8
    requires DecRecord(fields, Coded(fields[i], code, s), st).Fail?
    ensures var st' := DecRecord(fields, Coded(fields[i], code, s), st).st;
            && (fields[i].HasFlag() ==> st'.msg.slots[i].Opt? && st'.msg.slots[i].has)
            && (fields[i].htype.Oneof? ==> Selected(fields, st'.msg, i))
            && (fields[i].htype.Required? ==> i in st'.seen)
            && (fields[i].htype.Repeated? && !IsPackedRecord(fields[i], code) ==>
                  && st'.msg.slots[i].Many? && st.msg.slots[i].Many?
                  && var n := st.msg.slots[i].count;
                     st'.msg.slots[i].count == if n < fields[i].arraySize then n + 1 else n)
            && forall j :: 0 <= j < |fields| && j != i ==> st'.msg.slots[j] == st.msg.slots[j]
  {
    CodedRecord(fields, i, code, s, st);
    hide DecRecord, DecValue, DecTag, Coded, FieldsOk, FieldOk;
  }
}
