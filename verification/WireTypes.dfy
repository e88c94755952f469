/** The numbers of the wire types, and what the decoder does with each of them. */
module WireTypes {
  import opened Wire
  import opened Descriptors
  import opened DecodeSpec
  import opened EncodeSpec

  /** The number that is written in front of a field. */
  lemma FieldTagNumber(f: Field)
    ensures var word := Base128(FieldTag(f));
            && VarintSpan(FieldTag(f)) == |FieldTag(f)|
            && (f.ltype.Varint? || f.ltype.UVarint? || f.ltype.SVarint? ==> word == 8 * f.tag + 0)
            && (f.ltype.Fixed64? ==> word == 8 * f.tag + 1)
            && (f.ltype.Bytes? || f.ltype.String? || f.ltype.FixedLengthBytes? || f.ltype.Submessage? ==>
                  word == 8 * f.tag + 2)
            && (f.ltype.Fixed32? ==> word == 8 * f.tag + 5)
  {
    EncVarintSpan(8 * f.tag + WireCode(FieldWireType(f)));
  }

  /** A packed array announces itself as length-delimited. */
  lemma PackedTagNumber(f: Field)
    ensures var p := EncTag(WtString, f.tag); VarintSpan(p) == |p| && Base128(p) == 8 * f.tag + 2
  {
    EncVarintSpan(8 * f.tag + 2);
  }

  /** What is left behind the payload of a record whose tag word ends in the three bits of `code`. */
  function Skipped(code: nat, s: seq<Byte>): Rest {
    var n := VarintSpan(s);
    if code == 0 then if n > 0 then Rest(s[n..]) else NoRest
    else if code == 1 then if |s| >= 8 then Rest(s[8..]) else NoRest
    else if code == 2 && 0 < n <= 5 then
      var size := Base128(s[..n]) % 0x1_0000_0000;
      if size <= |s| - n then Rest(s[n + size..]) else NoRest
    else if code == 5 then if |s| >= 4 then Rest(s[4..]) else NoRest
    else NoRest
  }

  /** The wire type of a code, by the numbers of `pb.h`. */
  predicate Codes(wt: WireType, code: nat) {
    && (wt.WtVarint? <==> code == 0)
    && (wt.Wt64Bit? <==> code == 1)
    && (wt.WtString? <==> code == 2)
    && (wt.Wt32Bit? <==> code == 5)
  }

  lemma TagOfWord(w: nat, s: seq<Byte>)
    requires 0 < w < 0x1_0000_0000
    ensures var r := DecTag(EncVarint(w) + s);
            r.Tag? && r.tag == w / 8 && r.rest == s && Codes(r.wt, w % 8)
  {
    Varint32RoundTrip(w, s);
  }

  lemma SkippedIsSkip(wt: WireType, code: nat, s: seq<Byte>)
    requires Codes(wt, code)
    ensures Skip(wt, s) == Skipped(code, s)
  {
  }

  /** A tag word whose number no field has: the payload its last three bits announce is dropped, and
    * nothing changes; 3, 4, 6 and 7 fail. */
  lemma UnknownByCode(fields: seq<Field>, w: nat, s: seq<Byte>, st: State)
    requires FieldsOk(fields) && MsgOk(fields, st.msg) && 0 < w < 0x1_0000_0000
    requires forall i :: 0 <= i < |fields| ==> fields[i].tag != w / 8
    requires fields != [] || w / 8 != 0
    ensures DecRecord(fields, EncVarint(w) + s, st) ==
            match Skipped(w % 8, s) case Rest(rest) => More(st, rest) case NoRest => Fail(st, 0)
  {
    hide DecSlot, DecTag, FieldsOk, MsgOk, Skip, Skipped, EncVarint;
    TagOfWord(w, s);
    SkippedIsSkip(DecTag(EncVarint(w) + s).wt, w % 8, s);
  }

  /** A tag that is no varint of five bytes at most ends the message when no byte is left behind those that
    * were looked at, and fails otherwise. */
  lemma UnreadableTag(s: seq<Byte>)
    requires VarintSpan(s) == 0 || VarintSpan(s) > 5
    ensures DecTag(s) == if |s| <= 5 then TagEof([]) else TagError
  {
    VarintAccepts(s);
  }

  /** Without descriptors the field number 0 is found, at the terminator of the list, and fails. */
  lemma NumberZeroFails(w: nat, s: seq<Byte>, st: State)
    requires 0 < w < 8 && MsgOk([], st.msg)
    ensures FieldsOk([]) && DecRecord([], EncVarint(w) + s, st) == Fail(st, 0)
  {
    assert FieldsOk([]);
    TagOfWord(w, s);
  }
}
