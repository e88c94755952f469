/** Length-prefixed frames one after the other. */
module Delimited {
  import opened Bits
  import opened Wire
  import opened Descriptors
  import opened DecodeSpec
  import opened EncodeSpec
  import opened Same
  import opened RoundTrip

  /** The messages framed by pb_encode_delimited, in order. */
  function EncFrames(fields: seq<Field>, ms: seq<Message>): Encoded
    requires FieldsOk(fields) && forall i :: 0 <= i < |ms| ==> MsgOk(fields, ms[i])
  {
    if ms == [] then Wrote([])
    else Framed(EncMessage(fields, ms[0])).Then(EncFrames(fields, ms[1..]))
  }

  /** Repeated pb_decode_delimited into the same kind of struct until the stream is empty. */
  function DecFrames(fields: seq<Field>, s: seq<Byte>, dest: Message): (r: Decoded<seq<Message>>)
    requires FieldsOk(fields) && MsgOk(fields, dest)
    ensures forall i :: 0 <= i < |r.out| ==> MsgOk(fields, r.out[i])
    decreases |s|
  {
    if s == [] then Ok([], [])
    else
      match DecDelimited(fields, s, dest)
      case Err(_, lag) => Err([], lag)
      case Ok(m, rest) =>
        match DecFrames(fields, rest, dest)
        case Err(ms, lag) => Err([m] + ms, lag)
        case Ok(ms, _) => Ok([m] + ms, [])
  }

  predicate SameMessages(fields: seq<Field>, a: seq<Message>, b: seq<Message>)
    requires FieldsOk(fields)
    requires forall i :: 0 <= i < |a| ==> MsgOk(fields, a[i])
    requires forall i :: 0 <= i < |b| ==> MsgOk(fields, b[i])
  {
    |a| == |b| && forall i :: 0 <= i < |a| ==> SameMessage(fields, a[i], b[i])
  }

  /** The message survives the trip and its encoding fits the frame's length prefix. */
  predicate Sendable(fields: seq<Field>, m: Message)
    requires FieldsOk(fields)
  {
    && MsgOk(fields, m) && CarriedMessage(fields, m) && FitsMessage(fields, m)
    && (EncMessage(fields, m).Wrote? ==> |EncMessage(fields, m).bytes| < TWO32)
  }

  /** One frame, with anything behind it: the message comes back and the stream stands behind the frame. */
  lemma FrameRoundTrip(fields: seq<Field>, m: Message, dest: Message, t: seq<Byte>)
    requires FieldsOk(fields) && MsgOk(fields, dest) && MsgOk(fields, m) && Sendable(fields, m)
    ensures EncMessage(fields, m).Wrote?
    ensures var r := DecDelimited(fields, Framed(EncMessage(fields, m)).bytes + t, dest);
            r.Ok? && r.rest == t && SameMessage(fields, m, r.out)
  {
    hide SameMessage, CarriedMessage, FitsMessage, DecMessage, EncFrom;
    EncodeThenDecode(fields, m, dest);
    PieceRoundTrip(EncMessage(fields, m).bytes, t);
  }

  /** Any list of framed messages decodes back to that list. */
  lemma {:induction false} FramesRoundTrip(fields: seq<Field>, ms: seq<Message>, dest: Message)
    requires FieldsOk(fields) && MsgOk(fields, dest)
    requires forall i :: 0 <= i < |ms| ==> MsgOk(fields, ms[i]) && Sendable(fields, ms[i])
    ensures EncFrames(fields, ms).Wrote?
    ensures var r := DecFrames(fields, EncFrames(fields, ms).bytes, dest);
            r.Ok? && SameMessages(fields, ms, r.out)
  {
    if ms != [] {
      assert Sendable(fields, ms[0]);
      forall i | 0 <= i < |ms[1..]| ensures MsgOk(fields, ms[1..][i]) && Sendable(fields, ms[1..][i]) {
        assert ms[1..][i] == ms[i + 1];
      }
      hide Sendable, SameMessage, DecDelimited, EncMessage;
      FramesRoundTrip(fields, ms[1..], dest);
      FrameRoundTrip(fields, ms[0], dest, EncFrames(fields, ms[1..]).bytes);
      var frames := EncFrames(fields, ms).bytes;
      var first := DecDelimited(fields, frames, dest).out;
      var rest := DecFrames(fields, EncFrames(fields, ms[1..]).bytes, dest).out;
      assert frames != [];
      FirstAndRest(fields, ms, first, rest);
    }
  }

  lemma FirstAndRest(fields: seq<Field>, ms: seq<Message>, first: Message, rest: seq<Message>)
    requires FieldsOk(fields) && ms != [] && forall i :: 0 <= i < |ms| ==> MsgOk(fields, ms[i])
    requires MsgOk(fields, first) && forall i :: 0 <= i < |rest| ==> MsgOk(fields, rest[i])
    requires SameMessage(fields, ms[0], first) && SameMessages(fields, ms[1..], rest)
    ensures SameMessages(fields, ms, [first] + rest)
  {
    hide SameMessage, MsgOk, FieldsOk;
    forall i | 0 <= i < |ms| ensures SameMessage(fields, ms[i], ([first] + rest)[i]) {
      if i > 0 {
        assert ms[i] == ms[1..][i - 1] && ([first] + rest)[i] == rest[i - 1];
      }
    }
  }
}
