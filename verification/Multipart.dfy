/** `MultipartFormData.swift`: encoding body parts in memory and through an output stream. */
module Multipart {
  import opened Wire
  import opened Mime

  const STREAM_BUFFER_SIZE: nat := 1024

  /** An input stream: reads may be short, and it may not know that it has reached its end. */
  class BodyStream {
    const reliable: bool
    var rest: seq<Byte>
    var streamError: bool

    constructor (bytes: seq<Byte>, reliable: bool)
      ensures rest == bytes && this.reliable == reliable && !streamError
    {
      this.rest := bytes;
      this.reliable := reliable;
      this.streamError := false;
    }

    method HasBytesAvailable() returns (more: bool)
      ensures rest != [] ==> more
    {
      more :| rest != [] ==> more;
    }

    method Read(maxLength: nat) returns (bytes: seq<Byte>)
      requires maxLength > 0
      modifies this
      ensures |bytes| <= maxLength && bytes + rest == old(rest)
      ensures old(rest) != [] && !streamError ==> bytes != []
      ensures (old(streamError) ==> streamError) && (reliable ==> streamError == old(streamError))
    {
      var fails: bool :| reliable ==> !fails;
      if fails {
        streamError := true;
      }
      if rest == [] || fails {
        return [];
      }
      var n: nat :| 0 < n <= maxLength && n <= |rest|;
      bytes := rest[..n];
      rest := rest[n..];
    }
  }

  /** What a file of limited capacity holds after p was written behind w. */
  function Filled(w: seq<Byte>, p: seq<Byte>, capacity: nat): (r: seq<Byte>)
    ensures |w| <= |r| <= |w| + |p|
  {
    var room := if |w| < capacity then capacity - |w| else 0;
    w + if |p| <= room then p else p[..room]
  }

  /** Nothing is cut off exactly when everything fits. */
  lemma FilledIsWhole(w: seq<Byte>, p: seq<Byte>, capacity: nat)
    ensures Filled(w, p, capacity) == w + p <==> p == [] || |w| + |p| <= capacity
  {
    assert |Filled(w, p, capacity)| == |w + p| ==> p == [] || |w| + |p| <= capacity;
  }

  lemma FilledTwice(w: seq<Byte>, p: seq<Byte>, q: seq<Byte>, capacity: nat)
    ensures Filled(Filled(w, p, capacity), q, capacity) == Filled(w, p + q, capacity)
  {
    var v := Filled(w, p, capacity);
    var room := if |w| < capacity then capacity - |w| else 0;
    if |p| <= room {
      Assoc(w, p, q);
      assert |p + q| > room ==> (p + q)[..room] == p + q[..room - |p|];
    } else {
      assert (p + q)[..room] == p[..room];
      assert q[..0] == [];
    }
  }

  lemma NoSpace(w: seq<Byte>, p: seq<Byte>, capacity: nat)
    ensures capacity <= |w| ==> Filled(w, p, capacity) == w
  {
  }

  lemma FilledNothing(w: seq<Byte>, capacity: nat)
    ensures Filled(w, [], capacity) == w
  {
  }

  /** A file stream: writes may be partial, the file holds so many bytes and no more, and unless it is
    * reliable a write may fail. */
  class FileStream {
    const reliable: bool
    const capacity: nat
    var written: seq<Byte>
    var streamError: bool

    constructor (capacity: nat, reliable: bool)
      ensures written == [] && this.capacity == capacity && this.reliable == reliable && !streamError
    {
      this.reliable := reliable;
      this.capacity := capacity;
      this.written := [];
      this.streamError := false;
    }

    method HasSpaceAvailable() returns (space: bool)
      ensures space <==> |written| < capacity
    {
      space := |written| < capacity;
    }

    method Write(buffer: seq<Byte>, maxLength: nat) returns (n: nat)
      requires 0 < maxLength <= |buffer| && |written| < capacity
      modifies this
      ensures n <= maxLength && written == old(written) + buffer[..n] && |written| <= capacity
      ensures (old(streamError) ==> streamError) && (reliable ==> streamError == old(streamError))
      ensures !streamError ==> n > 0
    {
      var fails: bool :| reliable ==> !fails;
      if fails {
        streamError := true;
        n := 0;
      } else {
        n :| 0 < n <= maxLength && |written| + n <= capacity;
      }
      written := written + buffer[..n];
    }
  }

  class BodyPart {
    const headers: seq<Header>
    const bodyStream: BodyStream
    const bodyContentLength: nat
    var hasInitialBoundary: bool
    var hasFinalBoundary: bool

    constructor (headers: seq<Header>, bodyStream: BodyStream, bodyContentLength: nat)
      ensures this.headers == headers && this.bodyStream == bodyStream && this.bodyContentLength == bodyContentLength
      ensures !hasInitialBoundary && !hasFinalBoundary
    {
      this.headers := headers;
      this.bodyStream := bodyStream;
      this.bodyContentLength := bodyContentLength;
      hasInitialBoundary := false;
      hasFinalBoundary := false;
    }

    /** The part with the bytes still to be read, and its flags. */
    ghost function Now(): Flagged
      reads this, bodyStream
    {
      Flagged(Part(headers, bodyStream.rest), hasInitialBoundary, hasFinalBoundary)
    }
  }

  /** encodeBodyStream: whatever the read sizes, all the bytes of the stream in order. */
  method EncodeBodyStream(inputStream: BodyStream) returns (ok: bool, encoded: seq<Byte>)
    modifies inputStream
    ensures ok ==> encoded == old(inputStream.rest)
    ensures inputStream.reliable && !old(inputStream.streamError) ==> ok
  {
    encoded := [];
    NilLeft(inputStream.rest);
    var more := inputStream.HasBytesAvailable();
    while more
      invariant encoded + inputStream.rest == old(inputStream.rest)
      invariant !more ==> inputStream.rest == []
      invariant inputStream.reliable ==> inputStream.streamError == old(inputStream.streamError)
      decreases more, |inputStream.rest|
    {
      var bytes := inputStream.Read(STREAM_BUFFER_SIZE);
      if inputStream.streamError {
        return false, encoded;
      }
      if |bytes| == 0 {
        break;
      }
      Assoc(encoded, bytes, inputStream.rest);
      encoded := encoded + bytes;
      more := inputStream.HasBytesAvailable();
    }
    return true, encoded;
  }

  /** write(_ buffer: inout [UInt8], ...): the loop over partial writes. Without an error it writes what the
    * file has room for and returns as if that were all. */
  method WriteBuffer(buffer: seq<Byte>, outputStream: FileStream) returns (ok: bool)
    modifies outputStream
    ensures !outputStream.streamError ==>
              ok && outputStream.written == Filled(old(outputStream.written), buffer, outputStream.capacity)
    ensures old(outputStream.streamError) ==> outputStream.streamError
    ensures outputStream.reliable ==> outputStream.streamError == old(outputStream.streamError)
  {
    var left := buffer;
    var bytesToWrite := |buffer|;
    ghost var start, room := outputStream.written, outputStream.capacity;
    var space := outputStream.HasSpaceAvailable();
    while bytesToWrite > 0 && space
      invariant bytesToWrite == |left| && (space <==> |outputStream.written| < room)
      invariant Filled(outputStream.written, left, room) == Filled(start, buffer, room)
      invariant old(outputStream.streamError) ==> outputStream.streamError
      invariant outputStream.reliable ==> outputStream.streamError == old(outputStream.streamError)
      decreases bytesToWrite
    {
      ghost var before := outputStream.written;
      var bytesWritten := outputStream.Write(left, bytesToWrite);
      PartWritten(before, left, bytesWritten, room);
      if outputStream.streamError {
        return false;
      }
      bytesToWrite := bytesToWrite - bytesWritten;
      left := left[bytesWritten..];
      space := outputStream.HasSpaceAvailable();
    }
    return true;
  }

  lemma PartWritten(w: seq<Byte>, left: seq<Byte>, n: nat, capacity: nat)
    requires n <= |left| && |w| + n <= capacity
    ensures Filled(w + left[..n], left[n..], capacity) == Filled(w, left, capacity)
  {
    assert left[..n] + left[n..] == left;
    assert Filled(w, left[..n], capacity) == w + left[..n];
    FilledTwice(w, left[..n], left[n..], capacity);
  }

  /** writeBodyStream: reads of any size, each written by a loop over partial writes. */
  method WriteBodyStream(inputStream: BodyStream, outputStream: FileStream) returns (ok: bool)
    modifies inputStream, outputStream
    ensures !inputStream.streamError && !outputStream.streamError ==>
              ok && outputStream.written ==
                  Filled(old(outputStream.written), old(inputStream.rest), outputStream.capacity)
    ensures old(outputStream.streamError) ==> outputStream.streamError
    ensures old(inputStream.streamError) ==> inputStream.streamError
    ensures inputStream.reliable ==> inputStream.streamError == old(inputStream.streamError)
    ensures outputStream.reliable ==> outputStream.streamError == old(outputStream.streamError)
  {
    hide Filled;
    ghost var start, room, done: seq<Byte> := outputStream.written, outputStream.capacity, [];
    FilledNothing(start, room);
    NilLeft(inputStream.rest);
    var more := inputStream.HasBytesAvailable();
    while more
      invariant !outputStream.streamError ==> outputStream.written == Filled(start, done, room)
      invariant done + inputStream.rest == old(inputStream.rest)
      invariant !more ==> inputStream.rest == []
      invariant old(outputStream.streamError) ==> outputStream.streamError
      invariant old(inputStream.streamError) ==> inputStream.streamError
      invariant inputStream.reliable ==> inputStream.streamError == old(inputStream.streamError)
      invariant outputStream.reliable ==> outputStream.streamError == old(outputStream.streamError)
      decreases more, |inputStream.rest|
    {
      var buffer := inputStream.Read(STREAM_BUFFER_SIZE);
      if inputStream.streamError {
        return false;
      }
      if |buffer| == 0 {
        break;
      }
      ok := WriteBuffer(buffer, outputStream);
      if !ok {
        return false;
      }
      FilledTwice(start, done, buffer, room);
      Assoc(done, buffer, inputStream.rest);
      done := done + buffer;
      more := inputStream.HasBytesAvailable();
    }
    assert inputStream.rest == [] ==> done + inputStream.rest == done;
    return true;
  }

  ghost function Snapshot(parts: seq<BodyPart>): (fs: seq<Flagged>)
    reads parts, set p | p in parts :: p.bodyStream
    ensures |fs| == |parts| && forall i :: 0 <= i < |fs| ==> fs[i] == parts[i].Now()
  {
    if parts == [] then [] else Snapshot(parts[..|parts| - 1]) + [parts[|parts| - 1].Now()]
  }

  /** The first part gets its initial boundary and the last its final one; flags once set stay set. */
  function Marked(fs: seq<Flagged>): (r: seq<Flagged>)
    ensures |r| == |fs|
  {
    if fs == [] then []
    else
      var first := fs[0 := fs[0].(initial := true)];
      first[|fs| - 1 := first[|fs| - 1].(final := true)]
  }

  /** The first part gets the initial and the last part the final boundary; flags that were set stay set. */
  lemma FlagsAdded(fs: seq<Flagged>, i: nat)
    requires i < |fs|
    ensures var f := Marked(fs)[i];
            && f.part == fs[i].part
            && (f.initial <==> fs[i].initial || i == 0)
            && (f.final <==> fs[i].final || i == |fs| - 1)
  {
  }

  lemma AllDataStart(boundary: seq<Byte>, fs: seq<Flagged>)
    ensures [] + AllData(boundary, fs[0..]) == AllData(boundary, fs)
    ensures AllData(boundary, fs[0..]) == AllData(boundary, fs)
  {
    assert fs[0..] == fs;
    NilLeft(AllData(boundary, fs));
  }

  lemma AllDataStep(boundary: seq<Byte>, fs: seq<Flagged>, i: nat, done: seq<Byte>)
    requires i < |fs|
    ensures done + AllData(boundary, fs[i..]) == done + PartData(boundary, fs[i]) + AllData(boundary, fs[i + 1..])
  {
    assert fs[i..][1..] == fs[i + 1..];
    Assoc(done, PartData(boundary, fs[i]), AllData(boundary, fs[i + 1..]));
  }

  lemma AllDataEnd(boundary: seq<Byte>, fs: seq<Flagged>, done: seq<Byte>)
    ensures done + AllData(boundary, fs[|fs|..]) == done
  {
  }

  /** Why a file could not become a body part. */
  datatype PartError =
    | FilenameInvalid | URLInvalid | FileNotReachable | FileIsDirectory | FileSizeNotAvailable | StreamCreationFailed

  datatype Maybe<T> = None | Some(value: T)

  class MultipartFormData {
    const boundary: seq<Byte>
    var bodyParts: seq<BodyPart>
    var bodyPartError: Maybe<PartError>

    /** Every part has an input stream of its own. */
    ghost predicate Valid()
      reads this
    {
      forall i, j :: 0 <= i < j < |bodyParts| ==>
        bodyParts[i] != bodyParts[j] && bodyParts[i].bodyStream != bodyParts[j].bodyStream
    }

    ghost function Streams(): set<BodyStream>
      reads this
    {
      set p | p in bodyParts :: p.bodyStream
    }

    ghost function Now(): (fs: seq<Flagged>)
      reads this, bodyParts, Streams()
      ensures |fs| == |bodyParts| && forall i :: 0 <= i < |fs| ==> fs[i] == bodyParts[i].Now()
    {
      Snapshot(bodyParts)
    }

    /** Parts i and later are as in fs. */
    ghost predicate Pending(fs: seq<Flagged>, i: nat)
      reads this, bodyParts, Streams()
    {
      |fs| == |bodyParts| && forall j :: i <= j < |bodyParts| ==> bodyParts[j].Now() == fs[j]
    }

    ghost predicate GoodFrom(i: nat)
      reads this, Streams()
    {
      forall j :: i <= j < |bodyParts| ==> bodyParts[j].bodyStream.reliable && !bodyParts[j].bodyStream.streamError
    }

    /** The two words are the random ones. */
    constructor (a: nat, b: nat)
      ensures Valid() && bodyParts == [] && bodyPartError == None && boundary == RandomBoundary(a, b)
    {
      boundary := RandomBoundary(a, b);
      bodyParts := [];
      bodyPartError := None;
    }

    method Append(stream: BodyStream, length: nat, headers: seq<Header>)
      requires Valid() && stream !in Streams()
      modifies this`bodyParts
      ensures Valid() && |bodyParts| == old(|bodyParts|) + 1 && bodyParts[..old(|bodyParts|)] == old(bodyParts)
      ensures fresh(bodyParts[old(|bodyParts|)])
      ensures bodyParts[old(|bodyParts|)].Now() == Flagged(Part(headers, stream.rest), false, false)
    {
      var part := new BodyPart(headers, stream, length);
      bodyParts := bodyParts + [part];
    }

    /** setBodyPartError: the first error stays */
    method SetBodyPartError(reason: PartError)
      modifies this`bodyPartError
      ensures bodyPartError == if old(bodyPartError).Some? then old(bodyPartError) else Some(reason)
    {
      if bodyPartError == None {
        bodyPartError := Some(reason);
      }
    }

    /** append(_ fileURL:): either a check fails, with this reason, or the file gives a stream. */
    method AppendFile(failed: Maybe<PartError>, stream: BodyStream, length: nat, headers: seq<Header>)
      requires Valid() && stream !in Streams()
      modifies this
      ensures Valid()
      ensures failed.Some? ==> bodyParts == old(bodyParts) && bodyPartError.Some?
      ensures failed == None ==> |bodyParts| == old(|bodyParts|) + 1 && bodyParts[..old(|bodyParts|)] == old(bodyParts)
      ensures failed == None ==> bodyParts[old(|bodyParts|)].Now() == Flagged(Part(headers, stream.rest), false, false)
      ensures old(bodyPartError).Some? || failed == None ==> bodyPartError == old(bodyPartError)
      ensures failed.Some? && old(bodyPartError) == None ==> bodyPartError == failed
    {
      match failed
      case Some(reason) => SetBodyPartError(reason);
      case None => Append(stream, length, headers);
    }

    /** The first lines of encode and writeEncodedData */
    method Mark()
      requires Valid()
      modifies bodyParts
      ensures Valid() && Now() == Marked(old(Now()))
    {
      ghost var fs := Now();
      if bodyParts != [] {
        bodyParts[0].hasInitialBoundary := true;
        bodyParts[|bodyParts| - 1].hasFinalBoundary := true;
      }
      assert forall i :: 0 <= i < |fs| ==> bodyParts[i].Now() == Marked(fs)[i];
    }

    /** encode(_ bodyPart:) */
    method EncodePart(bodyPart: BodyPart) returns (ok: bool, encoded: seq<Byte>)
      modifies bodyPart.bodyStream
      ensures ok ==> encoded == PartData(boundary, old(bodyPart.Now()))
      ensures bodyPart.bodyStream.reliable && !old(bodyPart.bodyStream.streamError) ==> ok
    {
      encoded := BoundaryData(if bodyPart.hasInitialBoundary then Initial else Encapsulated, boundary);
      var headerData := HeaderData(bodyPart.headers);
      ghost var start := encoded;
      encoded := encoded + headerData;
      var bodyStreamData: seq<Byte>;
      ok, bodyStreamData := EncodeBodyStream(bodyPart.bodyStream);
      if !ok {
        return;
      }
      Assoc(start, headerData, bodyStreamData);
      encoded := encoded + bodyStreamData;
      if bodyPart.hasFinalBoundary {
        encoded := encoded + BoundaryData(Final, boundary);
      } else {
        assert encoded + [] == encoded;
      }
    }

    /** encode() */
    method Encode() returns (ok: bool, encoded: seq<Byte>)
      requires Valid()
      modifies bodyParts, Streams()
      ensures ok ==> bodyPartError == None && encoded == AllData(boundary, Marked(old(Now())))
      ensures bodyPartError == None && old(GoodFrom(0)) ==> ok
      ensures bodyPartError.Some? ==> !ok && Now() == old(Now())
    {
      hide Marked, AllData, PartData, Snapshot;
      encoded := [];
      if bodyPartError.Some? {
        return false, encoded;
      }
      Mark();
      ghost var fs := Now();
      encoded := [];
      AllDataStart(boundary, fs);
      for i := 0 to |bodyParts|
        invariant Pending(fs, i) && (old(GoodFrom(0)) ==> GoodFrom(i))
        invariant encoded + AllData(boundary, fs[i..]) == AllData(boundary, fs)
      {
        var encodedData: seq<Byte>;
        ok, encodedData := EncodePart(bodyParts[i]);
        if !ok {
          return;
        }
        AllDataStep(boundary, fs, i, encoded);
        encoded := encoded + encodedData;
      }
      AllDataEnd(boundary, fs, encoded);
      return true, encoded;
    }

    /** write(_ bodyPart:, to:) */
    method WritePart(bodyPart: BodyPart, outputStream: FileStream) returns (ok: bool)
      modifies bodyPart.bodyStream, outputStream
      ensures !bodyPart.bodyStream.streamError && !outputStream.streamError ==>
                ok && outputStream.written ==
                    Filled(old(outputStream.written), PartData(boundary, old(bodyPart.Now())), outputStream.capacity)
      ensures old(outputStream.streamError) ==> outputStream.streamError
      ensures bodyPart.bodyStream.reliable ==> bodyPart.bodyStream.streamError == old(bodyPart.bodyStream.streamError)
      ensures outputStream.reliable ==> outputStream.streamError == old(outputStream.streamError)
    {
      hide Filled;
      ghost var part, before, room := bodyPart.Now(), outputStream.written, outputStream.capacity;
      var initialData := BoundaryData(if bodyPart.hasInitialBoundary then Initial else Encapsulated, boundary);
      ok := WriteBuffer(initialData, outputStream);
      if !ok {
        return;
      }
      var headerData := HeaderData(bodyPart.headers);
      ok := WriteBuffer(headerData, outputStream);
      if !ok {
        return;
      }
      ok := WriteBodyStream(bodyPart.bodyStream, outputStream);
      if !ok {
        return;
      }
      var finalData := if bodyPart.hasFinalBoundary then BoundaryData(Final, boundary) else [];
      if bodyPart.hasFinalBoundary {
        ok := WriteBuffer(finalData, outputStream);
      }
      FilledPieces(before, initialData, headerData, part.part.body, finalData, room);
    }

    method WriteNth(i: nat, ghost fs: seq<Flagged>, outputStream: FileStream) returns (ok: bool)
      requires Valid() && Pending(fs, i) && i < |bodyParts|
      modifies bodyParts[i].bodyStream, outputStream
      ensures Pending(fs, i + 1)
      ensures old(GoodFrom(i)) ==> GoodFrom(i + 1)
      ensures old(GoodFrom(i)) && !outputStream.streamError ==>
                ok && outputStream.written ==
                    Filled(old(outputStream.written), PartData(boundary, fs[i]), outputStream.capacity)
      ensures old(outputStream.streamError) ==> outputStream.streamError
      ensures outputStream.reliable ==> outputStream.streamError == old(outputStream.streamError)
    {
      hide PartData, Filled;
      ok := WritePart(bodyParts[i], outputStream);
    }

    /** writeEncodedData(to:), once the file is open. With good input streams and no error of the output
      * stream it writes the bytes of encode(), for all read and write sizes, as far as the file has room. */
    method WriteEncodedData(outputStream: FileStream) returns (ok: bool)
      requires Valid()
      modifies bodyParts, Streams(), outputStream
      ensures bodyPartError == None && old(GoodFrom(0)) && !outputStream.streamError ==>
                ok && outputStream.written ==
                    Filled(old(outputStream.written), AllData(boundary, Marked(old(Now()))), outputStream.capacity)
      ensures bodyPartError == None && old(GoodFrom(0)) && !outputStream.streamError
              && outputStream.capacity <= |old(outputStream.written)| ==>
                ok && outputStream.written == old(outputStream.written)
      ensures outputStream.reliable ==> outputStream.streamError == old(outputStream.streamError)
      ensures bodyPartError.Some? ==> !ok && Now() == old(Now()) && outputStream.written == old(outputStream.written)
    {
      hide Marked, AllData, PartData, Snapshot, Filled;
      if bodyPartError.Some? {
        return false;
      }
      ghost var good, before, room := GoodFrom(0), outputStream.written, outputStream.capacity;
      Mark();
      ghost var fs := Now();
      assert Pending(fs, 0) && (good ==> GoodFrom(0));
      AllDataStart(boundary, fs);
      ghost var done: seq<Byte> := [];
      FilledNothing(before, room);
      for i := 0 to |bodyParts|
        invariant Pending(fs, i) && (good ==> GoodFrom(i))
        invariant old(outputStream.streamError) ==> outputStream.streamError
        invariant outputStream.reliable ==> outputStream.streamError == old(outputStream.streamError)
        invariant good && !outputStream.streamError ==> outputStream.written == Filled(before, done, room)
        invariant done + AllData(boundary, fs[i..]) == AllData(boundary, fs)
      {
        AllDataStep(boundary, fs, i, done);
        FilledTwice(before, done, PartData(boundary, fs[i]), room);
        ok := WriteNth(i, fs, outputStream);
        if !ok {
          return;
        }
        done := done + PartData(boundary, fs[i]);
      }
      AllDataEnd(boundary, fs, done);
      NoSpace(before, done, room);
      return true;
    }
  }

  /** Writing the pieces of a part one after the other. */
  lemma FilledPieces(w: seq<Byte>, p: seq<Byte>, h: seq<Byte>, b: seq<Byte>, e: seq<Byte>, room: nat)
    ensures Filled(Filled(Filled(Filled(w, p, room), h, room), b, room), e, room) == Filled(w, p + (h + b) + e, room)
    ensures e == [] ==> Filled(Filled(Filled(w, p, room), h, room), b, room) == Filled(w, p + (h + b) + e, room)
  {
    hide Filled;
    FilledTwice(w, p, h, room);
    FilledTwice(w, p + h, b, room);
    FilledTwice(w, p + h + b, e, room);
    Assoc(p, h, b);
    if e == [] {
      FilledNothing(Filled(w, p + h + b, room), room);
    }
  }

  // ----- what the body means

  lemma MarkedIsFirst(parts: seq<Part>, fs: seq<Flagged>, k: nat)
    requires |fs| == |parts| && k <= |parts| && forall i :: 0 <= i < |fs| ==> fs[i] == Flagged(parts[i], false, false)
    ensures Marked(fs)[k..] == FirstFlags(parts, k)
    decreases |parts| - k
  {
    if k < |parts| {
      MarkedIsFirst(parts, fs, k + 1);
      assert Marked(fs)[k..] == [Marked(fs)[k]] + Marked(fs)[k + 1..];
    }
  }

  /** The first encoding of a form is the RFC 2046 body of its parts. */
  lemma FirstEncoding(boundary: seq<Byte>, parts: seq<Part>, fs: seq<Flagged>)
    requires |fs| == |parts| && forall i :: 0 <= i < |fs| ==> fs[i] == Flagged(parts[i], false, false)
    requires parts != [] && Legal(boundary)
    requires forall i :: 0 <= i < |parts| ==> Clear(boundary, parts[i]) && AllClean(parts[i])
    ensures ParseParts(boundary, AllData(boundary, Marked(fs))) == Parsed(parts)
  {
    MarkedIsFirst(parts, fs, 0);
    PartsRoundTrip(boundary, parts);
  }

  /** Where there is no space nothing of a form is written, although there is something to write; and a
    * reader finds no form in nothing. */
  lemma NoRoom(boundary: seq<Byte>, parts: seq<Part>, w: seq<Byte>, capacity: nat)
    requires parts != [] && capacity <= |w|
    ensures Filled(w, Body(boundary, parts), capacity) == w
    ensures Body(boundary, parts) != [] && ParseParts(boundary, []) == Malformed
  {
    hide Content;
    assert FirstFlags(parts, 0)[0] == Flagged(parts[0], true, 0 == |parts| - 1);
    NoSpace(w, Body(boundary, parts), capacity);
  }
}
