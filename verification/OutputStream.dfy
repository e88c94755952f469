/** Output streams over a memory buffer, and sizing streams that only count (`pb_ostream_t`). */
module OutputStream {
  import opened Bits
  import opened Wire
  import opened EncodeSpec

  /** A stream at one moment. */
  datatype Snapshot = Snapshot(sizing: bool, maxSize: nat, state: nat, bytesWritten: nat, buf: seq<Byte>)
  {
    /** The bytes the stream may still write lie inside its buffer. */
    predicate Valid() {
      sizing || (bytesWritten <= maxSize && state + (maxSize - bytesWritten) <= |buf|)
    }

    function Limit(): int { state + maxSize - bytesWritten }

    predicate HasRoom(n: nat) { sizing || bytesWritten + n <= maxSize }
  }

  /** buf with p written over it at a position. */
  function Splice(buf: seq<Byte>, at: nat, p: seq<Byte>): (r: seq<Byte>)
    requires at + |p| <= |buf|
    ensures |r| == |buf|
  {
    buf[..at] + p + buf[at + |p|..]
  }

  lemma SpliceTwice(buf: seq<Byte>, at: nat, p: seq<Byte>, q: seq<Byte>)
    requires at + |p| + |q| <= |buf|
    ensures Splice(Splice(buf, at, p), at + |p|, q) == Splice(buf, at, p + q)
  {
    var b := Splice(buf, at, p);
    assert b[..at + |p|] == buf[..at] + p;
    assert b[at + |p| + |q|..] == buf[at + |p| + |q|..];
  }

  lemma SpliceNothing(buf: seq<Byte>, at: nat)
    requires at <= |buf|
    ensures Splice(buf, at, []) == buf
  {
  }

  lemma SpliceKeeps(buf: seq<Byte>, at: nat, p: seq<Byte>, hi: nat)
    requires at + |p| <= hi <= |buf|
    ensures Splice(buf, at, p)[..at] == buf[..at] && Splice(buf, at, p)[hi..] == buf[hi..]
  {
  }

  /** What an encoding operation does to a stream: it succeeds exactly when there is something to encode
    * and room for all of it. Then it appends exactly those bytes, or counts them when sizing. Failing,
    * it still touches nothing before the old position and nothing beyond the limit. */
  predicate Did(a: Snapshot, b: Snapshot, ok: bool, e: Encoded)
    requires a.Valid()
  {
    && b.Valid() && b.sizing == a.sizing && b.maxSize == a.maxSize && |b.buf| == |a.buf|
    && (ok <==> e.Wrote? && a.HasRoom(|e.bytes|))
    && (if a.sizing then b.buf == a.buf && b.state == a.state else b.state >= a.state && b.Limit() == a.Limit())
    && (ok ==> b.bytesWritten == a.bytesWritten + |e.bytes|)
    && (ok && !a.sizing ==> b.buf == Splice(a.buf, a.state, e.bytes))
    && (!ok && !a.sizing ==> b.buf[..a.state] == a.buf[..a.state] && b.buf[a.Limit()..] == a.buf[a.Limit()..])
  }

  /** Nothing to write: nothing happens. */
  lemma DidNothing(a: Snapshot)
    requires a.Valid()
    ensures Did(a, a, true, Wrote([])) && Did(a, a, false, Refused)
  {
    if !a.sizing {
      SpliceNothing(a.buf, a.state);
    }
  }

  /** A failure of the first part fails the whole. */
  lemma DidFirst(a: Snapshot, b: Snapshot, e: Encoded, f: Encoded)
    requires a.Valid() && Did(a, b, false, e)
    ensures Did(a, b, false, e.Then(f))
  {
  }

  /** One part after the other. */
  lemma DidBoth(a: Snapshot, b: Snapshot, c: Snapshot, ok: bool, e: Encoded, f: Encoded)
    requires a.Valid() && Did(a, b, true, e) && Did(b, c, ok, f)
    ensures Did(a, c, ok, e.Then(f))
  {
    if !a.sizing {
      SpliceKeeps(a.buf, a.state, e.bytes, a.Limit());
      if ok {
        SpliceTwice(a.buf, a.state, e.bytes, f.bytes);
      } else {
        assert c.buf[..a.state] == c.buf[..b.state][..a.state] == b.buf[..b.state][..a.state] == b.buf[..a.state];
      }
    }
  }

  /** One more part of a longer output. */
  lemma DidNext(a: Snapshot, b: Snapshot, c: Snapshot, ok: bool, e: Encoded, item: Encoded, rest: Encoded)
    requires a.Valid() && e.Wrote? && Did(a, b, true, e) && Did(b, c, ok, item)
    ensures ok ==>
              && e.Then(item).Wrote? && Did(a, c, true, e.Then(item))
              && e.Then(item).Then(rest) == e.Then(item.Then(rest))
    ensures !ok ==> Did(a, c, false, e.Then(item.Then(rest)))
  {
    DidBoth(a, b, c, ok, e, item);
    ThenAssoc(e, item, rest);
    if !ok {
      DidFirst(a, c, e.Then(item), rest);
    }
  }

  /** A sizing pass tells what a writing pass will do: it succeeds exactly when the sizing pass did and
    * what that counted fits, it then writes exactly so many bytes, and it leaves all others alone. */
  lemma SizingPredictsWriting(s: Snapshot, s': Snapshot, sized: bool, w: Snapshot, w': Snapshot, ok: bool, e: Encoded)
    requires s == Snapshot(true, 0, 0, 0, []) && Did(s, s', sized, e)
    requires w.Valid() && !w.sizing && Did(w, w', ok, e)
    ensures ok <==> sized && w.bytesWritten + s'.bytesWritten <= w.maxSize
    ensures ok ==>
              var n := s'.bytesWritten;
              && w'.bytesWritten == w.bytesWritten + n && w'.state == w.state + n
              && |w'.buf| == |w.buf| && w'.buf[w.state..w'.state] == e.bytes
              && forall k :: 0 <= k < |w.buf| && !(w.state <= k < w'.state) ==> w'.buf[k] == w.buf[k]
  {
    if ok {
      assert Splice(w.buf, w.state, e.bytes)[w.state..w'.state] == e.bytes;
    }
  }

  /** Shifting the 64-bit pattern, and inverting it for negative values, is the zigzag number. */
  lemma ZigZagWord(value: int)
    requires FitsSigned(value, 64)
    ensures ZigZag(value) < TWO64
    ensures value >= 0 ==> (ToU64(value) * 2) % TWO64 == ZigZag(value)
    ensures value < 0 ==> TWO64 - 1 - (ToU64(value) * 2) % TWO64 == ZigZag(value)
  {
    Pow2Values();
    assert Pow2(64) == 2 * Pow2(63);
    hide Pow2;
    if value < 0 {
      DoubledNegative(value);
    } else {
      SmallMod(value, TWO64);
      SmallMod(2 * value, TWO64);
    }
  }

  lemma DoubledNegative(value: int)
    requires -0x8000_0000_0000_0000 <= value < 0
    ensures (ToU64(value) * 2) % TWO64 == 2 * value + TWO64
  {
    DivModUnique(value + TWO64, 0, value + TWO64, TWO64);
    WrapsOnce(value);
    DivModUnique(2 * (value + TWO64), 1, 2 * value + TWO64, TWO64);
  }

  lemma WrapsOnce(value: int)
    requires value < 0 <= value + TWO64
    ensures ToU64(value) == value + TWO64
  {
  }

  lemma SpliceNext(buf: seq<Byte>, at: nat, p: seq<Byte>, i: nat)
    requires i < |p| && at + |p| <= |buf|
    ensures Splice(buf, at, p[..i])[at + i := p[i]] == Splice(buf, at, p[..i + 1])
  {
  }

  lemma NextVarintByte(p: seq<Byte>, left: nat)
    requires left > 0
    ensures left / 128 > 0 ==> p + EncVarint(left) == p + [left % 128 + 128] + EncVarint(left / 128)
    ensures left / 128 == 0 ==> p + EncVarint(left) == p + [left % 128]
  {
    if left >= 128 {
      Assoc(p, [left % 128 + 128], EncVarint(left / 128));
    }
  }

  /** The loop of pb_encode_varint over its ten-byte buffer. */
  method FillVarint(value: nat) returns (bytes: seq<Byte>)
    requires 0x7F < value < TWO64
    ensures bytes == EncVarint(value)
  {
    hide EncVarint, VarintSpan, DecVarintIn;
    var buffer := new Byte[10];
    var i, left: nat := 0, value;
    VarintRoundTrip(value, []);
    NilLeft(EncVarint(value));
    while left != 0
      invariant 0 <= i <= 10 && left < TWO64
      invariant left > 0 ==> EncVarint(value) == buffer[..i] + EncVarint(left)
      invariant left == 0 ==>
                  i > 0 && buffer[i - 1] >= 128 && EncVarint(value) == buffer[..i - 1] + [buffer[i - 1] - 128]
      modifies buffer
      decreases left
    {
      NextVarintByte(buffer[..i], left);
      buffer[i] := left % 128 + 128;
      left := left / 128;
      i := i + 1;
      assert buffer[..i] == buffer[..i - 1] + [buffer[i - 1]];
    }
    buffer[i - 1] := buffer[i - 1] - 128;
    assert buffer[..i] == EncVarint(value);
    bytes := buffer[..i];
  }

  class OStream {
    const sizing: bool
    const buf: array<Byte>
    const maxSize: nat
    var state: nat
    var bytesWritten: nat

    ghost function Now(): Snapshot
      reads this, buf
    {
      Snapshot(sizing, maxSize, state, bytesWritten, buf[..])
    }

    ghost predicate Valid()
      reads this
    {
      sizing || (bytesWritten <= maxSize && state + (maxSize - bytesWritten) <= buf.Length)
    }

    /** pb_ostream_from_buffer, and the substream of a submessage */
    constructor (buf: array<Byte>, state: nat, maxSize: nat)
      requires state + maxSize <= buf.Length
      ensures Valid() && this.buf == buf && Now() == Snapshot(false, maxSize, state, 0, buf[..])
    {
      this.sizing := false;
      this.buf := buf;
      this.maxSize := maxSize;
      this.state := state;
      this.bytesWritten := 0;
    }

    /** PB_OSTREAM_SIZING */
    constructor Sizing()
      ensures Valid() && fresh(buf) && Now() == Snapshot(true, 0, 0, 0, [])
    {
      this.sizing := true;
      this.buf := new Byte[0];
      this.maxSize := 0;
      this.state := 0;
      this.bytesWritten := 0;
    }

    /** pb_write, with the copying loop of buf_write */
    method Write(bytes: seq<Byte>) returns (ok: bool)
      requires Valid()
      modifies this, buf
      ensures Valid() && Did(old(Now()), Now(), ok, Wrote(bytes))
    {
      if !sizing {
        if bytesWritten + |bytes| > maxSize {
          return false;
        }
        var dest := state;
        ghost var before := buf[..];
        state := dest + |bytes|;
        SpliceNothing(before, dest);
        for i := 0 to |bytes|
          invariant state == dest + |bytes| && bytesWritten == old(bytesWritten)
          invariant buf[..] == Splice(before, dest, bytes[..i])
        {
          SpliceNext(before, dest, bytes, i);
          ghost var b := buf[..];
          buf[dest + i] := bytes[i];
          assert buf[..] == b[dest + i := bytes[i]];
        }
        assert bytes[..|bytes|] == bytes;
      }
      bytesWritten := bytesWritten + |bytes|;
      return true;
    }

    /** pb_write without a source, on a sizing stream */
    method Count(size: nat)
      requires Valid() && sizing
      modifies this
      ensures Now() == old(Now()).(bytesWritten := old(bytesWritten) + size)
    {
      bytesWritten := bytesWritten + size;
    }

    /** pb_encode_varint, through the ten-byte buffer */
    method EncodeVarint(value: nat) returns (ok: bool)
      requires Valid() && value < TWO64
      modifies this, buf
      ensures Valid() && Did(old(Now()), Now(), ok, Wrote(EncVarint(value)))
    {
      if value <= 0x7F {
        ok := Write([value]);
        return;
      }
      var bytes := FillVarint(value);
      ok := Write(bytes);
    }

    /** pb_encode_svarint: ~((uint64_t)value << 1) for negative values */
    method EncodeSvarint(value: int) returns (ok: bool)
      requires Valid() && FitsSigned(value, 64)
      modifies this, buf
      ensures Valid() && Did(old(Now()), Now(), ok, Wrote(EncVarint(ZigZag(value))))
    {
      ZigZagWord(value);
      var zigzagged: nat;
      if value < 0 {
        zigzagged := TWO64 - 1 - (ToU64(value) * 2) % TWO64;
      } else {
        zigzagged := (ToU64(value) * 2) % TWO64;
      }
      ok := EncodeVarint(zigzagged);
    }

    /** pb_encode_fixed32 */
    method EncodeFixed32(val: nat) returns (ok: bool)
      requires Valid() && val < TWO32
      modifies this, buf
      ensures Valid() && Did(old(Now()), Now(), ok, Wrote(EncFixed(val, 4)))
    {
      var bytes := [val % 256, (val / 0x100) % 256, (val / 0x1_0000) % 256, (val / 0x100_0000) % 256];
      Fixed4(val);
      ok := Write(bytes);
    }

    /** pb_encode_fixed64 */
    method EncodeFixed64(val: nat) returns (ok: bool)
      requires Valid() && val < TWO64
      modifies this, buf
      ensures Valid() && Did(old(Now()), Now(), ok, Wrote(EncFixed(val, 8)))
    {
      var bytes := [val % 256, (val / 0x100) % 256, (val / 0x1_0000) % 256, (val / 0x100_0000) % 256,
                    (val / 0x1_0000_0000) % 256, (val / 0x100_0000_0000) % 256,
                    (val / 0x1_0000_0000_0000) % 256, (val / 0x100_0000_0000_0000) % 256];
      Fixed8(val);
      ok := Write(bytes);
    }

    /** pb_encode_tag */
    method EncodeTag(wt: WireType, tag: nat) returns (ok: bool)
      requires Valid() && tag < 0x2000_0000 && !wt.WtInvalid?
      modifies this, buf
      ensures Valid() && Did(old(Now()), Now(), ok, Wrote(EncTag(wt, tag)))
    {
      ok := EncodeVarint(8 * tag + WireCode(wt));
    }

    /** pb_encode_string */
    method EncodeString(bytes: seq<Byte>) returns (ok: bool)
      requires Valid() && |bytes| < TWO64
      modifies this, buf
      ensures Valid() && Did(old(Now()), Now(), ok, Wrote(EncPiece(bytes)))
    {
      ghost var a := Now();
      ok := EncodeVarint(|bytes|);
      ghost var b := Now();
      if !ok {
        DidFirst(a, b, Wrote(EncVarint(|bytes|)), Wrote(bytes));
        return;
      }
      ok := Write(bytes);
      DidBoth(a, b, Now(), ok, Wrote(EncVarint(|bytes|)), Wrote(bytes));
    }
  }

  lemma FixedStep(v: nat, n: nat)
    ensures EncFixed(v, n + 1) == [v % 256] + EncFixed(v / 256, n)
  {
  }

  lemma Quotients(val: nat)
    ensures val / 0x100 / 256 == val / 0x1_0000 && val / 0x1_0000 / 256 == val / 0x100_0000
    ensures val / 0x100_0000 / 256 == val / 0x1_0000_0000
  {
  }

  lemma FourBytes(a: Byte, b: Byte, c: Byte, d: Byte, t: seq<Byte>)
    ensures [a] + ([b] + ([c] + ([d] + t))) == [a, b, c, d] + t
  {
  }

  lemma FixedLow(val: nat, n: nat)
    ensures EncFixed(val, n + 4) ==
            [val % 256, (val / 0x100) % 256, (val / 0x1_0000) % 256, (val / 0x100_0000) % 256] +
                EncFixed(val / 0x1_0000_0000, n)
  {
    hide EncFixed;
    Quotients(val);
    FixedStep(val, n + 3);
    FixedStep(val / 0x100, n + 2);
    FixedStep(val / 0x1_0000, n + 1);
    FixedStep(val / 0x100_0000, n);
    FourBytes(val % 256, (val / 0x100) % 256, (val / 0x1_0000) % 256, (val / 0x100_0000) % 256,
              EncFixed(val / 0x1_0000_0000, n));
  }

  lemma Fixed4(val: nat)
    ensures EncFixed(val, 4) == [val % 256, (val / 0x100) % 256, (val / 0x1_0000) % 256, (val / 0x100_0000) % 256]
  {
    FixedLow(val, 0);
  }

  lemma Fixed8(val: nat)
    ensures EncFixed(val, 8) ==
            [val % 256, (val / 0x100) % 256, (val / 0x1_0000) % 256, (val / 0x100_0000) % 256,
             (val / 0x1_0000_0000) % 256, (val / 0x100_0000_0000) % 256,
             (val / 0x1_0000_0000_0000) % 256, (val / 0x100_0000_0000_0000) % 256]
  {
    hide EncFixed;
    var high := val / 0x1_0000_0000;
    FixedLow(val, 4);
    Fixed4(high);
    assert high / 0x100 == val / 0x100_0000_0000;
    assert high / 0x1_0000 == val / 0x1_0000_0000_0000;
    assert high / 0x100_0000 == val / 0x100_0000_0000_0000;
  }
}
