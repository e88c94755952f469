/** Input streams over a memory buffer (`pb_istream_t`). Every method is proved against `Wire`. */
module InputStream {
  import opened Bits
  import opened Wire

  /** C's x << k in a word of w bits. */
  function Shl(x: nat, k: nat, w: nat): nat { (x * Pow2(k)) % Pow2(w) }

  lemma Distribute(q: int, m: int, y: int, p: int)
    ensures (q * m + y) * p == q * (m * p) + y * p
  {
    MulOver(q * m, y, p);
  }

  /** Only the bits that stay in the word count. */
  lemma ModParts(a: nat, q: nat, y: nat, m: nat, p: nat)
    requires y < m && a < p
    ensures (a + (q * m + y) * p) % (m * p) == a + y * p
  {
    Distribute(q, m, y, p);
    Fits(a, y, m, p);
    DivModUnique(a + (q * m + y) * p, q, a + y * p, m * p);
  }

  lemma ShlDigit(a: nat, x: nat, k: nat, w: nat)
    requires k <= w && a < Pow2(k)
    ensures Or(a, Shl(x, k, w)) == (a + x * Pow2(k)) % Pow2(w)
  {
    Pow2Add(w - k, k);
    var m := Pow2(w - k);
    var q, y := x / m, x % m;
    assert x == q * m + y;
    ModParts(0, q, y, m, Pow2(k));
    ModParts(a, q, y, m, Pow2(k));
    OrDisjoint(a, k, y);
  }

  lemma MulOver(a: int, b: int, c: int)
    ensures (a + b) * c == a * c + b * c
  {
  }

  lemma Fits(a: nat, y: nat, m: nat, p: nat)
    requires y < m && a < p
    ensures y * p <= a + y * p < m * p
  {
    MulOver(m - y, y, p);
    assert (m - y) * p >= p;
  }

  /** Adding one digit with | and << gives the base-128 value modulo the word. */
  lemma DigitOr(p: seq<Byte>, b: Byte, w: nat)
    requires 7 * |p| <= w
    ensures Base128(p) % Pow2(w) == Base128(p)
    ensures Or(Base128(p), Shl(b % 128, 7 * |p|, w)) == Base128(p + [b]) % Pow2(w)
  {
    Base128Bound(p);
    Pow2Mono(7 * |p|, w);
    SmallMod(Base128(p), Pow2(w));
    Base128Append(p, b);
    ShlDigit(Base128(p), b % 128, 7 * |p|, w);
  }

  lemma BaseZero()
    ensures Base128([]) == 0
  {
  }

  lemma FirstDigit(s: seq<Byte>, w: nat)
    requires s != [] && w >= 8
    ensures Base128(s[..1]) % Pow2(w) == s[0] % 128
  {
    assert Base128(s[..1][1..]) == 0;
    Pow2Values();
    Pow2Mono(8, w);
    SmallMod(s[0] % 128, Pow2(w));
  }

  /** k continuation bytes and a final one are a varint of k + 1 bytes. */
  lemma VarintEndsAt(s: seq<Byte>, k: nat, max: nat, modulus: nat)
    requires modulus > 0 && k < max && k < |s| && s[k] < 128 && forall i :: 0 <= i < k ==> s[i] >= 128
    ensures VarintSpan(s) == k + 1
    ensures DecVarintIn(s, max, modulus) == VarintOk(Base128(s[..k + 1]) % modulus, s[k + 1..])
  {
    SpanOfContinuations(s[..k], s[k..]);
    assert s[..k] + s[k..] == s;
  }

  /** No final byte among the first `max`, or among all there are. */
  lemma VarintTooLong(s: seq<Byte>, k: nat, max: nat, modulus: nat)
    requires modulus > 0 && k <= |s| && (k == max || (k == |s| && k < max)) && forall i :: 0 <= i < k ==> s[i] >= 128
    ensures DecVarintIn(s, max, modulus) == VarintFail(s[k..])
    ensures k == |s| ==> VarintSpan(s) == 0
  {
    SpanOfContinuations(s[..k], s[k..]);
    assert s[..k] + s[k..] == s;
  }

  lemma NextSuffix(s: seq<Byte>, k: nat)
    requires k < |s|
    ensures s[k..][1..] == s[k + 1..] && s[k..][0] == s[k] && s[..k] + [s[k]] == s[..k + 1]
  {
  }

  lemma NextByte(b: nat, n: nat)
    ensures 256 * (b * Pow2(8 * n)) == b * Pow2(8 * (n + 1))
  {
    Pow2Add(8, 8 * n);
    Pow2Values();
    assert 8 * (n + 1) == 8 + 8 * n;
  }

  lemma {:induction false} DecFixedAppend(p: seq<Byte>, b: Byte)
    ensures DecFixed(p + [b]) == DecFixed(p) + b * Pow2(8 * |p|)
  {
    if p == [] {
      assert p + [b] == [b];
      assert DecFixed([b][1..]) == 0;
    } else {
      var q := p[1..];
      assert (p + [b])[1..] == q + [b];
      DecFixedAppend(q, b);
      NextByte(b, |q|);
    }
  }

  lemma FixedFits(q: seq<Byte>, w: nat)
    requires 8 * |q| <= w
    ensures DecFixed(q) % Pow2(w) == DecFixed(q)
  {
    Pow2Mono(8 * |q|, w);
    SmallMod(DecFixed(q), Pow2(w));
  }

  /** Adding one byte of a little-endian word with | and <<. */
  lemma ByteOr(p: seq<Byte>, b: Byte, w: nat)
    requires 8 * |p| + 8 <= w
    ensures Or(DecFixed(p), Shl(b, 8 * |p|, w)) == DecFixed(p + [b])
  {
    hide DecFixed, Or, Shl, Pow2;
    var q := p + [b];
    DecFixedAppend(p, b);
    FixedFits(q, w);
    ShlDigit(DecFixed(p), b, 8 * |p|, w);
  }

  lemma FirstByte(b: Byte, w: nat)
    requires 8 <= w
    ensures Shl(b, 0, w) == DecFixed([b])
  {
    ByteOr([], b, w);
    assert [] + [b] == [b];
    OrZero(Shl(b, 0, w));
  }

  /** Four bytes put together by pb_decode_fixed32. */
  lemma Word4(p: seq<Byte>, w: nat)
    requires |p| >= 4 && 32 <= w
    ensures Or(Or(Or(Shl(p[0], 0, w), Shl(p[1], 8, w)), Shl(p[2], 16, w)), Shl(p[3], 24, w)) == DecFixed(p[..4])
  {
    hide DecFixed, Or, Shl;
    FirstByte(p[0], w);
    assert [p[0]] == p[..1];
    NextWordByte(p, 1, w);
    NextWordByte(p, 2, w);
    NextWordByte(p, 3, w);
  }

  lemma NextWordByte(p: seq<Byte>, n: nat, w: nat)
    requires n < |p| && 8 * n + 8 <= w
    ensures Or(DecFixed(p[..n]), Shl(p[n], 8 * n, w)) == DecFixed(p[..n + 1])
  {
    ByteOr(p[..n], p[n], w);
    assert p[..n] + [p[n]] == p[..n + 1];
  }

  class IStream {
    const buf: array<Byte>
    var pos: nat
    var bytesLeft: nat

    /** The stream lies inside its buffer. */
    ghost predicate Valid()
      reads this
    {
      pos + bytesLeft <= buf.Length
    }

    /** The bytes still to be read. */
    ghost function Contents(): (s: seq<Byte>)
      requires Valid()
      reads this, buf
      ensures |s| == bytesLeft
    {
      buf[pos..pos + bytesLeft]
    }

    /** Where the stream ends in the buffer; reading never moves it. */
    ghost function End(): nat
      reads this
    {
      pos + bytesLeft
    }

    /** pb_istream_from_buffer, and the copy a substream starts from */
    constructor (buf: array<Byte>, pos: nat, bytesLeft: nat)
      requires pos + bytesLeft <= buf.Length
      ensures Valid() && this.buf == buf && this.pos == pos && this.bytesLeft == bytesLeft
    {
      this.buf := buf;
      this.pos := pos;
      this.bytesLeft := bytesLeft;
    }

    /** pb_read into a destination buffer */
    method Read(count: nat) returns (ok: bool, bytes: seq<Byte>)
      requires Valid()
      modifies this
      ensures Valid() && End() == old(End())
      ensures ok <==> count <= |old(Contents())|
      ensures ok ==> bytes == old(Contents())[..count] && Contents() == old(Contents())[count..]
      ensures !ok ==> pos == old(pos) && bytesLeft == old(bytesLeft)
    {
      bytes := [];
      if bytesLeft < count {
        return false, bytes;
      }
      for i := 0 to count
        invariant bytes == buf[pos..pos + i]
      {
        bytes := bytes + [buf[pos + i]];
      }
      pos := pos + count;
      bytesLeft := bytesLeft - count;
      return true, bytes;
    }

    /** pb_read without a destination */
    method Discard(count: nat) returns (ok: bool)
      requires Valid()
      modifies this
      ensures Valid() && End() == old(End())
      ensures ok <==> count <= |old(Contents())|
      ensures ok ==> Contents() == old(Contents())[count..]
      ensures !ok ==> pos == old(pos) && bytesLeft == old(bytesLeft)
    {
      if bytesLeft < count {
        return false;
      }
      pos := pos + count;
      bytesLeft := bytesLeft - count;
      return true;
    }

    /** pb_readbyte */
    method ReadByte() returns (ok: bool, b: Byte)
      requires Valid()
      modifies this
      ensures Valid() && End() == old(End())
      ensures ok <==> old(bytesLeft) > 0
      ensures ok ==> b == old(Contents())[0] && Contents() == old(Contents())[1..]
      ensures !ok ==> Contents() == []
    {
      if bytesLeft == 0 {
        return false, 0;
      }
      b := buf[pos];
      pos := pos + 1;
      bytesLeft := bytesLeft - 1;
      return true, b;
    }

    /** pb_decode_varint */
    method DecodeVarint() returns (ok: bool, value: nat)
      requires Valid()
      modifies this
      ensures Valid() && End() == old(End())
      ensures var r := DecVarint64(old(Contents()));
              Contents() == r.rest && (ok <==> r.VarintOk?) && (ok ==> value == r.value)
    {
      hide Base128, Or, Shl, Pow2, VarintSpan, DecVarintIn;
      ghost var s := Contents();
      ghost var k := 0;
      var bitpos, result := 0, 0;
      Pow2Values();
      BaseZero();
      while true
        invariant Valid() && End() == old(End())
        invariant k <= |s| && k <= 10 && Contents() == s[k..]
        invariant bitpos == 7 * k
        invariant forall i :: 0 <= i < k ==> s[i] >= 128
        invariant result == Base128(s[..k]) % TWO64
        decreases bytesLeft
      {
        if bitpos >= 64 {
          VarintTooLong(s, k, 10, TWO64);
          return false, 0;
        }
        var read, b := ReadByte();
        if !read {
          VarintTooLong(s, k, 10, TWO64);
          return false, 0;
        }
        NextSuffix(s, k);
        DigitOr(s[..k], b, 64);
        result := Or(result, Shl(b % 128, bitpos, 64));
        bitpos := bitpos + 7;
        if b < 128 {
          VarintEndsAt(s, k, 10, TWO64);
          return true, result;
        }
        k := k + 1;
      }
    }

    /** pb_decode_varint32 */
    method DecodeVarint32() returns (ok: bool, value: nat)
      requires Valid()
      modifies this
      ensures Valid() && End() == old(End())
      ensures var r := DecVarint32(old(Contents()));
              Contents() == r.rest && (ok <==> r.VarintOk?) && (ok ==> value == r.value)
    {
      hide Base128, Or, Shl, Pow2, VarintSpan, DecVarintIn;
      ghost var s := Contents();
      Pow2Values();
      var read, b := ReadByte();
      if !read {
        VarintTooLong(s, 0, 5, TWO32);
        return false, 0;
      }
      NextSuffix(s, 0);
      FirstDigit(s, 32);
      if b < 128 {
        VarintEndsAt(s, 0, 5, TWO32);
        return true, b;
      }
      ghost var k := 1;
      var bitpos, result := 7, b % 128;
      while true
        invariant Valid() && End() == old(End())
        invariant 1 <= k <= |s| && k <= 5 && Contents() == s[k..]
        invariant bitpos == 7 * k
        invariant forall i :: 0 <= i < k ==> s[i] >= 128
        invariant result == Base128(s[..k]) % TWO32
        decreases bytesLeft
      {
        if bitpos >= 32 {
          VarintTooLong(s, k, 5, TWO32);
          return false, 0;
        }
        read, b := ReadByte();
        if !read {
          VarintTooLong(s, k, 5, TWO32);
          return false, 0;
        }
        NextSuffix(s, k);
        DigitOr(s[..k], b, 32);
        result := Or(result, Shl(b % 128, bitpos, 32));
        bitpos := bitpos + 7;
        if b < 128 {
          VarintEndsAt(s, k, 5, TWO32);
          return true, result;
        }
        k := k + 1;
      }
    }

    /** pb_decode_svarint */
    method DecodeSvarint() returns (ok: bool, value: int)
      requires Valid()
      modifies this
      ensures Valid() && End() == old(End())
      ensures var r := DecVarint64(old(Contents()));
              Contents() == r.rest && (ok <==> r.VarintOk?) && (ok ==> value == UnZigZag(r.value))
    {
      var read, u := DecodeVarint();
      if !read {
        return false, 0;
      }
      if u % 2 == 1 {
        // (int64_t)(~(u >> 1))
        var inverted := TWO64 - 1 - u / 2;
        value := inverted - TWO64;
      } else {
        value := u / 2;
      }
      return true, value;
    }

    /** pb_decode_fixed32 */
    method DecodeFixed32() returns (ok: bool, value: nat)
      requires Valid()
      modifies this
      ensures Valid() && End() == old(End())
      ensures ok <==> |old(Contents())| >= 4
      ensures ok ==> value == DecFixed(old(Contents())[..4]) && Contents() == old(Contents())[4..]
      ensures !ok ==> Contents() == old(Contents())
    {
      var read, bytes := Read(4);
      if !read {
        return false, 0;
      }
      hide Or, Shl, DecFixed;
      value := Or(Or(Or(Shl(bytes[0], 0, 32), Shl(bytes[1], 8, 32)), Shl(bytes[2], 16, 32)), Shl(bytes[3], 24, 32));
      Word4(bytes, 32);
      assert bytes[..4] == bytes;
      return true, value;
    }

    /** pb_decode_fixed64 */
    method DecodeFixed64() returns (ok: bool, value: nat)
      requires Valid()
      modifies this
      ensures Valid() && End() == old(End())
      ensures ok <==> |old(Contents())| >= 8
      ensures ok ==> value == DecFixed(old(Contents())[..8]) && Contents() == old(Contents())[8..]
      ensures !ok ==> Contents() == old(Contents())
    {
      var read, bytes := Read(8);
      if !read {
        return false, 0;
      }
      hide Or, Shl, DecFixed;
      Word4(bytes, 64);
      value := Or(Or(Or(Shl(bytes[0], 0, 64), Shl(bytes[1], 8, 64)), Shl(bytes[2], 16, 64)), Shl(bytes[3], 24, 64));
      NextWordByte(bytes, 4, 64);
      NextWordByte(bytes, 5, 64);
      value := Or(Or(value, Shl(bytes[4], 32, 64)), Shl(bytes[5], 40, 64));
      NextWordByte(bytes, 6, 64);
      NextWordByte(bytes, 7, 64);
      value := Or(Or(value, Shl(bytes[6], 48, 64)), Shl(bytes[7], 56, 64));
      assert bytes[..8] == bytes;
      return true, value;
    }

    /** pb_decode_tag */
    method DecodeTag() returns (ok: bool, wt: WireType, tag: nat, eof: bool)
      requires Valid()
      modifies this
      ensures Valid() && End() == old(End())
      ensures var r := DecTag(old(Contents()));
              && (ok <==> r.Tag?)
              && (ok ==> wt == r.wt && tag == r.tag && Contents() == r.rest)
              && (!ok ==> (eof <==> r.TagEof?))
              && (r.TagEof? ==> Contents() == r.rest)
    {
      eof := false;
      wt := WtVarint;
      tag := 0;
      var read, temp := DecodeVarint32();
      if !read {
        if bytesLeft == 0 {
          eof := true;
        }
        return false, wt, tag, eof;
      }
      if temp == 0 {
        return false, wt, tag, true;
      }
      return true, WireTypeOf(temp % 8), temp / 8, eof;
    }

    /** pb_skip_varint */
    method SkipVarint() returns (ok: bool)
      requires Valid()
      modifies this
      ensures Valid() && End() == old(End())
      ensures ok <==> Skip(WtVarint, old(Contents())).Rest?
      ensures ok ==> Contents() == Skip(WtVarint, old(Contents())).bytes
    {
      hide VarintSpan;
      ghost var s := Contents();
      ghost var k := 0;
      while true
        invariant Valid() && End() == old(End())
        invariant k <= |s| && Contents() == s[k..]
        invariant forall i :: 0 <= i < k ==> s[i] >= 128
        decreases bytesLeft
      {
        var read, b := ReadByte();
        if !read {
          VarintTooLong(s, k, k, 1);
          return false;
        }
        NextSuffix(s, k);
        if b < 128 {
          VarintEndsAt(s, k, k + 1, 1);
          return true;
        }
        k := k + 1;
      }
    }

    /** pb_skip_field */
    method SkipField(wt: WireType) returns (ok: bool)
      requires Valid()
      modifies this
      ensures Valid() && End() == old(End())
      ensures ok <==> Skip(wt, old(Contents())).Rest?
      ensures ok ==> Contents() == Skip(wt, old(Contents())).bytes
    {
      match wt
      case WtVarint => ok := SkipVarint();
      case Wt64Bit => ok := Discard(8);
      case WtString =>
        var read, length := DecodeVarint32();
        if !read {
          return false;
        }
        ok := Discard(length);
      case Wt32Bit => ok := Discard(4);
      case WtInvalid(_) => ok := false;
    }

    /** pb_make_string_substream: the parent gives up the payload's bytes but stays at its start until the
      * substream is closed. */
    method MakeSubstream() returns (ok: bool, sub: IStream)
      requires Valid()
      modifies this
      ensures Valid()
      ensures ok <==> DecPiece(old(Contents())).Piece?
      ensures ok ==>
                && fresh(sub) && sub.Valid() && sub.buf == buf && sub.pos == pos
                && sub.Contents() == DecPiece(old(Contents())).payload
                && sub.End() + bytesLeft == old(End())
                && buf[sub.End()..old(End())] == DecPiece(old(Contents())).rest
      ensures !ok ==> sub == this && End() == old(End())
    {
      hide DecVarint32;
      var read, size := DecodeVarint32();
      if !read || bytesLeft < size {
        return false, this;
      }
      assert Contents()[..size] == buf[pos..pos + size];
      assert Contents()[size..] == buf[pos + size..End()];
      sub := new IStream(buf, pos, size);
      bytesLeft := bytesLeft - size;
      return true, sub;
    }

    /** pb_close_string_substream: what the substream left unread is skipped, and the parent moves to
      * where the substream ends. */
    method CloseSubstream(sub: IStream) returns (ok: bool)
      requires sub.Valid() && this != sub && sub.End() + bytesLeft <= buf.Length
      modifies this, sub
      ensures Valid() && ok
      ensures pos == old(sub.End()) && bytesLeft == old(bytesLeft)
    {
      if sub.bytesLeft != 0 {
        var skipped := sub.Discard(sub.bytesLeft);
        if !skipped {
          return false;
        }
      }
      pos := sub.pos;
      return true;
    }
  }
}
