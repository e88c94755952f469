/** The protobuf wire format: varints, zigzag, little-endian words, tags and skipping.
  * These functions say what the stream operations of `IStream` and `OStream` compute. */
module Wire {
  import opened Bits

  type Byte = b: nat | b < 256

  datatype WireType = WtVarint | Wt64Bit | WtString | Wt32Bit | WtInvalid(code: nat)

  function WireTypeOf(code: nat): WireType {
    if code == 0 then WtVarint else if code == 1 then Wt64Bit
    else if code == 2 then WtString else if code == 5 then Wt32Bit
    else WtInvalid(code)
  }

  function WireCode(wt: WireType): nat {
    match wt
    case WtVarint => 0
    case Wt64Bit => 1
    case WtString => 2
    case Wt32Bit => 5
    case WtInvalid(code) => code
  }

  // ----- concatenation

  lemma Assoc(p: seq<Byte>, q: seq<Byte>, t: seq<Byte>)
    ensures p + q + t == p + (q + t)
  {
  }

  lemma NilLeft(t: seq<Byte>)
    ensures [] + t == t
  {
  }

  lemma SplitAt(p: seq<Byte>, t: seq<Byte>)
    ensures (p + t)[..|p|] == p && (p + t)[|p|..] == t
  {
  }

  // ----- varints

  /** The value of a string of base-128 digits, least significant first. */
  function Base128(p: seq<Byte>): nat {
    if p == [] then 0 else p[0] % 128 + 128 * Base128(p[1..])
  }

  /** Length of the varint at the head of s, 0 when s holds no final byte. */
  function VarintSpan(s: seq<Byte>): (n: nat)
    ensures n <= |s|
  {
    if s == [] then 0
    else if s[0] < 128 then 1
    else
      var r := VarintSpan(s[1..]);
      if r == 0 then 0 else r + 1
  }

  function EncVarint(v: nat): (p: seq<Byte>)
    ensures |p| > 0
  {
    if v < 128 then [v] else [v % 128 + 128] + EncVarint(v / 128)
  }

  /** A failed read still says which bytes are left: the tag reader looks at them. */
  datatype VarintResult = VarintOk(value: nat, rest: seq<Byte>) | VarintFail(rest: seq<Byte>)

  /** Decoding into a word of `modulus` values, at most `max` bytes long. */
  function DecVarintIn(s: seq<Byte>, max: nat, modulus: nat): (r: VarintResult)
    requires modulus > 0
    ensures r.VarintOk? ==> |r.rest| < |s| && r.value < modulus
    ensures |r.rest| <= |s| && r.rest == s[|s| - |r.rest|..]
  {
    var n := VarintSpan(s);
    if 0 < n <= max then VarintOk(Base128(s[..n]) % modulus, s[n..])
    else VarintFail(if |s| <= max then s[|s|..] else s[max..])
  }

  function DecVarint64(s: seq<Byte>): VarintResult { DecVarintIn(s, 10, TWO64) }

  function DecVarint32(s: seq<Byte>): VarintResult { DecVarintIn(s, 5, TWO32) }

  lemma NextDigit(x: nat, n: nat)
    ensures 128 * (x * Pow2(7 * n)) == x * Pow2(7 * (n + 1))
  {
    Pow2Add(7, 7 * n);
    Pow2Values();
    assert 7 * (n + 1) == 7 + 7 * n;
  }

  lemma {:induction false} Base128Append(p: seq<Byte>, b: Byte)
    ensures Base128(p + [b]) == Base128(p) + (b % 128) * Pow2(7 * |p|)
  {
    if p == [] {
      assert p + [b] == [b];
      assert Base128([b][1..]) == 0;
    } else {
      var q := p[1..];
      assert (p + [b])[1..] == q + [b];
      Base128Append(q, b);
      NextDigit(b % 128, |q|);
    }
  }

  lemma {:induction false} Base128Bound(p: seq<Byte>)
    ensures Base128(p) < Pow2(7 * |p|)
  {
    if p != [] {
      Base128Bound(p[1..]);
      Pow2Add(7, 7 * |p[1..]|);
      Pow2Values();
      assert 7 * |p| == 7 + 7 * |p[1..]|;
    }
  }

  /** A complete varint is recognised whatever follows it. */
  lemma {:induction false} SpanExtend(s: seq<Byte>, t: seq<Byte>)
    requires VarintSpan(s) != 0
    ensures VarintSpan(s + t) == VarintSpan(s)
  {
    assert (s + t)[1..] == s[1..] + t;
    if s[0] >= 128 {
      SpanExtend(s[1..], t);
    }
  }

  lemma {:induction false} SpanPrefix(s: seq<Byte>)
    requires VarintSpan(s) != 0
    ensures var n := VarintSpan(s); VarintSpan(s[..n]) == n
  {
    var n := VarintSpan(s);
    if s[0] >= 128 {
      SpanPrefix(s[1..]);
      assert s[..n][1..] == s[1..][..n - 1];
    }
  }

  /** Continuation bytes alone are no varint. */
  lemma {:induction false} SpanOfContinuations(p: seq<Byte>, t: seq<Byte>)
    requires forall i :: 0 <= i < |p| ==> p[i] >= 128
    ensures VarintSpan(p + t) == if VarintSpan(t) == 0 then 0 else |p| + VarintSpan(t)
  {
    if p == [] {
      assert p + t == t;
    } else {
      assert (p + t)[1..] == p[1..] + t;
      SpanOfContinuations(p[1..], t);
    }
  }

  lemma {:induction false} EncVarintSpan(v: nat)
    ensures VarintSpan(EncVarint(v)) == |EncVarint(v)| && Base128(EncVarint(v)) == v
  {
    if v >= 128 {
      EncVarintSpan(v / 128);
      assert EncVarint(v)[1..] == EncVarint(v / 128);
    } else {
      assert EncVarint(v)[1..] == [];
    }
  }

  lemma {:induction false} EncVarintLength(v: nat, k: nat)
    requires k > 0 && v < Pow2(7 * k)
    ensures |EncVarint(v)| <= k
  {
    if v >= 128 {
      Pow2Values();
      if k == 1 {
        assert false;
      }
      Pow2Add(7, 7 * (k - 1));
      assert 7 * k == 7 + 7 * (k - 1);
      EncVarintLength(v / 128, k - 1);
    }
  }

  /** A value that needs n bytes is too big for n - 1 digits. */
  lemma {:induction false} EncVarintNeeds(v: nat)
    requires |EncVarint(v)| > 1
    ensures v >= Pow2(7 * (|EncVarint(v)| - 1))
  {
    Pow2Values();
    var n := |EncVarint(v)| - 1;
    assert n == |EncVarint(v / 128)|;
    if n > 1 {
      EncVarintNeeds(v / 128);
      Pow2Add(7, 7 * (n - 1));
      assert 7 * n == 7 + 7 * (n - 1);
    }
  }

  lemma Pow2Mono(a: nat, b: nat)
    requires a <= b
    ensures Pow2(a) <= Pow2(b)
  {
    Pow2Add(a, b - a);
    assert Pow2(a) * Pow2(b - a) >= Pow2(a);
  }

  lemma DivTwice(v: nat, m: nat)
    requires m > 0
    ensures v / 128 / m == v / (128 * m)
  {
    var x := v / 128;
    var q, r := x / m, x % m;
    assert v == 128 * x + v % 128 && x == q * m + r;
    Scale(q, m);
    assert v == q * (128 * m) + (128 * r + v % 128);
    DivModUnique(v, q, 128 * r + v % 128, 128 * m);
  }

  lemma Scale(q: nat, m: nat)
    ensures 128 * (q * m) == q * (128 * m)
  {
  }

  lemma DigitShift(v: nat, k: nat)
    requires k > 0
    ensures v / 128 / Pow2(7 * (k - 1)) == v / Pow2(7 * k)
  {
    var m := Pow2(7 * (k - 1));
    Pow2Add(7, 7 * (k - 1));
    assert Pow2(7) == 128 && 7 * k == 7 + 7 * (k - 1);
    hide Pow2;
    DivTwice(v, m);
  }

  /** Byte k holds the seven bits of weight 2^(7 k), and its high bit says that more bytes follow. */
  lemma {:induction false} VarintDigits(v: nat, k: nat)
    requires k < |EncVarint(v)|
    ensures EncVarint(v)[k] == v / Pow2(7 * k) % 128 + if k < |EncVarint(v)| - 1 then 128 else 0
  {
    if k > 0 {
      VarintDigits(v / 128, k - 1);
      DigitShift(v, k);
    }
  }

  lemma DecVarintExtend(s: seq<Byte>, t: seq<Byte>, max: nat, modulus: nat)
    requires modulus > 0 && DecVarintIn(s, max, modulus).VarintOk?
    ensures var r := DecVarintIn(s, max, modulus);
            DecVarintIn(s + t, max, modulus) == VarintOk(r.value, r.rest + t)
  {
    SpanExtend(s, t);
    var n := VarintSpan(s);
    assert (s + t)[..n] == s[..n];
    assert (s + t)[n..] == s[n..] + t;
  }

  /** Round trip in a word wide enough for v. */
  lemma DecEncVarintIn(v: nat, t: seq<Byte>, max: nat, modulus: nat)
    requires v < modulus && 0 < max && v < Pow2(7 * max)
    ensures DecVarintIn(EncVarint(v) + t, max, modulus) == VarintOk(v, t)
  {
    var p := EncVarint(v);
    EncVarintSpan(v);
    EncVarintLength(v, max);
    SpanExtend(p, t);
    assert (p + t)[..|p|] == p && (p + t)[|p|..] == t;
    SmallMod(v, modulus);
  }

  lemma SmallMod(v: nat, modulus: nat)
    requires v < modulus
    ensures v % modulus == v
  {
  }

  /** Every 64-bit value survives, whatever follows it; the encoding fits the ten-byte buffer. */
  lemma VarintRoundTrip(v: nat, t: seq<Byte>)
    requires v < TWO64
    ensures |EncVarint(v)| <= 10
    ensures DecVarint64(EncVarint(v) + t) == VarintOk(v, t)
  {
    Pow2Values();
    Pow2Mono(64, 70);
    EncVarintLength(v, 10);
    DecEncVarintIn(v, t, 10, TWO64);
  }

  lemma Varint32RoundTrip(v: nat, t: seq<Byte>)
    requires v < TWO32
    ensures |EncVarint(v)| <= 5
    ensures DecVarint32(EncVarint(v) + t) == VarintOk(v, t)
  {
    Pow2Values();
    Pow2Mono(32, 35);
    EncVarintLength(v, 5);
    DecEncVarintIn(v, t, 5, TWO32);
  }

  /** Nine digits or fewer never wrap. */
  lemma FewDigits(p: seq<Byte>)
    requires |p| <= 9
    ensures Base128(p) % TWO64 == Base128(p) && Base128(p) < Pow2(7 * |p|)
  {
    Base128Bound(p);
    Pow2Mono(7 * |p|, 64);
    Pow2Values();
    SmallMod(Base128(p), TWO64);
  }

  /** No byte string shorter than the encoding decodes to v. */
  lemma VarintShortest(v: nat, p: seq<Byte>)
    requires v < TWO64 && DecVarint64(p) == VarintOk(v, [])
    ensures |EncVarint(v)| <= |p|
  {
    assert p[..VarintSpan(p)] == p;
    VarintRoundTrip(v, []);
    if |p| < |EncVarint(v)| {
      FewDigits(p);
      Pow2Mono(7 * |p|, 7 * (|EncVarint(v)| - 1));
      EncVarintNeeds(v);
    }
  }

  /** The 32-bit fast path accepts exactly the varints of at most five bytes, and there it agrees
    * with the 64-bit decoder modulo 2^32 and on the bytes consumed. */
  lemma Varint32Agrees(s: seq<Byte>)
    ensures DecVarint32(s).VarintOk? <==> 0 < VarintSpan(s) <= 5
    ensures DecVarint32(s).VarintOk? ==>
              && DecVarint64(s).VarintOk?
              && DecVarint64(s).rest == DecVarint32(s).rest
              && DecVarint64(s).value % TWO32 == DecVarint32(s).value
  {
    if DecVarint32(s).VarintOk? {
      var n := VarintSpan(s);
      var x := Base128(s[..n]);
      Base128Bound(s[..n]);
      Pow2Mono(7 * n, 35);
      Pow2Mono(35, 64);
      Pow2Values();
      assert x % TWO64 == x;
    }
  }

  /** Which bytes are a 64-bit varint, and what is left when none is read: ten bytes at most are looked at. */
  lemma VarintAccepts(s: seq<Byte>)
    ensures var n, r := VarintSpan(s), DecVarint64(s);
            r == if 0 < n <= 10 then VarintOk(Base128(s[..n]) % 0x1_0000_0000_0000_0000, s[n..])
                 else VarintFail(if |s| <= 10 then [] else s[10..])
    ensures var n, r := VarintSpan(s), DecVarint32(s);
            r == if 0 < n <= 5 then VarintOk(Base128(s[..n]) % 0x1_0000_0000, s[n..])
                 else VarintFail(if |s| <= 5 then [] else s[5..])
  {
  }

  // ----- zigzag and signed words

  predicate FitsSigned(i: int, bits: nat)
    requires bits > 0
  {
    0 <= i + Pow2(bits - 1) && i < Pow2(bits - 1)
  }

  /** Reading the low `bits` bits as two's complement. */
  function ToSigned(u: nat, bits: nat): (i: int)
    requires bits > 0
    ensures FitsSigned(i, bits)
  {
    var w := u % Pow2(bits);
    if w < Pow2(bits - 1) then w else w - Pow2(bits)
  }

  function ToU64(i: int): (u: nat)
    ensures u < TWO64
  {
    i % TWO64
  }

  function ZigZag(i: int): nat { if i < 0 then -2 * i - 1 else 2 * i }

  function UnZigZag(u: nat): int { if u % 2 == 1 then -(u / 2) - 1 else u / 2 }

  lemma ZigZagInverse(i: int, u: nat)
    ensures UnZigZag(ZigZag(i)) == i && ZigZag(UnZigZag(u)) == u
  {
  }

  // ----- fixed-width words

  function EncFixed(v: nat, n: nat): (p: seq<Byte>)
    ensures |p| == n
  {
    if n == 0 then [] else [v % 256] + EncFixed(v / 256, n - 1)
  }

  function DecFixed(p: seq<Byte>): (v: nat)
    ensures v < Pow2(8 * |p|)
  {
    if p == [] then 0
    else
      Pow2Add(8, 8 * |p[1..]|);
      Pow2Values();
      assert 8 * |p| == 8 + 8 * |p[1..]|;
      p[0] + 256 * DecFixed(p[1..])
  }

  lemma {:induction false} FixedRoundTrip(v: nat, n: nat)
    requires v < Pow2(8 * n)
    ensures DecFixed(EncFixed(v, n)) == v
  {
    if n != 0 {
      Pow2Add(8, 8 * (n - 1));
      Pow2Values();
      assert 8 * n == 8 + 8 * (n - 1);
      FixedRoundTrip(v / 256, n - 1);
      assert EncFixed(v, n)[1..] == EncFixed(v / 256, n - 1);
    }
  }

  // ----- tags

  datatype TagResult = Tag(wt: WireType, tag: nat, rest: seq<Byte>) | TagEof(rest: seq<Byte>) | TagError

  /** A tag that cannot be read counts as the end of the message when no byte is left, and so does a
    * zero tag word. */
  function DecTag(s: seq<Byte>): (r: TagResult)
    ensures r.Tag? ==> |r.rest| < |s| && r.rest == s[|s| - |r.rest|..]
    ensures r.Tag? ==> r.tag < 0x2000_0000
    ensures r.TagEof? ==> |r.rest| <= |s|
  {
    match DecVarint32(s)
    case VarintFail(rest) => if rest == [] then TagEof([]) else TagError
    case VarintOk(v, rest) => if v == 0 then TagEof(rest) else Tag(WireTypeOf(v % 8), v / 8, rest)
  }

  function EncTag(wt: WireType, tag: nat): (p: seq<Byte>)
    ensures |p| > 0
  {
    EncVarint(8 * tag + WireCode(wt))
  }

  lemma TagRoundTrip(wt: WireType, tag: nat, t: seq<Byte>)
    requires !wt.WtInvalid? && 0 < tag < 0x2000_0000
    ensures DecTag(EncTag(wt, tag) + t) == Tag(wt, tag, t)
  {
    Varint32RoundTrip(8 * tag + WireCode(wt), t);
  }

  lemma DecTagExtend(s: seq<Byte>, t: seq<Byte>)
    requires DecTag(s).Tag?
    ensures var r := DecTag(s); DecTag(s + t) == Tag(r.wt, r.tag, r.rest + t)
  {
    DecVarintExtend(s, t, 5, TWO32);
  }

  // ----- length-delimited pieces and skipping

  datatype Piece = Piece(payload: seq<Byte>, rest: seq<Byte>) | NoPiece

  /** A 32-bit length and that many bytes. */
  function DecPiece(s: seq<Byte>): (r: Piece)
    ensures r.Piece? ==> |r.payload| + |r.rest| < |s| && r.rest == s[|s| - |r.rest|..]
  {
    match DecVarint32(s)
    case VarintFail(_) => NoPiece
    case VarintOk(n, rest) => if |rest| < n then NoPiece else Piece(rest[..n], rest[n..])
  }

  function EncPiece(payload: seq<Byte>): (p: seq<Byte>)
    ensures |p| > |payload|
  {
    EncVarint(|payload|) + payload
  }

  lemma PieceRoundTrip(payload: seq<Byte>, t: seq<Byte>)
    requires |payload| < TWO32
    ensures DecPiece(EncPiece(payload) + t) == Piece(payload, t)
  {
    Varint32RoundTrip(|payload|, payload + t);
    Assoc(EncVarint(|payload|), payload, t);
    SplitAt(payload, t);
  }

  lemma SplitExtend(s: seq<Byte>, t: seq<Byte>, n: nat)
    requires n <= |s|
    ensures (s + t)[..n] == s[..n] && (s + t)[n..] == s[n..] + t
  {
  }

  lemma DecPieceExtend(s: seq<Byte>, t: seq<Byte>)
    requires DecPiece(s).Piece?
    ensures var r := DecPiece(s); DecPiece(s + t) == Piece(r.payload, r.rest + t)
  {
    DecVarintExtend(s, t, 5, TWO32);
    var VarintOk(n, rest) := DecVarint32(s);
    SplitExtend(rest, t, n);
  }

  datatype Rest = Rest(bytes: seq<Byte>) | NoRest

  function Drop(s: seq<Byte>, n: nat): (r: Rest)
    ensures r.Rest? ==> |r.bytes| <= |s| && r.bytes == s[|s| - |r.bytes|..]
  {
    if |s| < n then NoRest else Rest(s[n..])
  }

  /** What is left after skipping one field's payload; a skipped varint may have any length. */
  function Skip(wt: WireType, s: seq<Byte>): (r: Rest)
    ensures r.Rest? ==> |r.bytes| <= |s| && r.bytes == s[|s| - |r.bytes|..]
  {
    match wt
    case WtVarint => (var n := VarintSpan(s); if n == 0 then NoRest else Rest(s[n..]))
    case Wt64Bit => Drop(s, 8)
    case Wt32Bit => Drop(s, 4)
    case WtString => (match DecPiece(s) case Piece(_, rest) => Rest(rest) case NoPiece => NoRest)
    case WtInvalid(_) => NoRest
  }

  lemma SkipExtend(wt: WireType, s: seq<Byte>, t: seq<Byte>)
    requires Skip(wt, s).Rest?
    ensures Skip(wt, s + t) == Rest(Skip(wt, s).bytes + t)
  {
    match wt
    case WtVarint =>
      SpanExtend(s, t);
      var n := VarintSpan(s);
      assert (s + t)[n..] == s[n..] + t;
    case Wt64Bit => assert (s + t)[8..] == s[8..] + t;
    case Wt32Bit => assert (s + t)[4..] == s[4..] + t;
    case WtString => DecPieceExtend(s, t);
    case WtInvalid(_) =>
  }
}
