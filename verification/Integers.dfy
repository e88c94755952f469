/** Integer fields of one, two, four and eight bytes. */
module Integers {
  import opened Bits
  import opened Wire
  import opened Descriptors
  import opened DecodeSpec
  import opened EncodeSpec

  lemma ModShift(x: nat, k: nat, m: nat)
    requires x < m
    ensures (x + k * m) % m == x
  {
    DivModUnique(x + k * m, k, x, m);
  }

  lemma Widths(n: nat)
    requires IntSize(n)
    ensures 8 * n <= 64 && Pow2(64) == Pow2(64 - 8 * n) * Pow2(8 * n) && Pow2(8 * n) == 2 * Pow2(8 * n - 1)
  {
    Pow2Add(64 - 8 * n, 8 * n);
  }

  lemma NegativeWord(i: int, n: nat)
    requires IntSize(n) && FitsSigned(i, 8 * n) && i < 0
    ensures ToU64(i) % Pow2(8 * n) == i + Pow2(8 * n)
  {
    Widths(n);
    Pow2Values();
    Pow2Mono(8 * n, 64);
    var m, c := Pow2(8 * n), Pow2(64 - 8 * n);
    assert ToU64(i) == i + TWO64;
    assert (i + m) + (c - 1) * m == i + c * m;
    ModShift(i + m, c - 1, m);
  }

  /** The cast to a signed width is the identity exactly on the numbers of that width. */
  lemma SignedCast(i: int, n: nat)
    requires IntSize(n)
    ensures ToSigned(ToU64(i), 8 * n) == i <==> FitsSigned(i, 8 * n)
  {
    if FitsSigned(i, 8 * n) {
      Widths(n);
      if i >= 0 {
        Pow2Values();
        Pow2Mono(8 * n, 64);
        SmallMod(i, TWO64);
        SmallMod(i, Pow2(8 * n));
      } else {
        NegativeWord(i, n);
      }
    }
  }

  lemma SignedRoundTrip(f: Field, i: int, t: seq<Byte>, old_: Value)
    requires f.ltype.Varint? && FieldOk(f) && IntOk(f, i)
    ensures DecInt(f, EncVarint(ToU64(i)) + t, old_) == Done(IntV(i), t)
  {
    assert TypeOk(f);
    var n := f.dataSize;
    Pow2Values();
    VarintRoundTrip(ToU64(i), t);
    FitsWider(i, 8 * n, if n == 8 then 64 else 32);
    SignedCast(i, if n == 8 then 8 else 4);
    SignedCast(i, n);
  }

  lemma UnsignedRoundTrip(f: Field, i: int, t: seq<Byte>, old_: Value)
    requires f.ltype.UVarint? && FieldOk(f) && IntOk(f, i)
    ensures DecInt(f, EncVarint(i) + t, old_) == Done(IntV(i), t)
  {
    assert TypeOk(f);
    Pow2Values();
    Pow2Mono(8 * f.dataSize, 64);
    VarintRoundTrip(i, t);
    SmallMod(i, Pow2(8 * f.dataSize));
  }

  lemma ZigZagRoundTrip(f: Field, i: int, t: seq<Byte>, old_: Value)
    requires f.ltype.SVarint? && FieldOk(f) && IntOk(f, i)
    ensures DecInt(f, EncVarint(ZigZag(i)) + t, old_) == Done(IntV(i), t)
  {
    assert TypeOk(f);
    var n := f.dataSize;
    Pow2Values();
    FitsWider(i, 8 * n, 64);
    assert Pow2(64) == 2 * Pow2(63);
    VarintRoundTrip(ZigZag(i), t);
    SignedCast(i, n);
  }

  /** Every value of the field's width and signedness survives, whatever follows it. */
  lemma IntRoundTrip(f: Field, i: int, t: seq<Byte>, old_: Value)
    requires IsInt(f) && FieldOk(f) && IntOk(f, i)
    ensures EncValue(f, IntV(i)).Wrote?
    ensures DecInt(f, EncValue(f, IntV(i)).bytes + t, old_) == Done(IntV(i), t)
  {
    hide DecInt, IntOk;
    match f.ltype
    case Varint => SignedRoundTrip(f, i, t, old_);
    case UVarint => UnsignedRoundTrip(f, i, t, old_);
    case SVarint => ZigZagRoundTrip(f, i, t, old_);
  }

  lemma FitsWider(i: int, a: nat, b: nat)
    requires 0 < a <= b && FitsSigned(i, a)
    ensures FitsSigned(i, b)
  {
    Pow2Mono(a - 1, b - 1);
  }

  /** Which varints an integer field accepts, and the number it stores. Unsigned: those below
    * 2^(8 width). Zigzag: those whose unzigzagged value fits. Two's complement: all of them at four
    * and eight bytes, and below that those whose low 32 bits fit as a signed number. */
  lemma IntAccepts(f: Field, s: seq<Byte>, old_: Value)
    requires IsInt(f) && IntSize(f.dataSize) && DecVarint64(s).VarintOk?
    ensures var u := DecVarint64(s).value;
            && (f.ltype.UVarint? ==> (DecInt(f, s, old_).Done? <==> u < Pow2(8 * f.dataSize)))
            && (f.ltype.SVarint? ==> (DecInt(f, s, old_).Done? <==> FitsSigned(UnZigZag(u), 8 * f.dataSize)))
            && (f.ltype.Varint? && f.dataSize >= 4 ==> DecInt(f, s, old_).Done?)
            && (f.ltype.Varint? && f.dataSize < 4 ==>
                (DecInt(f, s, old_).Done? <==> FitsSigned(ToSigned(u, 32), 8 * f.dataSize)))
    ensures DecInt(f, s, old_).Done? ==> DecInt(f, s, old_).v == IntV(IntRead(f, DecVarint64(s).value))
  {
    var u := DecVarint64(s).value;
    SignedCast(IntRead(f, u), f.dataSize);
    if u < Pow2(8 * f.dataSize) {
      SmallMod(u, Pow2(8 * f.dataSize));
    }
  }

  lemma SignedCongruent(u: nat, bits: nat) returns (q: int)
    requires bits > 0
    ensures ToSigned(u, bits) + q * Pow2(bits) == u
  {
    q := u / Pow2(bits) + if u % Pow2(bits) < Pow2(bits - 1) then 0 else 1;
    assert u == u / Pow2(bits) * Pow2(bits) + u % Pow2(bits);
    hide Pow2;
  }

  lemma MulAssoc(a: int, b: int, c: int)
    ensures a * (b * c) == a * b * c
  {
  }

  lemma MulAdd(a: int, b: int, c: int)
    ensures (a + b) * c == a * c + b * c
  {
  }

  /** A congruence modulo c * m is one modulo m. */
  lemma Coarser(i: int, j: int, a: int, b: int, c: int, m: int)
    requires i + a * m == j
    ensures i + (a + b * c) * m == j + b * (c * m)
  {
    MulAssoc(b, c, m);
    MulAdd(a, b * c, m);
  }

  lemma CastCongruent(i: int, n: nat) returns (q: int)
    requires IntSize(n)
    ensures ToSigned(ToU64(i), 8 * n) + q * Pow2(8 * n) == i
  {
    hide Pow2, ToSigned;
    Widths(n);
    Pow2Values();
    var a := SignedCongruent(ToU64(i), 8 * n);
    var b, c := i / TWO64, Pow2(64 - 8 * n);
    assert i == b * TWO64 + ToU64(i);
    Coarser(ToSigned(ToU64(i), 8 * n), ToU64(i), a, b, c, Pow2(8 * n));
    q := a + b * c;
  }

  lemma TwosComplementStored(u: nat, n: nat) returns (q: int)
    requires IntSize(n)
    ensures ToSigned(ToU64(ToSigned(u, if n == 8 then 64 else 32)), 8 * n) + q * Pow2(8 * n) == u
  {
    hide Pow2, ToSigned;
    var k := if n == 8 then 64 else 32;
    var i := ToSigned(u, k);
    var a := CastCongruent(i, n);
    var b := SignedCongruent(u, k);
    var c := Pow2(k - 8 * n);
    Pow2Add(k - 8 * n, 8 * n);
    Coarser(ToSigned(ToU64(i), 8 * n), i, a, b, c, Pow2(8 * n));
    q := a + b * c;
  }

  /** Signed numbers are stored modulo their width, whether or not they are accepted: two's complement of
    * the varint, or of the number it stands for in zigzag order. */
  lemma SignedStored(f: Field, s: seq<Byte>, old_: Value) returns (q: int)
    requires IsInt(f) && !f.ltype.UVarint? && IntSize(f.dataSize) && DecVarint64(s).VarintOk?
    ensures var u, r := DecVarint64(s).value, DecInt(f, s, old_).v;
            && r.IntV? && FitsSigned(r.i, 8 * f.dataSize)
            && r.i + q * Pow2(8 * f.dataSize) ==
               if f.ltype.Varint? then u else if u % 2 == 0 then u / 2 else -(u / 2) - 1
  {
    hide Pow2, ToSigned, DecVarint64, FitsSigned;
    var u, n := DecVarint64(s).value, f.dataSize;
    if f.ltype.Varint? {
      q := TwosComplementStored(u, n);
    } else {
      q := CastCongruent(UnZigZag(u), n);
    }
  }
}
