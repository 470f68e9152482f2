/**
  Proof-of-work targets and their compact form: one byte of exponent and three bytes of significand.
  Encoding rounds a target down to a normalised compact value, and the program checks the encoder's hint.
*/
module TargetBits {
  import opened Wrappers
  import opened Arithmetic
  import opened Bits
  import opened Octets

  const MAX_BITS: nat := 0x1d00_FFFF
  const MAX_TARGET: nat := 0xFFFF_0000_0000_0000_0000_0000_0000_0000_0000_0000_0000_0000_0000_0000
  const EXPONENT_UNIT: nat := 0x100_0000

  function Shrunk(x: nat, unit: nat): nat
    requires unit > 0
  {
    x / unit
  }

  function Grown(x: nat, unit: nat): nat {
    ProductIsNat(x, unit);
    x * unit
  }

  /** The value of a compact number with the given exponent and significand. */
  function Expand(exponent: nat, significand: nat): nat {
    if exponent <= 2 then Shrunk(significand, Bytes(3 - exponent)) else Grown(significand, Bytes(exponent - 3))
  }

  function BitsToTarget(bits: nat): Option<nat> {
    if bits > MAX_BITS then None
    else Some(Expand(And(bits, 0xFF00_0000) / EXPONENT_UNIT, And(bits, 0x00FF_FFFF)))
  }

  /** The masks pick the exponent and the significand. */
  lemma FieldsOf(bits: nat)
    requires bits < 0x1_0000_0000
    ensures And(bits, 0xFF00_0000) / EXPONENT_UNIT == bits / EXPONENT_UNIT
    ensures And(bits, 0x00FF_FFFF) == bits % EXPONENT_UNIT
  {
    hide And, Pow2;
    Powers();
    Eight();
    assert 8 * 3 == 24 && 8 * 1 == 8;
    Masked(bits, 24, 8);
    LowBits(bits, 24);
  }

  // ------------------------------------------------------------------------
  // The encoder
  // ------------------------------------------------------------------------

  /** The number of bytes that `t` takes. */
  function ByteLength(t: nat): nat {
    if t == 0 then 0 else 1 + ByteLength(t / 256)
  }

  /** The significand of `t` for an exponent that suits it. */
  function Significand(t: nat, exponent: nat): nat {
    if exponent <= 2 then t * Bytes(3 - exponent) else t / Bytes(exponent - 3)
  }

  /** The exponent leaves the highest bit of the significand clear: it is the byte length of `2 * t`. */
  function Encode(t: nat): nat {
    if t == 0 then 0 else
    var exponent := ByteLength(2 * t);
    exponent * EXPONENT_UNIT + Significand(t, exponent)
  }

  lemma {:induction false} ByteLengthIs(t: nat)
    requires t > 0
    ensures ByteLength(t) > 0 && Bytes(ByteLength(t) - 1) <= t < Bytes(ByteLength(t))
  {
    Powers();
    if t < 256 {
      assert ByteLength(t) == 1 + ByteLength(t / 256) == 1;
    } else {
      hide Pow2;
      var k := ByteLength(t / 256);
      ByteLengthIs(t / 256);
      BytesAdd(1, k - 1);
      BytesAdd(1, k);
      Times256(t, Bytes(k - 1), Bytes(k));
    }
  }

  lemma Times256(t: nat, low: nat, high: nat)
    requires low <= t / 256 < high
    ensures 256 * low <= t < 256 * high
  {
  }

  /** The byte length is the only number with these bounds. */
  lemma ByteLengthUnique(t: nat, k: nat)
    requires k > 0 && Bytes(k - 1) <= t < Bytes(k)
    ensures ByteLength(t) == k
  {
    hide Bytes, ByteLength;
    BytesPositive(k - 1);
    ByteLengthIs(t);
    var e := ByteLength(t);
    if e < k {
      if e < k - 1 { BytesGrow(e, k - 1); }
    } else if k < e {
      if k < e - 1 { BytesGrow(k, e - 1); }
    }
  }

  /** The fields of an encoding. */
  ghost predicate Fields(t: nat, exponent: nat, significand: nat) {
    && exponent >= 1 && significand == Significand(t, exponent)
    && 0x8000 <= significand < 0x80_0000
  }

  lemma EncodeFields(t: nat)
    requires t > 0
    ensures Fields(t, ByteLength(2 * t), Significand(t, ByteLength(2 * t)))
  {
    hide Bytes, ByteLength;
    var e := ByteLength(2 * t);
    Powers();
    ByteLengthIs(2 * t);
    if e >= 3 {
      var u := Bytes(e - 3);
      BytesPositive(e - 3);
      BytesAdd(2, e - 3);
      BytesAdd(3, e - 3);
      QuotientBounds(t, u, 0x8000, 0x80_0000);
    }
  }

  lemma QuotientBounds(t: nat, u: nat, low: nat, high: nat)
    requires u > 0 && low * u <= t < high * u
    ensures low <= t / u < high
  {
    var q := t / u;
    assert t == q * u + t % u;
    if q < low { LessTimes(q + 1, low, u); }
    if q >= high { LessTimes(high, q, u); }
  }

  /** A significand in range belongs to the encoding, whatever exponent it was made with. */
  lemma FieldsUnique(t: nat, exponent: nat, significand: nat)
    requires t > 0 && Fields(t, exponent, significand)
    ensures exponent == ByteLength(2 * t)
  {
    hide Bytes, ByteLength;
    Powers();
    if exponent >= 3 {
      var u := Bytes(exponent - 3);
      BytesPositive(exponent - 3);
      BytesAdd(2, exponent - 3);
      BytesAdd(3, exponent - 3);
      ProductBounds(t, u, 0x8000, 0x80_0000);
    }
    ByteLengthUnique(2 * t, exponent);
  }

  lemma ProductBounds(t: nat, u: nat, low: nat, high: nat)
    requires u > 0 && low <= t / u < high
    ensures low * u <= t < high * u
  {
    var q := t / u;
    assert t == q * u + t % u;
    LessTimes(low, q, u);
    LessTimes(q + 1, high, u);
    LessTimes(q, q, u);
  }

  // ------------------------------------------------------------------------
  // Decoding an encoding
  // ------------------------------------------------------------------------

  /** A compact value as the encoder makes it. */
  ghost predicate Normal(bits: nat) {
    var e, c := bits / EXPONENT_UNIT, bits % EXPONENT_UNIT;
    bits == 0 || (e >= 1 && 0x8000 <= c < 0x80_0000 && (e <= 2 ==> c % Bytes(3 - e) == 0))
  }

  function Decoded(bits: nat): nat {
    Expand(bits / EXPONENT_UNIT, bits % EXPONENT_UNIT)
  }

  lemma Joins(e: nat, c: nat)
    requires c < EXPONENT_UNIT
    ensures (e * EXPONENT_UNIT + c) / EXPONENT_UNIT == e && (e * EXPONENT_UNIT + c) % EXPONENT_UNIT == c
  {
  }

  /** An encoding is normalised and decodes to a target that is no more than 2^-15 smaller. */
  lemma EncodeDecode(t: nat)
    requires t > 0
    ensures Normal(Encode(t)) && Decoded(Encode(t)) <= t
    ensures (t - Decoded(Encode(t))) * 0x8000 <= t
    ensures Decoded(Encode(t)) > 0
  {
    hide Bytes, ByteLength;
    var e := ByteLength(2 * t);
    var c := Significand(t, e);
    EncodeFields(t);
    Joins(e, c);
    if e <= 2 {
      var u := Bytes(3 - e);
      BytesPositive(3 - e);
      QuotientIs(t * u, u, t, 0);
    } else {
      BytesPositive(e - 3);
      RoundedDown(t, Bytes(e - 3));
    }
  }

  lemma RoundedDown(t: nat, u: nat)
    requires u > 0 && 0x8000 <= t / u
    ensures 0 < (t / u) * u <= t && (t - (t / u) * u) * 0x8000 <= t
  {
    var q := t / u;
    assert t == q * u + t % u;
    LessTimes(0x8000, q, u);
  }

  /** Encoding is the inverse of decoding on normalised values, and on no others. */
  lemma DecodeEncode(bits: nat)
    ensures Encode(Decoded(bits)) == bits <==> Normal(bits)
  {
    hide Bytes, ByteLength;
    var e, c, t := bits / EXPONENT_UNIT, bits % EXPONENT_UNIT, Decoded(bits);
    assert bits == e * EXPONENT_UNIT + c;
    if bits == 0 {
      DecodeZero();
    } else if Normal(bits) {
      if e <= 2 {
        var u := Bytes(3 - e);
        BytesPositive(3 - e);
        assert c == t * u;
      } else {
        var u := Bytes(e - 3);
        BytesPositive(e - 3);
        QuotientIs(c * u, u, c, 0);
        LessTimes(1, c, u);
      }
      FieldsUnique(t, e, c);
    } else if t > 0 {
      EncodeDecode(t);
    }
  }

  lemma DecodeZero()
    ensures Decoded(0) == 0
  {
    BytesPositive(3);
    QuotientIs(0, Bytes(3), 0, 0);
  }

  /** Encoding is monotone. */
  lemma EncodeMonotone(t: nat, u: nat)
    requires t <= u
    ensures Encode(t) <= Encode(u)
  {
    hide Bytes, ByteLength;
    if t > 0 {
      var e, f := ByteLength(2 * t), ByteLength(2 * u);
      EncodeFields(t);
      EncodeFields(u);
      ByteLengthMonotone(2 * t, 2 * u);
      if e == f {
        if e <= 2 {
          LessTimes(t, u, Bytes(3 - e));
        } else {
          BytesPositive(e - 3);
          QuotientMonotone(t, u, Bytes(e - 3));
        }
      } else {
        assert e * EXPONENT_UNIT + EXPONENT_UNIT <= f * EXPONENT_UNIT;
      }
    }
  }

  lemma {:induction false} ByteLengthMonotone(t: nat, u: nat)
    requires t <= u
    ensures ByteLength(t) <= ByteLength(u)
  {
    if t > 0 { ByteLengthMonotone(t / 256, u / 256); }
  }

  // ------------------------------------------------------------------------
  // The largest target
  // ------------------------------------------------------------------------

  lemma MaxUnit()
    ensures Bytes(26) * 0xFFFF == MAX_TARGET
  {
    hide Bytes, Pow2, Pow;
    Powers();
    BytesAdd(4, 4);
    assert Bytes(8) == 0x1_0000_0000_0000_0000;
    BytesAdd(8, 4);
    assert Bytes(12) == 0x1_0000_0000_0000_0000_0000_0000;
    BytesAdd(12, 12);
    assert Bytes(24) == 0x1_0000_0000_0000_0000_0000_0000_0000_0000_0000_0000_0000_0000;
    BytesAdd(24, 2);
    assert Bytes(26) == 0x1_0000_0000_0000_0000_0000_0000_0000_0000_0000_0000_0000_0000_0000;
  }

  lemma EncodeMax()
    ensures Encode(MAX_TARGET) == MAX_BITS
  {
    hide Bytes, ByteLength;
    MaxUnit();
    BytesPositive(26);
    Powers();
    BytesAdd(2, 26);
    BytesAdd(3, 26);
    ByteLengthUnique(2 * MAX_TARGET, 29);
    QuotientIs(MAX_TARGET, Bytes(26), 0xFFFF, 0);
  }

  /** A target is allowed if and only if its encoding is. */
  lemma EncodeInRange(t: nat)
    requires t <= MAX_TARGET
    ensures Encode(t) <= MAX_BITS
  {
    EncodeMonotone(t, MAX_TARGET);
    EncodeMax();
  }

  /** Every compact value that passes the program's check decodes to an allowed target if it is normalised. */
  lemma DecodeInRange(bits: nat)
    requires Normal(bits) && bits <= MAX_BITS
    ensures Decoded(bits) <= MAX_TARGET
  {
    hide Normal, Decoded, Encode;
    DecodeEncode(bits);
    EncodeMax();
    if Decoded(bits) > MAX_TARGET {
      EncodeMonotone(MAX_TARGET, Decoded(bits));
      EncodeDecode(MAX_TARGET + 1);
      MaxNext(Decoded(bits));
    }
  }

  /** A normalised value of at most MAX_BITS does not encode anything above MAX_TARGET. */
  lemma MaxNext(t: nat)
    requires t > MAX_TARGET && Encode(t) == MAX_BITS
    ensures Decoded(Encode(t)) != t
  {
    hide Bytes, ByteLength;
    Joins(29, 0xFFFF);
    MaxUnit();
  }

  // ------------------------------------------------------------------------
  // The program's encoder: a hint and its check
  // ------------------------------------------------------------------------

  /** Moving the significand down by a byte raises the exponent by one. */
  lemma NextExponent(t: nat, size: nat)
    requires size >= 1
    ensures Significand(t, size) / 256 == Significand(t, size + 1)
  {
    hide Pow2;
    Powers();
    if size <= 2 {
      BytesAdd(1, 2 - size);
      var u := Bytes(2 - size);
      assert t * Bytes(3 - size) == t * (256 * u) == (t * u) * 256;
      QuotientIs((t * u) * 256, 256, t * u, 0);
    } else {
      BytesAdd(size - 3, 1);
      QuotientTwice(t, Bytes(size - 3), 256);
    }
  }

  lemma HighBit(compact: nat)
    requires compact < EXPONENT_UNIT
    ensures And(compact, 0x0080_0000) == 0 <==> compact < 0x80_0000
  {
    hide And;
    TwentyThree();
    Masked(compact, 23, 1);
  }

  lemma TwentyThree()
    ensures Pow2(23) == 0x80_0000 && Pow2(1) == 2
  {
    Powers();
    assert Pow2(24) == 2 * Pow2(23);
  }

  lemma FirstSignificand(t: nat)
    requires t > 0
    ensures ByteLength(t) >= 1 && 0x1_0000 <= Significand(t, ByteLength(t)) < EXPONENT_UNIT
  {
    hide Bytes, ByteLength;
    var s := ByteLength(t);
    Powers();
    ByteLengthIs(t);
    if s >= 3 {
      BytesPositive(s - 3);
      BytesAdd(2, s - 3);
      BytesAdd(3, s - 3);
      QuotientBounds(t, Bytes(s - 3), 0x1_0000, EXPONENT_UNIT);
    }
  }

  lemma Mask64(compact: nat)
    requires compact < EXPONENT_UNIT
    ensures And(compact, 0xFFFF_FFFF_FFFF_FFFF) == compact
  {
    hide And, Pow2;
    SixtyFour();
    LowBits(compact, 64);
  }

  lemma SixtyFour()
    ensures Pow2(64) == 0x1_0000_0000_0000_0000
  {
    hide Pow2;
    Powers();
    PowAdd(2, 32, 32);
  }

  method TargetToBitsHint(target: nat) returns (bits: nat)
    ensures bits == Encode(if target < MAX_TARGET then target else MAX_TARGET)
  {
    hide And, Bytes, ByteLength;
    if target == 0 { return 0; }
    var target := if target < MAX_TARGET then target else MAX_TARGET;
    var size := ByteLength(target);
    FirstSignificand(target);
    Mask64(Significand(target, size));
    Powers();
    var compact;
    if size <= 3 {
      compact := And(target, 0xFFFF_FFFF_FFFF_FFFF) * Bytes(3 - size);
      SmallTarget(target, size);
    } else {
      compact := And(target / Bytes(size - 3), 0xFFFF_FFFF_FFFF_FFFF);
    }
    assert compact == Significand(target, size);
    HighBit(compact);
    if And(compact, 0x0080_0000) != 0 {
      NextExponent(target, size);
      compact := compact / 256;
      size := size + 1;
    }
    FieldsUnique(target, size, compact);
    // the fields do not overlap, so their sum joins them
    bits := compact + size * EXPONENT_UNIT;
  }

  lemma SmallTarget(target: nat, size: nat)
    requires size == ByteLength(target) <= 3 && target > 0
    ensures And(target, 0xFFFF_FFFF_FFFF_FFFF) * Bytes(3 - size) == Significand(target, size)
  {
    hide And, Bytes, ByteLength;
    Powers();
    ByteLengthIs(target);
    if size < 3 { BytesGrow(size, 3); }
    Mask64(target);
  }

  /** The check accepts what the hint computes, and returns it. */
  method TargetToBits(target: nat) returns (result: Option<nat>)
    ensures target <= MAX_TARGET ==> result == Some(Encode(target))
  {
    hide And, Bytes, ByteLength, Expand, Significand;
    var bits := TargetToBitsHint(target);
    ghost var t := if target < MAX_TARGET then target else MAX_TARGET;
    EncodeInRange(t);
    assert bits == Encode(t) <= MAX_BITS;
    var exponent := And(bits, 0xFF00_0000) / EXPONENT_UNIT;
    var expected := BitsToTarget(bits);
    if expected.None? { return None; }
    FieldsOf(bits);
    if exponent <= 2 {
      SmallExponentExact(t);
      result := if expected.value == target then Some(bits) else None;
    } else {
      var threshold := Bytes(exponent - 3);
      var mask := threshold * 0xFF_FFFF;
      MaskedTarget(t);
      result := if And(target, mask) == expected.value then Some(bits) else None;
    }
  }

  lemma SmallExponentExact(t: nat)
    requires Encode(t) / EXPONENT_UNIT <= 2
    ensures Decoded(Encode(t)) == t
  {
    hide Bytes, ByteLength;
    if t > 0 {
      var e := ByteLength(2 * t);
      EncodeFields(t);
      Joins(e, Significand(t, e));
      BytesPositive(3 - e);
      QuotientIs(t * Bytes(3 - e), Bytes(3 - e), t, 0);
    } else {
      DecodeZero();
    }
  }

  lemma MaskedTarget(t: nat)
    requires Encode(t) / EXPONENT_UNIT >= 3
    ensures And(t, Bytes(Encode(t) / EXPONENT_UNIT - 3) * 0xFF_FFFF) == Decoded(Encode(t))
  {
    hide And, ByteLength, Bytes;
    var e := ByteLength(2 * t);
    EncodeFields(t);
    Joins(e, Significand(t, e));
    Powers();
    ByteLengthIs(2 * t);
    BytesAdd(e - 3, 3);
    MaskFrom(t, e - 3);
  }

  lemma MaskFrom(t: nat, k: nat)
    requires t < Bytes(k) * EXPONENT_UNIT
    ensures And(t, Bytes(k) * 0xFF_FFFF) == (t / Bytes(k)) * Bytes(k)
  {
    hide And, Pow2;
    Powers();
    Masked(t, 8 * k, 24);
    var u := Bytes(k);
    assert t == (t / u) * u + t % u;
  }
}
