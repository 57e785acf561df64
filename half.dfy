/**
 * `meshopt_quantizeHalf`: conversion of an IEEE 754 binary32 value, given as
 * its raw bit pattern, to the binary16 format of section 3.6 of IEEE 754-2008,
 * with integer shifts, masks and comparisons only. Overflow gives infinity,
 * every NaN becomes the quiet NaN 0x7e00, results below the smallest normal
 * half are flushed to zero, and the rest is rounded to nearest.
 *
 * The C code works on `unsigned int` and `int` values, all of them small
 * enough never to overflow; they are modelled as mathematical integers. A
 * right shift by `k` of a non-negative value, and the arithmetic right shift of
 * a negative `int`, are both floor division by 2^k, which is Dafny's `/` for a
 * positive divisor; `112 << 23` is written `112 * 0x80_0000`, and so on.
 */
module HalfFloat {
  import opened Ints
  import opened Bits

  // The fields of a binary32 pattern.

  /** Bit 31. */
  function SignBit(ui: uint32): (r: nat) { ui as nat / 0x8000_0000 }
  /** Bits 23 to 30. */
  function Exponent(ui: uint32): (r: nat) { (ui as nat / 0x80_0000) % 0x100 }
  /** Bits 0 to 22. */
  function Mantissa(ui: uint32): (r: nat) { ui as nat % 0x80_0000 }
  /** Bits 0 to 30. */
  function Magnitude(ui: uint32): (r: nat) { ui as nat % 0x8000_0000 }

  /**
   * The value of `h` in the header for the magnitude bits `em`: rebias the
   * exponent (`112 << 23`), add half a unit (`1 << 12`), shift right by 13,
   * then override for underflow, overflow and NaN.
   */
  function HalfBits(em: nat): (r: nat)
  {
    var h0 := (em - 112 * 0x80_0000 + 0x1000) / 0x2000;
    var h1 := if em < 113 * 0x80_0000 then 0 else h0;
    var h2 := if em >= 143 * 0x80_0000 then 0x7c00 else h1;
    if em > 255 * 0x80_0000 then 0x7e00 else h2
  }

  /** `meshopt_quantizeHalf`; the cast to `unsigned short` keeps the low 16 bits. */
  function QuantizeHalf(ui: uint32): (r: uint16)
  {
    var s := BitAnd(ui as nat / 0x1_0000, 0x8000);
    var em := BitAnd(ui as nat, 0x7fff_ffff);
    (BitOr(s, HalfBits(em)) % 0x1_0000) as uint16
  }

  /**
   * The magnitude of a binary16 value from the binary32 exponent field `e`
   * and mantissa field `m`, stated field by field: exponent 255 with a
   * non-zero mantissa is a NaN; biased exponents from 143 (2^16) up overflow
   * to infinity; below 113 (2^-14, the smallest normal half) the value is
   * flushed to zero; otherwise the half exponent is the binary32 exponent
   * minus 112, the top ten mantissa bits are kept, and the first discarded
   * bit is added (ties round away from zero), a carry that may reach the
   * exponent and, at the top, infinity.
   */
  function ReferenceMagnitude(e: nat, m: nat): (r: nat)
    requires e < 0x100
  {
    if e == 255 && m != 0 then 0x7e00
    else if e >= 143 then 0x7c00
    else if e < 113 then 0
    else (e - 112) * 0x400 + m / 0x2000 + (m / 0x1000) % 2
  }

  /** An independent statement of the conversion in terms of the binary32 fields. */
  function HalfReference(ui: uint32): (r: nat)
  {
    SignBit(ui) * 0x8000 + ReferenceMagnitude(Exponent(ui), Mantissa(ui))
  }

  // The masks of the header as arithmetic.

  lemma Pow2Values()
    ensures Pow2(15) == 0x8000 && Pow2(31) == 0x8000_0000
  {
    assert Pow2(1) == 0x2;
    assert Pow2(2) == 0x4;
    assert Pow2(3) == 0x8;
    assert Pow2(4) == 0x10;
    assert Pow2(5) == 0x20;
    assert Pow2(6) == 0x40;
    assert Pow2(7) == 0x80;
    assert Pow2(8) == 0x100;
    assert Pow2(9) == 0x200;
    assert Pow2(10) == 0x400;
    assert Pow2(11) == 0x800;
    assert Pow2(12) == 0x1000;
    assert Pow2(13) == 0x2000;
    assert Pow2(14) == 0x4000;
    assert Pow2(15) == 0x8000;
    assert Pow2(16) == 0x10000;
    assert Pow2(17) == 0x20000;
    assert Pow2(18) == 0x40000;
    assert Pow2(19) == 0x80000;
    assert Pow2(20) == 0x100000;
    assert Pow2(21) == 0x200000;
    assert Pow2(22) == 0x400000;
    assert Pow2(23) == 0x800000;
    assert Pow2(24) == 0x1000000;
    assert Pow2(25) == 0x2000000;
    assert Pow2(26) == 0x4000000;
    assert Pow2(27) == 0x8000000;
    assert Pow2(28) == 0x10000000;
    assert Pow2(29) == 0x20000000;
    assert Pow2(30) == 0x40000000;
    assert Pow2(31) == 0x80000000;
  }

  lemma SignMask(ui: uint32)
    ensures BitAnd(ui as nat / 0x1_0000, 0x8000) == SignBit(ui) * 0x8000
  {
    var x := ui as nat / 0x1_0000;
    var q, r := SignBit(ui), Magnitude(ui);
    assert ui as nat == q * 0x8000_0000 + r;
    ModUnique(ui as nat, 0x1_0000, q * 0x8000 + r / 0x1_0000, r % 0x1_0000);
    ModUnique(x, 0x8000, q, r / 0x1_0000);
    Pow2Values();
    BitAndSingle(x, 15);
  }

  lemma MagnitudeMask(ui: uint32)
    ensures BitAnd(ui as nat, 0x7fff_ffff) == Magnitude(ui)
  {
    Pow2Values();
    BitAndLowMask(ui as nat, 31);
  }

  lemma HalfBitsBelow(em: nat)
    ensures HalfBits(em) < 0x8000
  {
  }

  /** The result is the input's sign bit over the magnitude computed from `em` alone. */
  lemma QuantizeHalfSplit(ui: uint32)
    ensures QuantizeHalf(ui) as int == SignBit(ui) * 0x8000 + HalfBits(Magnitude(ui))
  {
    var s := BitAnd(ui as nat / 0x1_0000, 0x8000);
    var h := HalfBits(Magnitude(ui));
    SignMask(ui);
    MagnitudeMask(ui);
    HalfBitsBelow(Magnitude(ui));
    Pow2Values();
    if SignBit(ui) == 0 {
      assert s == 0;
    } else {
      assert s == 0x8000;
    }
    BitOrDisjoint(s, h, 15);
    var em := BitAnd(ui as nat, 0x7fff_ffff);
    assert em == Magnitude(ui);
    var v := BitOr(s, HalfBits(em));
    assert v == s + h;
    ModUnique(v, 0x1_0000, 0, v);
    assert QuantizeHalf(ui) as int == v;
  }

  /** Bit 31 of the input becomes bit 15 of the 16-bit result. */
  lemma QuantizeHalfSign(ui: uint32)
    ensures QuantizeHalf(ui) as int / 0x8000 == SignBit(ui)
  {
    QuantizeHalfSplit(ui);
    HalfBitsBelow(Magnitude(ui));
  }

  lemma QuantizeHalfMagnitude(ui: uint32)
    ensures QuantizeHalf(ui) as int % 0x8000 == HalfBits(Magnitude(ui))
  {
    QuantizeHalfSplit(ui);
    HalfBitsBelow(Magnitude(ui));
  }

  /** Magnitudes below 2^-14 (`em < 113 << 23`) are flushed to zero. */
  lemma QuantizeHalfFlushToZero(ui: uint32)
    requires Magnitude(ui) < 113 * 0x80_0000
    ensures QuantizeHalf(ui) as int % 0x8000 == 0
  {
    QuantizeHalfMagnitude(ui);
  }

  /** Magnitudes from 2^16 up to infinity (`143 << 23 <= em <= 255 << 23`) give infinity, 0x7c00. */
  lemma QuantizeHalfOverflow(ui: uint32)
    requires 143 * 0x80_0000 <= Magnitude(ui) <= 255 * 0x80_0000
    ensures QuantizeHalf(ui) as int % 0x8000 == 0x7c00
  {
    QuantizeHalfMagnitude(ui);
  }

  /** Every NaN (`em > 255 << 23`) gives the quiet NaN 0x7e00. */
  lemma QuantizeHalfNaN(ui: uint32)
    requires Magnitude(ui) > 255 * 0x80_0000
    ensures QuantizeHalf(ui) as int % 0x8000 == 0x7e00
  {
    QuantizeHalfMagnitude(ui);
  }

  /**
   * In the normal range the magnitude is `(em - (112 << 23) + (1 << 12)) >> 13`,
   * which lies between 0x0400 (2^-14) and 0x7c00: the rounding increment may
   * carry up to infinity.
   */
  lemma QuantizeHalfNormal(ui: uint32)
    requires 113 * 0x80_0000 <= Magnitude(ui) < 143 * 0x80_0000
    ensures var h := QuantizeHalf(ui) as int % 0x8000;
      h == (Magnitude(ui) - 112 * 0x80_0000 + 0x1000) / 0x2000 && 0x0400 <= h <= 0x7c00
  {
    QuantizeHalfMagnitude(ui);
  }

  /**
   * In the normal range the result is a nearest half: scaled back by 2^13 it
   * lies within half a unit (2^12) of the rebiased input magnitude.
   */
  lemma QuantizeHalfRoundsToNearest(ui: uint32)
    requires 113 * 0x80_0000 <= Magnitude(ui) < 143 * 0x80_0000
    ensures var d := Magnitude(ui) - 112 * 0x80_0000; var h := QuantizeHalf(ui) as int % 0x8000;
      d - 0x1000 < h * 0x2000 <= d + 0x1000
  {
    QuantizeHalfMagnitude(ui);
    HalfBitsNearest(Magnitude(ui));
  }

  lemma HalfBitsNearest(em: nat)
    requires 113 * 0x80_0000 <= em < 143 * 0x80_0000
    ensures var d := em - 112 * 0x80_0000; d - 0x1000 < HalfBits(em) * 0x2000 <= d + 0x1000
  {
  }

  lemma HalfBitsExact(em: nat)
    requires 113 * 0x80_0000 <= em < 143 * 0x80_0000 && em % 0x2000 == 0
    ensures HalfBits(em) * 0x2000 == em - 112 * 0x80_0000
  {
  }

  /** A normal-range input whose 13 discarded mantissa bits are zero converts exactly. */
  lemma QuantizeHalfExact(ui: uint32)
    requires 113 * 0x80_0000 <= Magnitude(ui) < 143 * 0x80_0000
    requires Mantissa(ui) % 0x2000 == 0
    ensures (QuantizeHalf(ui) as int % 0x8000) * 0x2000 == Magnitude(ui) - 112 * 0x80_0000
  {
    QuantizeHalfMagnitude(ui);
    ExactFields(ui);
    HalfBitsExact(Magnitude(ui));
  }

  /** Among non-NaN inputs the conversion preserves the order of magnitudes. */
  lemma QuantizeHalfMonotonic(a: uint32, b: uint32)
    requires Magnitude(a) <= Magnitude(b) <= 255 * 0x80_0000
    ensures QuantizeHalf(a) as int % 0x8000 <= QuantizeHalf(b) as int % 0x8000
  {
    QuantizeHalfMagnitude(a);
    QuantizeHalfMagnitude(b);
  }

  lemma MagnitudeFields(ui: uint32)
    ensures Magnitude(ui) == Exponent(ui) * 0x80_0000 + Mantissa(ui)
  {
  }

  lemma ExactFields(ui: uint32)
    requires Mantissa(ui) % 0x2000 == 0
    ensures Magnitude(ui) % 0x2000 == 0
  {
    var m := Mantissa(ui);
    MagnitudeFields(ui);
    assert m == (m / 0x2000) * 0x2000;
    ModUnique(Magnitude(ui), 0x2000, Exponent(ui) * 0x400 + m / 0x2000, 0);
  }

  lemma HalfBitsFields(e: nat, m: nat)
    requires e < 0x100 && m < 0x80_0000
    ensures HalfBits(e * 0x80_0000 + m) == ReferenceMagnitude(e, m)
  {
  }

  /** The header's integer arithmetic computes exactly the field-wise conversion. */
  lemma QuantizeHalfIsReference(ui: uint32)
    ensures QuantizeHalf(ui) as int == HalfReference(ui)
  {
    QuantizeHalfSplit(ui);
    MagnitudeFields(ui);
    HalfBitsFields(Exponent(ui), Mantissa(ui));
  }
}
