/** Conversions between the x87 80-bit extended format and IEEE 754
    binary32: ConvertX87RegisterToFloat32 (rosettaRuntime/X87State.h) and
    the binary32 widening inside x87_fst_fp80 (rosettaRuntime/X87.cpp). */
module Float32 {
  import opened Words
  import opened Wrappers
  import opened Values
  import opened Float80

  /** A binary32 result and the status flags raised while producing it. */
  datatype Single = Single(bits: bv32, flags: bv16)

  const SignBit32: bv32 := 0x8000_0000
  const Fraction32: bv32 := 0x007F_FFFF
  const Infinity32: bv32 := 0x7F80_0000
  const QuietNaN32: bv32 := 0x7FC0_0000

  /** The 39 mantissa bits below the round bit of a normal-range narrowing. */
  const Sticky39: bv64 := 0x7F_FFFF_FFFF

  function Sign32(x: Extended): bv32 {
    if x.exponent & 0x8000 != 0 then SignBit32 else 0
  }

  /** The int32_t exponent of the source held as its two's complement bit
      pattern; `exp >= 255` is a signed comparison. */
  predicate AtLeast255(e: bv32) {
    255 <= e < 0x8000_0000
  }

  /** The source's exponent static_cast<int32_t>(biased) - 16383 + 127. */
  function Rebiased32(biased: bv16): bv32 {
    biased as bv32 - 16256
  }

  // ---------------------------------------------------------------------
  // Extended to binary32 (ConvertX87RegisterToFloat32)

  /** The narrowing with the flush of tiny values completed: a value below
      the binary32 subnormal range becomes a signed zero. The source leaves
      the shift by 64 of the smallest such exponent undefined (None). */
  function ToFloat32(x: Extended): (r: Option<Single>)
    ensures r.None? <==> Biased(x) == 0x3F69
  {
    var m := x.mantissa;
    var biased := Biased(x);
    var sign := Sign32(x);
    if biased == 0 && m == 0 then Some(Single(sign, 0))
    else if biased == 0x7FFF then
      if m & !IntegerBit != 0 then Some(Single(sign | QuietNaN32, InvalidOperation))
      else Some(Single(sign | Infinity32, 0))
    else if biased < 0x3F69 then Some(Single(sign, Underflow | Precision))
    // the shift by 40 + 24 == 64 bits has no defined result
    else if biased == 0x3F69 then None
    else if biased <= 0x3F80 then Some(Denormalize32(sign, m & !IntegerBit, (0x3F81 - biased) as bv64))
    else Some(Narrow32(sign, biased, m))
  }

  /** Signed zeros and infinities keep their sign and narrow exactly; a
      NaN becomes the quiet NaN of its sign with Invalid Operation raised,
      whatever its payload. */
  lemma ToFloat32Specials(x: Extended)
    ensures Biased(x) == 0 && x.mantissa == 0 ==> ToFloat32(x) == Some(Single(Sign32(x), 0))
    ensures Biased(x) == 0x7FFF && x.mantissa & !IntegerBit != 0 ==>
      ToFloat32(x) == Some(Single(Sign32(x) | QuietNaN32, InvalidOperation))
    ensures Biased(x) == 0x7FFF && x.mantissa & !IntegerBit == 0 ==> ToFloat32(x) == Some(Single(Sign32(x) | Infinity32, 0))
  {
  }

  /** Below the subnormal window a non-zero value flushes to the signed
      zero with Underflow and Precision. */
  lemma ToFloat32Flushes(x: Extended)
    ensures Biased(x) < 0x3F69 && !(Biased(x) == 0 && x.mantissa == 0) ==>
      ToFloat32(x) == Some(Single(Sign32(x), Underflow | Precision))
  {
  }

  /** The normal path: the exponent rebiased from 16383 to 127 (as an
      int32_t), the top 23 fraction bits kept, bit 39 as the round bit and
      bits 0-38 as sticky bits. */
  function Narrow32(sign: bv32, biased: bv16, m: bv64): Single {
    RoundTo23(sign, Rebiased32(biased), Kept23(m), RoundBit23(m), Sticky23(m), 0)
  }

  /** The top 23 fraction bits, (frac >> 40) of the fraction without the
      integer bit. */
  function Kept23(m: bv64): bv32 {
    ((m & !IntegerBit) >> 40) as bv32
  }

  /** Bit 39 of the fraction, the first dropped bit. */
  predicate RoundBit23(m: bv64) {
    ((m & !IntegerBit) >> 39) & 1 != 0
  }

  /** Some of the fraction bits 0-38 is set. */
  predicate Sticky23(m: bv64) {
    (m & !IntegerBit) & Sticky39 != 0
  }

  /** The subnormal path for a rebiased exponent 1 - shift in -22..0: the
      fraction with its integer bit shifted right by 40 + shift, the bits
      below kept as round and sticky bits, Underflow and Precision raised. */
  function Denormalize32(sign: bv32, frac: bv64, shift: bv64): Single
    requires 1 <= shift <= 23
  {
    var significant := ((frac | IntegerBit) >> (40 + shift)) as bv32;
    var roundBit := (frac >> (39 + shift)) & 1 != 0;
    var sticky := frac & ((1 << (39 + shift)) - 1) != 0;
    RoundTo23(sign, 0, significant, roundBit, sticky, Underflow | Precision)
  }

  /** The rounding tail: Precision when a round or sticky bit is set, ties to
      even, the carry of an all-ones significand into the exponent and
      Overflow to infinity from exponent 255 on. */
  function RoundTo23(sign: bv32, exp: bv32, significant: bv32, roundBit: bool, sticky: bool, flags: bv16): Single {
    var flags1 := if roundBit || sticky then flags | Precision else flags;
    if roundBit && (sticky || significant & 1 != 0) then
      var s := significant + 1;
      if s == 0x80_0000 then
        if AtLeast255(exp + 1) then Single(sign | Infinity32, flags1 | Overflow)
        else Pack32(sign, exp + 1, 0, flags1)
      else Pack32(sign, exp, s, flags1)
    else Pack32(sign, exp, significant, flags1)
  }

  /** The final assembly: infinity with Overflow from exponent 255 on, and
      otherwise sign, exponent and the low 23 significand bits. */
  function Pack32(sign: bv32, exp: bv32, significant: bv32, flags: bv16): Single {
    if AtLeast255(exp) then Single(sign | Infinity32, flags | Overflow)
    else Single(sign | (exp << 23) | (significant & Fraction32), flags)
  }

  /** ConvertX87RegisterToFloat32 as written: below the subnormal range the
      signed zero it assigns is overwritten by the rounding tail, which packs
      the negative int32_t exponent into the exponent and sign fields. */
  function ToFloat32AsWritten(x: Extended): (r: Option<Single>)
    ensures Biased(x) >= 0x3F69 || (Biased(x) == 0 && x.mantissa == 0) ==> r == ToFloat32(x)
  {
    var biased := Biased(x);
    var frac := x.mantissa & !IntegerBit;
    if biased < 0x3F69 && !(biased == 0 && x.mantissa == 0) then
      Some(RoundTo23(Sign32(x), Rebiased32(biased), (frac >> 40) as bv32, (frac >> 39) & 1 != 0,
        frac & Sticky39 != 0, Underflow | Precision))
    else ToFloat32(x)
  }

  /** Ties-to-even rounding of the 40 mantissa bits below a 23-bit
      fraction: round up above half a unit in the last place, or at half
      when the kept part is odd. */
  predicate RoundsUp32(m: bv64) {
    var rest := m & 0xFF_FFFF_FFFF;
    rest > 0x80_0000_0000 || (rest == 0x80_0000_0000 && (m >> 40) & 1 == 1)
  }

  /** Reference result of rounding a normal-range value: the exponent above
      the kept 23 fraction bits, plus one when rounding goes up, the carry
      running into the exponent and from exponent 254 into infinity. */
  function Rounded32(e: bv32, m: bv64): bv32 {
    ((e << 23) | (((m >> 40) as bv32) & Fraction32)) + (if RoundsUp32(m) then 1 else 0)
  }

  /** The source's round-up test in the normal range. */
  predicate UpCondition32(m: bv64) {
    RoundBit23(m) && (Sticky23(m) || Kept23(m) & 1 != 0)
  }

  lemma RoundingBits32(m: bv64)
    ensures RoundsUp32(m) <==> UpCondition32(m)
    ensures Kept23(m) == ((m >> 40) as bv32) & Fraction32 && Kept23(m) <= Fraction32
  {
  }

  /** In the normal range the conversion keeps the sign and rounds to
      nearest, ties to even; Precision is raised exactly when a dropped bit
      is set and Overflow exactly when rounding carries into infinity. */
  lemma ToFloat32RoundsToNearestEven(x: Extended)
    requires 0x3F81 <= Biased(x) <= 0x407E
    ensures ToFloat32(x) == Some(Single(Sign32(x) | Rounded32(Rebiased32(Biased(x)), x.mantissa),
      (if x.mantissa & 0xFF_FFFF_FFFF != 0 then Precision else 0) |
      (if Rounded32(Rebiased32(Biased(x)), x.mantissa) == Infinity32 then Overflow else 0)))
  {
    NormalPath32(x);
    NarrowResult(Sign32(x), Biased(x), x.mantissa);
  }

  /** In the normal range the conversion is the normal path. */
  lemma NormalPath32(x: Extended)
    requires 0x3F81 <= Biased(x) <= 0x407E
    ensures ToFloat32(x) == Some(Narrow32(Sign32(x), Biased(x), x.mantissa))
  {
  }

  lemma NarrowResult(sign: bv32, biased: bv16, m: bv64)
    requires 0x3F81 <= biased <= 0x407E
    ensures Narrow32(sign, biased, m) == Single(sign | Rounded32(Rebiased32(biased), m),
      (if m & 0xFF_FFFF_FFFF != 0 then Precision else 0) |
      (if Rounded32(Rebiased32(biased), m) == Infinity32 then Overflow else 0))
  {
    NarrowBits(sign, biased, m);
    NarrowFlags(sign, biased, m);
  }

  lemma NarrowBits(sign: bv32, biased: bv16, m: bv64)
    requires 0x3F81 <= biased <= 0x407E
    ensures Narrow32(sign, biased, m).bits == sign | Rounded32(Rebiased32(biased), m)
  {
    NarrowRange(biased);
    TailRounds32(sign, Rebiased32(biased), m);
  }

  lemma NarrowRange(biased: bv16)
    requires 0x3F81 <= biased <= 0x407E
    ensures 1 <= Rebiased32(biased) < 255
  {
  }

  /** The rounding tail fed with a normal mantissa's pieces computes the
      reference rounding. */
  lemma TailRounds32(sign: bv32, e: bv32, m: bv64)
    requires e < 255
    ensures RoundTo23(sign, e, Kept23(m), RoundBit23(m), Sticky23(m), 0).bits == sign | Rounded32(e, m)
  {
    if UpCondition32(m) {
      TailUp32(sign, e, m);
    } else {
      TailDown32(sign, e, m);
    }
  }

  lemma TailUp32(sign: bv32, e: bv32, m: bv64)
    requires e < 255 && UpCondition32(m)
    ensures RoundTo23(sign, e, Kept23(m), RoundBit23(m), Sticky23(m), 0).bits == sign | Rounded32(e, m)
  {
    RoundingBits32(m);
    RoundTo23Bits(sign, e, Kept23(m), RoundBit23(m), Sticky23(m), 0);
  }

  lemma TailDown32(sign: bv32, e: bv32, m: bv64)
    requires e < 255 && !UpCondition32(m)
    ensures RoundTo23(sign, e, Kept23(m), RoundBit23(m), Sticky23(m), 0).bits == sign | Rounded32(e, m)
  {
    RoundingBits32(m);
    RoundTo23Bits(sign, e, Kept23(m), RoundBit23(m), Sticky23(m), 0);
  }

  /** The rounding tail adds one to exponent-and-fraction exactly when the
      round-up test holds. */
  lemma RoundTo23Bits(sign: bv32, e: bv32, sig: bv32, roundBit: bool, sticky: bool, flags: bv16)
    requires e < 255 && sig <= Fraction32
    ensures !(roundBit && (sticky || sig & 1 != 0)) ==> RoundTo23(sign, e, sig, roundBit, sticky, flags).bits == sign | ((e << 23) | sig)
    ensures roundBit && (sticky || sig & 1 != 0) ==> RoundTo23(sign, e, sig, roundBit, sticky, flags).bits == sign | (((e << 23) | sig) + 1)
  {
    if !(roundBit && (sticky || sig & 1 != 0)) {
      RoundTo23Keeps(sign, e, sig, roundBit, sticky, flags);
    } else if sig != Fraction32 {
      RoundTo23Increments(sign, e, sig, roundBit, sticky, flags);
    } else {
      RoundTo23Carries(sign, e, sig, roundBit, sticky, flags);
    }
  }

  lemma RoundTo23Keeps(sign: bv32, e: bv32, sig: bv32, roundBit: bool, sticky: bool, flags: bv16)
    requires e < 255 && sig <= Fraction32 && !(roundBit && (sticky || sig & 1 != 0))
    ensures RoundTo23(sign, e, sig, roundBit, sticky, flags).bits == sign | ((e << 23) | sig)
  {
    Pack32Bits(sign, e, sig);
  }

  lemma RoundTo23Increments(sign: bv32, e: bv32, sig: bv32, roundBit: bool, sticky: bool, flags: bv16)
    requires e < 255 && sig < Fraction32 && roundBit && (sticky || sig & 1 != 0)
    ensures RoundTo23(sign, e, sig, roundBit, sticky, flags).bits == sign | (((e << 23) | sig) + 1)
  {
    Pack32Bits(sign, e, sig + 1);
    IncrementNoCarry32(e, sig);
  }

  lemma RoundTo23Carries(sign: bv32, e: bv32, sig: bv32, roundBit: bool, sticky: bool, flags: bv16)
    requires e < 255 && sig == Fraction32 && roundBit
    ensures RoundTo23(sign, e, sig, roundBit, sticky, flags).bits == sign | (((e << 23) | sig) + 1)
  {
    Pack32Bits(sign, e + 1, 0);
    IncrementCarry32(e);
  }

  lemma Pack32Bits(sign: bv32, e: bv32, sig: bv32)
    requires e < 256 && sig <= Fraction32
    ensures e < 255 ==> Pack32(sign, e, sig, 0).bits == sign | ((e << 23) | sig)
  {
  }

  lemma IncrementNoCarry32(e: bv32, sig: bv32)
    requires e < 255 && sig < Fraction32
    ensures ((e << 23) | sig) + 1 == (e << 23) | (sig + 1)
  {
  }

  lemma IncrementCarry32(e: bv32)
    requires e < 255
    ensures ((e << 23) | Fraction32) + 1 == (e + 1) << 23
    ensures e + 1 == 255 ==> (e + 1) << 23 == Infinity32
  {
  }

  lemma NarrowFlags(sign: bv32, biased: bv16, m: bv64)
    requires 0x3F81 <= biased <= 0x407E
    ensures Narrow32(sign, biased, m).flags ==
      (if m & 0xFF_FFFF_FFFF != 0 then Precision else 0) |
      (if Rounded32(Rebiased32(biased), m) == Infinity32 then Overflow else 0)
  {
    RoundingBits32(m);
    CarryOut32(biased, m);
  }

  /** Rounding reaches the infinity pattern only from exponent 254 with an
      all-ones fraction. */
  lemma CarryOut32(biased: bv16, m: bv64)
    requires 0x3F81 <= biased <= 0x407E
    ensures Rounded32(Rebiased32(biased), m) == Infinity32 <==>
      biased == 0x407E && RoundsUp32(m) && ((m >> 40) as bv32) & Fraction32 == Fraction32
  {
  }

  /** Whatever the path, the corrected narrowing keeps the sign: the sign
      bit of the result is the sign of the operand. */
  lemma ToFloat32KeepsSign(x: Extended)
    ensures ToFloat32(x).Some? ==> ToFloat32(x).value.bits & SignBit32 == Sign32(x)
  {
    var b := Biased(x);
    if 0x3F69 < b <= 0x3F80 {
      SubnormalKeepsSign(x);
    } else if 0x3F81 <= b <= 0x407E {
      NormalKeepsSign(x);
    } else if 0x407E < b < 0x7FFF {
      OverflowKeepsSign(x);
    }
  }

  lemma SubnormalKeepsSign(x: Extended)
    requires 0x3F69 < Biased(x) <= 0x3F80
    ensures ToFloat32(x).Some? && ToFloat32(x).value.bits & SignBit32 == Sign32(x)
  {
    SubnormalPath32(x);
    DenormalizeKeepsSign(Sign32(x), x.mantissa & !IntegerBit, (0x3F81 - Biased(x)) as bv64);
  }

  lemma NormalKeepsSign(x: Extended)
    requires 0x3F81 <= Biased(x) <= 0x407E
    ensures ToFloat32(x).Some? && ToFloat32(x).value.bits & SignBit32 == Sign32(x)
  {
    ToFloat32RoundsToNearestEven(x);
    NarrowRange(Biased(x));
    RoundedBelowSign(Sign32(x), Rebiased32(Biased(x)), x.mantissa);
  }

  /** From exponent 255 on the result is the signed infinity. */
  lemma OverflowKeepsSign(x: Extended)
    requires 0x407E < Biased(x) < 0x7FFF
    ensures ToFloat32(x) == Some(Single(Sign32(x) | Infinity32,
      Overflow | (if x.mantissa & 0xFF_FFFF_FFFF != 0 then Precision else 0)))
  {
    assert ToFloat32(x) == Some(Narrow32(Sign32(x), Biased(x), x.mantissa));
    OverflowTail(Sign32(x), Rebiased32(Biased(x)), x.mantissa);
  }

  lemma OverflowTail(sign: bv32, e: bv32, m: bv64)
    requires AtLeast255(e) && AtLeast255(e + 1)
    ensures RoundTo23(sign, e, Kept23(m), RoundBit23(m), Sticky23(m), 0) ==
      Single(sign | Infinity32, Overflow | (if m & 0xFF_FFFF_FFFF != 0 then Precision else 0))
  {
    RoundingBits32(m);
    DroppedBits32(m);
  }

  lemma DroppedBits32(m: bv64)
    ensures (RoundBit23(m) || Sticky23(m)) <==> m & 0xFF_FFFF_FFFF != 0
  {
  }

  lemma SubnormalPath32(x: Extended)
    requires 0x3F69 < Biased(x) <= 0x3F80
    ensures ToFloat32(x) == Some(Denormalize32(Sign32(x), x.mantissa & !IntegerBit, (0x3F81 - Biased(x)) as bv64))
  {
  }

  lemma RoundedBelowSign(sign: bv32, e: bv32, m: bv64)
    requires sign & !SignBit32 == 0 && e < 255
    ensures (sign | Rounded32(e, m)) & SignBit32 == sign
  {
    RoundingBits32(m);
  }

  /** A subnormal result keeps the sign and is at most the smallest normal
      magnitude, 2^-126. */
  lemma DenormalizeKeepsSign(sign: bv32, frac: bv64, shift: bv64)
    requires sign & !SignBit32 == 0 && 1 <= shift <= 23
    ensures Denormalize32(sign, frac, shift).bits & SignBit32 == sign
    ensures Denormalize32(sign, frac, shift).bits & !SignBit32 <= 0x0080_0000
    ensures Has(Denormalize32(sign, frac, shift).flags, Underflow | Precision)
  {
    var significant := ((frac | IntegerBit) >> (40 + shift)) as bv32;
    var roundBit := (frac >> (39 + shift)) & 1 != 0;
    var sticky := frac & ((1 << (39 + shift)) - 1) != 0;
    SubnormalSignificand(frac, shift);
    assert Denormalize32(sign, frac, shift) == RoundTo23(sign, 0, significant, roundBit, sticky, Underflow | Precision);
    SmallRound(sign, significant, roundBit, sticky);
  }

  /** A significand below the hidden bit at exponent 0 rounds to at most the
      smallest normal, keeping the sign and raising Underflow and Precision. */
  lemma SmallRound(sign: bv32, significant: bv32, roundBit: bool, sticky: bool)
    requires sign & !SignBit32 == 0 && significant < 0x80_0000
    ensures RoundTo23(sign, 0, significant, roundBit, sticky, Underflow | Precision).bits & SignBit32 == sign
    ensures RoundTo23(sign, 0, significant, roundBit, sticky, Underflow | Precision).bits & !SignBit32 <= 0x0080_0000
    ensures Has(RoundTo23(sign, 0, significant, roundBit, sticky, Underflow | Precision).flags, Underflow | Precision)
  {
    SmallRoundBits(sign, significant, roundBit, sticky);
    SmallResult(sign, significant);
    SmallRoundFlags(sign, significant, roundBit, sticky);
  }

  lemma SmallRoundBits(sign: bv32, significant: bv32, roundBit: bool, sticky: bool)
    requires significant < 0x80_0000
    ensures var r := RoundTo23(sign, 0, significant, roundBit, sticky, Underflow | Precision).bits;
      r == sign | significant || r == sign | (significant + 1)
  {
    ZeroExponentField(significant);
    if roundBit && (sticky || significant & 1 != 0) {
      if significant != Fraction32 {
        RoundTo23Increments(sign, 0, significant, roundBit, sticky, Underflow | Precision);
      } else {
        RoundTo23Carries(sign, 0, significant, roundBit, sticky, Underflow | Precision);
      }
    } else {
      RoundTo23Keeps(sign, 0, significant, roundBit, sticky, Underflow | Precision);
    }
  }

  lemma ZeroExponentField(significant: bv32)
    ensures (0 << 23) | significant == significant
  {
  }

  lemma SmallRoundFlags(sign: bv32, significant: bv32, roundBit: bool, sticky: bool)
    requires significant < 0x80_0000
    ensures Has(RoundTo23(sign, 0, significant, roundBit, sticky, Underflow | Precision).flags, Underflow | Precision)
  {
  }

  lemma SubnormalSignificand(frac: bv64, shift: bv64)
    requires 1 <= shift <= 23
    ensures ((frac | IntegerBit) >> (40 + shift)) as bv32 < 0x80_0000
  {
  }

  lemma SmallResult(sign: bv32, significant: bv32)
    requires sign & !SignBit32 == 0 && significant < 0x80_0000
    ensures (sign | significant) & SignBit32 == sign
    ensures (sign | (significant + 1)) & SignBit32 == sign
    ensures (sign | significant) & !SignBit32 <= 0x0080_0000
    ensures (sign | (significant + 1)) & !SignBit32 <= 0x0080_0000
  {
  }

  /** Below the subnormal range the code as written packs the negative
      exponent: the tiny positive value 2^-151 (exponent 0x3F68) comes out
      as the negative number with bits 0xF4000000 instead of +0. */
  lemma AsWrittenFlipsSign()
    ensures ToFloat32AsWritten(Extended(0x3F68, IntegerBit)) == Some(Single(0xF400_0000, Underflow | Precision))
    ensures ToFloat32(Extended(0x3F68, IntegerBit)) == Some(Single(0, Underflow | Precision))
  {
  }
}
