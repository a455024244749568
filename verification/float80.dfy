/** Bit-level conversions between the x87 80-bit extended format and the IEEE
    754 binary64 and binary32 formats (rosettaRuntime/X87State.h and the
    encoder inside x87_fst_fp80 in rosettaRuntime/X87.cpp). An extended value
    is a 16-bit sign-and-exponent word over a 64-bit mantissa whose top bit is
    the explicit integer bit. Each conversion returns the result bits together
    with the status flags it ORs into the caller's status word. */
module Float80 {
  import opened Words
  import opened Wrappers
  import opened Values

  datatype Extended = Extended(exponent: bv16, mantissa: bv64)

  /** A binary64 result and the status flags raised while producing it. */
  datatype Double = Double(bits: bv64, flags: bv16)

  /** An extended result and the status flags raised while producing it. */
  datatype Encoded = Encoded(value: Extended, flags: bv16)

  const SignBit: bv64 := 0x8000_0000_0000_0000
  const FractionMask: bv64 := 0x000F_FFFF_FFFF_FFFF
  const InfinityBits: bv64 := 0x7FF0_0000_0000_0000
  const QuietNaNBits: bv64 := 0x7FF8_0000_0000_0000

  /** The explicit integer bit of an extended mantissa. */
  const IntegerBit: bv64 := 0x8000_0000_0000_0000

  /** The 15-bit biased exponent of an extended value (bias 16383). */
  function Biased(x: Extended): bv16 {
    x.exponent & 0x7FFF
  }

  /** The sign of an extended value moved to bit 63 of a binary64. */
  function Sign64(x: Extended): bv64 {
    ((x.exponent & 0x8000) as bv64) << 48
  }

  // ---------------------------------------------------------------------
  // Extended to binary64 (ConvertX87RegisterToFloat64)

  /** Rounding to nearest, ties to even, of the 11 mantissa bits below a
      52-bit fraction: round up when they exceed half a unit in the last
      place, or equal it and the kept part is odd. */
  predicate RoundsUp(m: bv64) {
    var rest := m & 0x7FF;
    rest > 0x400 || (rest == 0x400 && (m >> 11) & 1 == 1)
  }

  /** Reference result of rounding a normal-range value: the biased exponent
      above the kept 52 fraction bits, plus one when rounding goes up. The
      carry of a fraction of all ones runs into the exponent, and from the
      largest exponent into the infinity pattern. */
  function Rounded(e: bv16, m: bv64): bv64 {
    (((e as bv64) << 52) | ((m >> 11) & FractionMask)) + (if RoundsUp(m) then 1 else 0)
  }

  /** The source's conversion: signed zero for a zero mantissa; NaN or
      infinity for the all-ones exponent; flush to zero below the binary64
      subnormal range; denormalize by shifting; overflow to infinity; and
      otherwise round the mantissa to 52 fraction bits. */
  function ToFloat64(x: Extended): (r: Double)
    ensures x.mantissa == 0 ==> r == Double(Sign64(x), 0)
    ensures x.mantissa != 0 && Biased(x) == 0x7FFF && x.mantissa != IntegerBit ==>
      r == Double(Sign64(x) | QuietNaNBits, InvalidOperation)
    ensures x.mantissa == IntegerBit && Biased(x) == 0x7FFF ==> r == Double(Sign64(x) | InfinityBits, 0)
    ensures x.mantissa != 0 && 0x43FF <= Biased(x) < 0x7FFF ==> r == Double(Sign64(x) | InfinityBits, Overflow)
    ensures x.mantissa != 0 && Biased(x) < 0x3BCC ==> r == Double(Sign64(x), Underflow)
    ensures r.flags & !ExceptionFlags == 0
  {
    var m := x.mantissa;
    var biased := Biased(x);
    var sign := Sign64(x);
    if m == 0 then Double(sign, 0)
    else if biased == 0x7FFF then
      if m != IntegerBit then Double(sign | QuietNaNBits, InvalidOperation)
      else Double(sign | InfinityBits, 0)
    // the rebiased exponent biased - 16383 + 1023 is at most 0
    else if biased <= 0x3C00 then
      // below -52: nothing survives the shift
      if biased < 0x3BCC then Double(sign, Underflow)
      else RoundTo52(sign, 0, m >> ((0x3C01 - biased) as bv64), Underflow)
    else if biased - 0x3C00 >= 2047 then Double(sign | InfinityBits, Overflow)
    else RoundTo52(sign, biased - 0x3C00, m, 0)
  }

  /** The rounding tail of ConvertX87RegisterToFloat64: keep fraction bits
      11-62, round on bit 10 with bits 0-9 as sticky, carry into the
      exponent and overflow to infinity when the carry reaches 2047. */
  function RoundTo52(sign: bv64, exp: bv16, mantissa: bv64, flags: bv16): (r: Double)
    requires exp < 2047
    ensures r.flags & !ExceptionFlags == flags & !ExceptionFlags
  {
    var significant := (mantissa >> 11) & FractionMask;
    var roundBit := (mantissa >> 10) & 1;
    var sticky := mantissa & 0x3FF != 0;
    var flags1 := if roundBit != 0 || sticky then flags | Precision else flags;
    if roundBit != 0 && (sticky || significant & 1 != 0) then
      var s := significant + 1;
      if s == 0x10_0000_0000_0000 then
        if exp + 1 >= 2047 then Double(sign | InfinityBits, flags1 | Overflow)
        else Double(sign | ((exp + 1) as bv64 << 52), flags1)
      else Double(sign | (exp as bv64 << 52) | s, flags1)
    else Double(sign | (exp as bv64 << 52) | significant, flags1)
  }

  /** The rounding tail computes the reference ties-to-even result. */
  lemma RoundTo52IsNearestEven(sign: bv64, exp: bv16, mantissa: bv64, flags: bv16)
    requires exp < 2047 && sign & !SignBit == 0
    ensures RoundTo52(sign, exp, mantissa, flags).bits == sign | Rounded(exp, mantissa)
  {
    if !UpCondition(mantissa) {
      RoundKeeps(sign, exp, mantissa, flags);
    } else if (mantissa >> 11) & FractionMask != FractionMask {
      RoundIncrements(sign, exp, mantissa, flags);
    } else {
      RoundCarries(sign, exp, mantissa, flags);
    }
  }

  /** The source's round-up test, spelled as it is: the round bit set and
      either a sticky bit or an odd kept part. */
  predicate UpCondition(m: bv64) {
    (m >> 10) & 1 != 0 && (m & 0x3FF != 0 || (m >> 11) & FractionMask & 1 != 0)
  }

  lemma RoundKeeps(sign: bv64, exp: bv16, mantissa: bv64, flags: bv16)
    requires exp < 2047 && sign & !SignBit == 0 && !UpCondition(mantissa)
    ensures RoundTo52(sign, exp, mantissa, flags).bits == sign | Rounded(exp, mantissa)
  {
    RoundingBits(mantissa);
  }

  lemma RoundIncrements(sign: bv64, exp: bv16, mantissa: bv64, flags: bv16)
    requires exp < 2047 && sign & !SignBit == 0 && UpCondition(mantissa)
    requires (mantissa >> 11) & FractionMask != FractionMask
    ensures RoundTo52(sign, exp, mantissa, flags).bits == sign | Rounded(exp, mantissa)
  {
    RoundingBits(mantissa);
    IncrementNoCarry((exp as bv64) << 52, (mantissa >> 11) & FractionMask);
  }

  lemma RoundCarries(sign: bv64, exp: bv16, mantissa: bv64, flags: bv16)
    requires exp < 2047 && sign & !SignBit == 0 && UpCondition(mantissa)
    requires (mantissa >> 11) & FractionMask == FractionMask
    ensures RoundTo52(sign, exp, mantissa, flags).bits == sign | Rounded(exp, mantissa)
  {
    RoundingBits(mantissa);
  }

  lemma ExponentField(exp: bv16)
    requires exp < 2047
    ensures ((exp as bv64) << 52) & FractionMask == 0
    ensures ((exp as bv64) << 52) & SignBit == 0
  {
  }

  /** Adding one to a fraction below all ones does not reach the exponent. */
  lemma IncrementNoCarry(e: bv64, significant: bv64)
    requires e & FractionMask == 0 && significant < FractionMask
    ensures (e | significant) + 1 == e | (significant + 1)
  {
  }

  /** Adding one to an all-ones fraction carries into the exponent. */
  lemma IncrementCarry(exp: bv16)
    requires exp < 2047
    ensures (((exp as bv64) << 52) | FractionMask) + 1 == ((exp + 1) as bv64) << 52
  {
  }

  /** Precision is raised exactly when a dropped bit is set, Overflow exactly
      when rounding carries into the infinity pattern. */
  lemma RoundTo52Flags(sign: bv64, exp: bv16, mantissa: bv64, flags: bv16)
    requires exp < 2047
    ensures RoundTo52(sign, exp, mantissa, flags).flags ==
      flags | (if mantissa & 0x7FF != 0 then Precision else 0) | (if Rounded(exp, mantissa) == InfinityBits then Overflow else 0)
  {
    var significant := (mantissa >> 11) & FractionMask;
    var inexact := (mantissa >> 10) & 1 != 0 || mantissa & 0x3FF != 0;
    assert inexact <==> mantissa & 0x7FF != 0 by { DroppedBits(mantissa); }
    assert RoundsUp(mantissa) <==> (mantissa >> 10) & 1 != 0 && (mantissa & 0x3FF != 0 || significant & 1 != 0) by {
      RoundingBits(mantissa);
    }
    CarryOut(exp, mantissa);
  }

  lemma DroppedBits(m: bv64)
    ensures ((m >> 10) & 1 != 0 || m & 0x3FF != 0) <==> m & 0x7FF != 0
  {
  }

  lemma RoundingBits(m: bv64)
    ensures RoundsUp(m) <==> UpCondition(m)
  {
  }

  /** Rounding reaches the infinity pattern only from the largest exponent
      with an all-ones fraction. */
  lemma CarryOut(exp: bv16, m: bv64)
    requires exp < 2047
    ensures Rounded(exp, m) == InfinityBits <==> exp == 2046 && RoundsUp(m) && (m >> 11) & FractionMask == FractionMask
  {
  }

  /** In the normal range the conversion keeps the sign and rounds to
      nearest, ties to even; it raises Precision exactly when a dropped bit
      is set and Overflow exactly when rounding carries into infinity. */
  lemma ToFloat64RoundsToNearestEven(x: Extended)
    requires x.mantissa != 0 && 0x3C01 <= Biased(x) <= 0x43FE
    ensures ToFloat64(x).bits == Sign64(x) | Rounded(Biased(x) - 0x3C00, x.mantissa)
    ensures ToFloat64(x).flags ==
      (if x.mantissa & 0x7FF != 0 then Precision else 0) | (if Rounded(Biased(x) - 0x3C00, x.mantissa) == InfinityBits then Overflow else 0)
  {
    NormalRangeTail(x);
    TailRoundsToNearestEven(x, ToFloat64(x));
  }

  lemma TailRoundsToNearestEven(x: Extended, r: Double)
    requires x.mantissa != 0 && 0x3C01 <= Biased(x) <= 0x43FE
    requires r == RoundTo52(Sign64(x), Biased(x) - 0x3C00, x.mantissa, 0)
    ensures r.bits == Sign64(x) | Rounded(Biased(x) - 0x3C00, x.mantissa)
    ensures r.flags ==
      (if x.mantissa & 0x7FF != 0 then Precision else 0) | (if Rounded(Biased(x) - 0x3C00, x.mantissa) == InfinityBits then Overflow else 0)
  {
    TailBits(x, r);
    TailFlags(x, r);
  }

  lemma TailBits(x: Extended, r: Double)
    requires x.mantissa != 0 && 0x3C01 <= Biased(x) <= 0x43FE
    requires r == RoundTo52(Sign64(x), Biased(x) - 0x3C00, x.mantissa, 0)
    ensures r.bits == Sign64(x) | Rounded(Biased(x) - 0x3C00, x.mantissa)
  {
    SignOnly(x);
    RoundTo52IsNearestEven(Sign64(x), Biased(x) - 0x3C00, x.mantissa, 0);
  }

  lemma TailFlags(x: Extended, r: Double)
    requires x.mantissa != 0 && 0x3C01 <= Biased(x) <= 0x43FE
    requires r == RoundTo52(Sign64(x), Biased(x) - 0x3C00, x.mantissa, 0)
    ensures r.flags ==
      (if x.mantissa & 0x7FF != 0 then Precision else 0) | (if Rounded(Biased(x) - 0x3C00, x.mantissa) == InfinityBits then Overflow else 0)
  {
    RoundTo52Flags(Sign64(x), Biased(x) - 0x3C00, x.mantissa, 0);
  }

  lemma SignOnly(x: Extended)
    ensures Sign64(x) & !SignBit == 0
  {
  }

  /** In the normal range the conversion is the rounding tail. */
  lemma NormalRangeTail(x: Extended)
    requires x.mantissa != 0 && 0x3C01 <= Biased(x) <= 0x43FE
    ensures Biased(x) - 0x3C00 < 2047
    ensures ToFloat64(x) == RoundTo52(Sign64(x), Biased(x) - 0x3C00, x.mantissa, 0)
  {
  }

  // ---------------------------------------------------------------------
  // Binary64 to extended (ConvertFloat64ToX87Register)

  /** The binary64 sign moved to bit 15 of the extended exponent word. */
  function Sign16(bits: bv64): bv16 {
    ((bits >> 48) as bv16) & 0x8000
  }

  /** The source's widening: zero keeps its sign; infinity gets the bare
      integer bit; a NaN is made quiet and keeps its payload; a normal
      value is rebiased from 1023 to 16383; a subnormal value is normalized
      first and raises the denormal-operand flag. */
  function FromFloat64(bits: bv64): (r: Encoded)
    ensures r.value.exponent & 0x8000 == Sign16(bits)
  {
    var sign := Sign16(bits);
    var exp := (bits >> 52) & 0x7FF;
    var mantissa := bits & FractionMask;
    if exp == 0 && mantissa == 0 then Encoded(Extended(sign, 0), 0)
    else if exp == 0x7FF then
      if mantissa == 0 then Encoded(Extended(sign | 0x7FFF, IntegerBit), 0)
      else Encoded(Extended(sign | 0x7FFF, 0xC000_0000_0000_0000 | (mantissa << 11)), InvalidOperation)
    else if exp == 0 then Encoded(WidenSubnormal(sign, mantissa), DenormalizedOperand)
    else
      Encoded(Extended(sign | Rebiased(exp), (mantissa << 11) | IntegerBit), 0)
  }

  /** A subnormal fraction shifted left until its leading one reaches bit
      52 (the source's shift, clz(mantissa) - 11), with the binary64
      exponent lowered by the shift count. */
  function WidenSubnormal(sign: bv16, f: bv64): (x: Extended)
    requires 0 < f < 0x10_0000_0000_0000
    ensures x.exponent & 0x8000 == sign & 0x8000
  {
    NormalizeCountBound(f);
    var n := Normalize52(f);
    Extended(sign | Rebiased(1 - n.1 as bv64), (n.0 << 11) | IntegerBit)
  }

  /** The subnormal branch as the source writes it: the fraction is shifted
      one place further than the normalizing shift (`mantissa <<= shift + 1`),
      so the leading one leaves the word and the integer bit ORed in
      afterwards lands on the first fraction bit instead. */
  function WidenSubnormalAsWritten(sign: bv16, f: bv64): Extended
    requires 0 < f < 0x10_0000_0000_0000
  {
    NormalizeCountBound(f);
    var n := Normalize52(f);
    Extended(sign | Rebiased(1 - n.1 as bv64), ((n.0 << 1) << 11) | IntegerBit)
  }

  /** ConvertFloat64ToX87Register as written: differs from FromFloat64 only
      on subnormal inputs. */
  function FromFloat64AsWritten(bits: bv64): (r: Encoded)
    ensures bits & InfinityBits != 0 || bits & FractionMask == 0 ==> r == FromFloat64(bits)
  {
    var mantissa := bits & FractionMask;
    if bits & InfinityBits == 0 && mantissa != 0 then
      Encoded(WidenSubnormalAsWritten(Sign16(bits), mantissa), DenormalizedOperand)
    else FromFloat64(bits)
  }

  /** The extra shift loses the bit just below the leading one: the written
      mantissa is the exact one shifted left once with the integer bit
      forced back on. The exponent is unaffected. */
  lemma AsWrittenDropsFirstFractionBit(sign: bv16, f: bv64)
    requires 0 < f < 0x10_0000_0000_0000
    ensures WidenSubnormalAsWritten(sign, f).exponent == WidenSubnormal(sign, f).exponent
    ensures WidenSubnormalAsWritten(sign, f).mantissa == (WidenSubnormal(sign, f).mantissa << 1) | IntegerBit
  {
    NormalizeCountBound(f);
    ShiftTwice(Normalize52(f).0);
  }

  lemma ShiftTwice(a: bv64)
    ensures ((a << 1) << 11) | IntegerBit == (((a << 11) | IntegerBit) << 1) | IntegerBit
  {
  }

  /** The binary64 value 1.5 * 2^-1023 (bits 0x000C000000000000) widens to
      1.0 * 2^-1023 as written, and narrowing gives back 0x0008000000000000;
      the corrected widening keeps 1.5 and narrows back to the input. */
  lemma AsWrittenLosesHalf()
    ensures FromFloat64AsWritten(0x000C_0000_0000_0000).value == Extended(0x3C00, IntegerBit)
    ensures FromFloat64(0x000C_0000_0000_0000).value == Extended(0x3C00, 0xC000_0000_0000_0000)
    ensures ToFloat64(FromFloat64AsWritten(0x000C_0000_0000_0000).value) == Double(0x0008_0000_0000_0000, Underflow)
    ensures ToFloat64(FromFloat64(0x000C_0000_0000_0000).value) == Double(0x000C_0000_0000_0000, Underflow)
  {
    assert Normalize52(0x000C_0000_0000_0000) == (0x0018_0000_0000_0000, 1);
  }

  /** The source's (uint16_t)((exp - 1023) + 16383) on a 64-bit exponent. */
  function Rebiased(e: bv64): bv16 {
    (((e - 1023) + 16383) & 0xFFFF) as bv16
  }

  /** Shift a non-zero fraction left one bit at a time until its leading one
      reaches bit 52. */
  function Normalize52(f: bv64): (r: (bv64, nat))
    requires 0 < f < 0x20_0000_0000_0000
    ensures 0x10_0000_0000_0000 <= r.0 < 0x20_0000_0000_0000
    decreases 0x20_0000_0000_0000 - f
  {
    if f >= 0x10_0000_0000_0000 then (f, 0)
    else
      var r := Normalize52(f << 1);
      (r.0, r.1 + 1)
  }

  /** The normalized fraction is f * 2^k: k is the number of shifts that
      brings the leading one to bit 52, which the source computes as
      clz(f) - 11. */
  lemma {:induction false} NormalizeScales(f: bv64)
    requires 0 < f < 0x20_0000_0000_0000
    ensures Normalize52(f).0 as int == f as int * Pow2Nat(Normalize52(f).1)
    decreases 0x20_0000_0000_0000 - f
  {
    if f < 0x10_0000_0000_0000 {
      var g := f << 1;
      Doubling(f);
      NormalizeScales(g);
      var r := Normalize52(g);
      assert Normalize52(f) == (r.0, r.1 + 1);
      Reassociate(f as int, r.1);
    }
  }

  /** A fraction below 2^52 needs at least one shift. */
  lemma NormalizeCountPositive(f: bv64)
    requires 0 < f < 0x10_0000_0000_0000
    ensures Normalize52(f).1 >= 1
  {
  }

  /** At most 52 shifts are needed. */
  lemma NormalizeCountBound(f: bv64)
    requires 0 < f < 0x20_0000_0000_0000
    ensures Normalize52(f).1 <= 52
  {
    var r := Normalize52(f);
    NormalizeScales(f);
    Below53(r.0);
    CountFromScale(r.0 as int, f as int, r.1);
  }

  /** A 64-bit word below 2^53 is, as an integer, below 2^53; stated
      through the 53-bit truncation, which the solver handles cheaply. */
  lemma Below53(x: bv64)
    requires x < 0x20_0000_0000_0000
    ensures x as int < 0x20_0000_0000_0000
  {
    Truncate53(x);
    Width53(x as bv53);
  }

  lemma Truncate53(x: bv64)
    requires x < 0x20_0000_0000_0000
    ensures x as int == (x as bv53) as int
  {
  }

  lemma Width53(x: bv53)
    ensures x as int < 0x20_0000_0000_0000
  {
  }

  lemma CountFromScale(n: int, f: int, k: nat)
    requires 1 <= f && n == f * Pow2Nat(k) && n < 0x20_0000_0000_0000
    ensures k <= 52
  {
    if k > 52 {
      Pow2NatMonotone(53, k);
      Pow2Nat53();
      AtLeastFactor(f, Pow2Nat(k));
    }
  }

  lemma AtLeastFactor(a: int, b: int)
    requires a >= 1 && b > 0
    ensures a * b >= b
  {
  }

  lemma Doubling(f: bv64)
    requires f < 0x10_0000_0000_0000
    ensures (f << 1) as int == 2 * f as int
  {
  }

  lemma Reassociate(n: int, k: nat)
    ensures 2 * n * Pow2Nat(k) == n * Pow2Nat(k + 1)
  {
  }

  /** Zeros and infinities widen to their extended counterparts without
      flags; a NaN raises Invalid Operation and a subnormal the denormal
      operand flag. */
  lemma FromFloat64Specials(bits: bv64)
    ensures bits & !SignBit == 0 ==> FromFloat64(bits) == Encoded(Extended(Sign16(bits), 0), 0)
    ensures bits & !SignBit == InfinityBits ==> FromFloat64(bits) == Encoded(Extended(Sign16(bits) | 0x7FFF, IntegerBit), 0)
    ensures FromFloat64(bits).flags == InvalidOperation <==> bits & InfinityBits == InfinityBits && bits & FractionMask != 0
    ensures FromFloat64(bits).flags == DenormalizedOperand <==> bits & InfinityBits == 0 && bits & FractionMask != 0
  {
  }

  /** A subnormal double widens exactly: the extended mantissa is normalized
      (integer bit set) and, read against the extended exponent, denotes the
      same number f * 2^-1074, that is mantissa * 2^(biased - 16383 - 63). */
  lemma FromFloat64SubnormalExact(bits: bv64)
    requires bits & InfinityBits == 0 && bits & FractionMask != 0
    ensures FromFloat64(bits).flags == DenormalizedOperand
    ensures FromFloat64(bits).value.mantissa & IntegerBit != 0
    ensures 0x3BCD <= Biased(FromFloat64(bits).value) <= 0x3C00
    ensures FromFloat64(bits).value.mantissa as int ==
      (bits & FractionMask) as int * Pow2Nat(15372 - Biased(FromFloat64(bits).value) as int)
  {
    SubnormalBranch(bits);
    WidenSubnormalExact(Sign16(bits), bits & FractionMask);
  }

  lemma SubnormalBranch(bits: bv64)
    requires bits & InfinityBits == 0 && bits & FractionMask != 0
    ensures FromFloat64(bits) == Encoded(WidenSubnormal(Sign16(bits), bits & FractionMask), DenormalizedOperand)
  {
  }

  lemma WidenSubnormalExact(sign: bv16, f: bv64)
    requires sign & 0x7FFF == 0 && 0 < f < 0x10_0000_0000_0000
    ensures WidenSubnormal(sign, f).mantissa & IntegerBit != 0
    ensures 0x3BCD <= Biased(WidenSubnormal(sign, f)) <= 0x3C00
    ensures WidenSubnormal(sign, f).mantissa as int == f as int * Pow2Nat(15372 - Biased(WidenSubnormal(sign, f)) as int)
  {
    var a, k := NormalizeFacts(f);
    SubnormalEncoded(f, sign, a, k, WidenSubnormal(sign, f));
  }

  lemma NormalizeFacts(f: bv64) returns (a: bv64, k: nat)
    requires 0 < f < 0x10_0000_0000_0000
    ensures Normalize52(f) == (a, k)
    ensures 1 <= k <= 52 && 0x10_0000_0000_0000 <= a < 0x20_0000_0000_0000
    ensures a as int == f as int * Pow2Nat(k)
  {
    NormalizeCountBound(f);
    NormalizeCountPositive(f);
    NormalizeScales(f);
    a, k := Normalize52(f).0, Normalize52(f).1;
  }

  lemma SubnormalEncoded(f: bv64, sign: bv16, a: bv64, k: nat, x: Extended)
    requires sign & 0x7FFF == 0 && 1 <= k <= 52
    requires 0x10_0000_0000_0000 <= a < 0x20_0000_0000_0000
    requires a as int == f as int * Pow2Nat(k)
    requires x.exponent == sign | Rebiased(1 - k as bv64)
    requires x.mantissa == (a << 11) | IntegerBit
    ensures x.mantissa & IntegerBit != 0
    ensures 0x3BCD <= Biased(x) <= 0x3C00
    ensures x.mantissa as int == f as int * Pow2Nat(15372 - Biased(x) as int)
  {
    SubnormalWords(f, sign, a, k, x.exponent, x.mantissa);
  }

  lemma SubnormalWords(f: bv64, sign: bv16, a: bv64, k: nat, w: bv16, m: bv64)
    requires sign & 0x7FFF == 0 && 1 <= k <= 52
    requires 0x10_0000_0000_0000 <= a < 0x20_0000_0000_0000
    requires a as int == f as int * Pow2Nat(k)
    requires w == sign | Rebiased(1 - k as bv64)
    requires m == (a << 11) | IntegerBit
    ensures m & IntegerBit != 0
    ensures 0x3BCD <= w & 0x7FFF <= 0x3C00
    ensures m as int == f as int * Pow2Nat(15372 - (w & 0x7FFF) as int)
  {
    SubnormalExponent(sign, k, w);
    SubnormalMantissa(f, a, k, m);
    assert 15372 - (w & 0x7FFF) as int == 11 + k;
  }

  /** The exponent of a subnormal double shifted k places: 1 - k in the
      binary64 bias, 15361 - k in the extended one. */
  lemma SubnormalExponent(sign: bv16, k: nat, w: bv16)
    requires sign & 0x7FFF == 0 && 1 <= k <= 52
    requires w == sign | Rebiased(1 - k as bv64)
    ensures w & 0x7FFF == 15361 - k as bv16
    ensures 0x3BCD <= w & 0x7FFF <= 0x3C00
  {
    var kb := k as bv64;
    assert 1 <= kb <= 52 && kb as bv16 == k as bv16;
    RebiasSubnormal(kb);
  }

  lemma RebiasSubnormal(kb: bv64)
    requires 1 <= kb <= 52
    ensures Rebiased(1 - kb) == 15361 - kb as bv16
  {
  }

  lemma SubnormalMantissa(f: bv64, a: bv64, k: nat, m: bv64)
    requires 0x10_0000_0000_0000 <= a < 0x20_0000_0000_0000
    requires a as int == f as int * Pow2Nat(k)
    requires m == (a << 11) | IntegerBit
    ensures m & IntegerBit != 0
    ensures m as int == f as int * Pow2Nat(11 + k)
  {
    ShiftEleven(a);
    ShiftValue(a);
    ElevenMore(k);
    Rescale(m as int, a as int, f as int, Pow2Nat(k), Pow2Nat(11 + k));
  }

  lemma ElevenMore(k: nat)
    ensures Pow2Nat(11 + k) == 2048 * Pow2Nat(k)
  {
    Pow2NatAdd(11, k);
    assert Pow2Nat(11) == 2048;
  }

  lemma ShiftEleven(a: bv64)
    requires 0x10_0000_0000_0000 <= a < 0x20_0000_0000_0000
    ensures (a << 11) | IntegerBit == a << 11
    ensures (a << 11) & IntegerBit != 0
  {
  }

  lemma ShiftValue(a: bv64)
    requires a < 0x20_0000_0000_0000
    ensures (a << 11) as int == 2048 * a as int
  {
  }

  lemma Rescale(m: int, a: int, f: int, p: int, q: int)
    requires m == 2048 * a && a == f * p && q == 2048 * p
    ensures m == f * q
  {
  }

  /** Widening a normal double and narrowing it back is the identity, with
      no flags: the widening is exact. */
  lemma NormalRoundTrip(bits: bv64)
    requires 0 < bits & InfinityBits < InfinityBits
    ensures ToFloat64(FromFloat64(bits).value) == Double(bits, 0)
  {
    var x := FromFloat64(bits).value;
    WidenNormal(bits);
    ToFloat64RoundsToNearestEven(x);
    NarrowWidened(bits, x, ToFloat64(x));
  }

  lemma NarrowWidened(bits: bv64, x: Extended, r: Double)
    requires 0 < bits & InfinityBits < InfinityBits
    requires Biased(x) == ((bits >> 52) & 0x7FF) as bv16 + 0x3C00
    requires Sign64(x) == bits & SignBit
    requires x.mantissa == ((bits & FractionMask) << 11) | IntegerBit
    requires r.bits == Sign64(x) | Rounded(Biased(x) - 0x3C00, x.mantissa)
    requires r.flags ==
      (if x.mantissa & 0x7FF != 0 then Precision else 0) | (if Rounded(Biased(x) - 0x3C00, x.mantissa) == InfinityBits then Overflow else 0)
    ensures r == Double(bits, 0)
  {
    NarrowWidenedBits(bits, x, r.bits);
    NarrowWidenedFlags(bits, x, r.flags);
  }

  lemma NarrowWidenedBits(bits: bv64, x: Extended, rb: bv64)
    requires 0 < bits & InfinityBits < InfinityBits
    requires Biased(x) == ((bits >> 52) & 0x7FF) as bv16 + 0x3C00
    requires Sign64(x) == bits & SignBit
    requires x.mantissa == ((bits & FractionMask) << 11) | IntegerBit
    requires rb == Sign64(x) | Rounded(Biased(x) - 0x3C00, x.mantissa)
    ensures rb == bits
  {
    BiasBack(Biased(x), ((bits >> 52) & 0x7FF) as bv16);
    NarrowedBits(bits, x.mantissa, Biased(x) - 0x3C00, rb);
  }

  lemma NarrowWidenedFlags(bits: bv64, x: Extended, rf: bv16)
    requires 0 < bits & InfinityBits < InfinityBits
    requires Biased(x) == ((bits >> 52) & 0x7FF) as bv16 + 0x3C00
    requires x.mantissa == ((bits & FractionMask) << 11) | IntegerBit
    requires rf ==
      (if x.mantissa & 0x7FF != 0 then Precision else 0) | (if Rounded(Biased(x) - 0x3C00, x.mantissa) == InfinityBits then Overflow else 0)
    ensures rf == 0
  {
    BiasBack(Biased(x), ((bits >> 52) & 0x7FF) as bv16);
    NarrowedFlags(bits, x.mantissa, Biased(x) - 0x3C00, rf);
  }

  lemma BiasBack(b: bv16, e: bv16)
    requires b == e + 0x3C00
    ensures b - 0x3C00 == e
  {
  }

  lemma NarrowedBits(bits: bv64, m: bv64, e: bv16, rb: bv64)
    requires 0 < bits & InfinityBits < InfinityBits
    requires e == ((bits >> 52) & 0x7FF) as bv16
    requires m == ((bits & FractionMask) << 11) | IntegerBit
    requires rb == (bits & SignBit) | Rounded(e, m)
    ensures rb == bits
  {
    WidenedMantissa(bits);
    NarrowExact(e, m);
    Assemble(bits, e);
  }

  lemma NarrowedFlags(bits: bv64, m: bv64, e: bv16, rf: bv16)
    requires 0 < bits & InfinityBits < InfinityBits
    requires e == ((bits >> 52) & 0x7FF) as bv16
    requires m == ((bits & FractionMask) << 11) | IntegerBit
    requires rf == (if m & 0x7FF != 0 then Precision else 0) | (if Rounded(e, m) == InfinityBits then Overflow else 0)
    ensures rf == 0
  {
    WidenedMantissa(bits);
    NarrowExact(e, m);
    ExponentBack(bits, e);
  }

  lemma WidenedMantissa(bits: bv64)
    ensures (((bits & FractionMask) << 11) | IntegerBit) & 0x7FF == 0
    ensures ((((bits & FractionMask) << 11) | IntegerBit) >> 11) & FractionMask == bits & FractionMask
  {
  }

  lemma ExponentBack(bits: bv64, e: bv16)
    requires 0 < bits & InfinityBits < InfinityBits && e == ((bits >> 52) & 0x7FF) as bv16
    ensures ((e as bv64) << 52) | (bits & FractionMask) != InfinityBits
  {
  }

  lemma Assemble(bits: bv64, e: bv16)
    requires e == ((bits >> 52) & 0x7FF) as bv16
    ensures (bits & SignBit) | (((e as bv64) << 52) | (bits & FractionMask)) == bits
  {
  }

  /** The fields of a widened normal double. */
  lemma WidenNormal(bits: bv64)
    requires 0 < bits & InfinityBits < InfinityBits
    ensures FromFloat64(bits).flags == 0
    ensures Biased(FromFloat64(bits).value) == ((bits >> 52) & 0x7FF) as bv16 + 0x3C00
    ensures 0x3C01 <= Biased(FromFloat64(bits).value) <= 0x43FE
    ensures Sign64(FromFloat64(bits).value) == bits & SignBit
    ensures FromFloat64(bits).value.mantissa == ((bits & FractionMask) << 11) | IntegerBit
  {
    NormalBranch(bits);
    ExponentWord(bits, FromFloat64(bits).value.exponent);
  }

  lemma NormalBranch(bits: bv64)
    requires 0 < bits & InfinityBits < InfinityBits
    ensures FromFloat64(bits).flags == 0
    ensures FromFloat64(bits).value.exponent == Sign16(bits) | Rebiased((bits >> 52) & 0x7FF)
    ensures FromFloat64(bits).value.mantissa == ((bits & FractionMask) << 11) | IntegerBit
  {
  }

  /** The exponent word of a widened normal double: the sign above the
      rebiased exponent. */
  lemma ExponentWord(bits: bv64, w: bv16)
    requires 0 < bits & InfinityBits < InfinityBits
    requires w == Sign16(bits) | Rebiased((bits >> 52) & 0x7FF)
    ensures w & 0x7FFF == ((bits >> 52) & 0x7FF) as bv16 + 0x3C00
    ensures 0x3C01 <= w & 0x7FFF <= 0x43FE
    ensures ((w & 0x8000) as bv64) << 48 == bits & SignBit
  {
    Rebias((bits >> 52) & 0x7FF);
  }

  lemma Rebias(e: bv64)
    requires 0 < e < 0x7FF
    ensures Rebiased(e) == e as bv16 + 0x3C00
    ensures (Rebiased(e) & 0x7FFF) == Rebiased(e)
  {
  }

  /** Rounding is exact when the 11 dropped bits are zero. */
  lemma NarrowExact(e: bv16, m: bv64)
    requires m & 0x7FF == 0
    ensures Rounded(e, m) == ((e as bv64) << 52) | ((m >> 11) & FractionMask)
  {
  }

}
