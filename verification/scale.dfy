/** x87_fscale of rosettaRuntime/X87.cpp: ST(0) times two to the power of
    ST(1) truncated to an int. The handler builds the power of two by
    writing `scale + 1023` into the exponent field of a double; the
    multiplication is the host's and arrives as a parameter. */
module Scale {
  import opened Words
  import opened Wrappers
  import opened Values
  import opened X87State
  import opened Arithmetic

  // ---------------------------------------------------------------------
  // The factor

  /** The largest biased exponent, the one of the infinities. */
  const MaxExponent: int := 0x7FF

  /** The double with sign `neg`, biased exponent field `e` and a zero
      fraction. */
  function FieldValue(neg: bool, e: int): (v: Value)
    requires 0 <= e <= MaxExponent
    ensures !v.NaN? && !v.Subnormal? && v.neg == neg
    ensures 0 < e < MaxExponent ==> v == Normal(neg, Pow2(e - 1023))
  {
    if e == 0 then Zero(neg) else if e == MaxExponent then Inf(neg) else Normal(neg, Pow2(e - 1023))
  }

  /** std::bit_cast<double>(static_cast<uint64_t>(exponent) << 52) for an
      int exponent. The cast to uint64_t works modulo 2^64 and the shift
      drops everything above bit 63, so only the exponent's low twelve bits
      survive: bit 11 lands in the sign bit, bits 0-10 in the exponent
      field, and the fraction is zero. */
  function ShiftedExponent(exponent: int): (v: Value)
    ensures !v.NaN? && !v.Subnormal?
    ensures v.neg <==> exponent % 0x1000 >= 0x800
  {
    var low := exponent % 0x1000;
    FieldValue(low >= 0x800, low % 0x800)
  }

  /** ShiftedExponent is the double the twelve surviving bits spell. */
  lemma ShiftedExponentIsBitCast(b: bv12)
    ensures ShiftedExponent(b as int) == DoubleValue((b as bv64) << 52)
  {
    FieldOfShift(b);
    TwelveBits((b as bv64) << 52, b as int);
  }

  lemma TwelveBits(bits: bv64, n: int)
    requires 0 <= n < 0x1000 && bits & 0xF_FFFF_FFFF_FFFF == 0
    requires ((bits >> 52) & 0x7FF) as int == n % 0x800
    requires bits & 0x8000_0000_0000_0000 != 0 <==> n >= 0x800
    ensures ShiftedExponent(n) == DoubleValue(bits)
  {
    assert n % 0x1000 == n;
    ExponentOnly(bits, n % 0x800);
  }

  /** A double with a zero fraction is a signed zero, infinity or power of
      two according to its exponent field. */
  lemma ExponentOnly(bits: bv64, e: int)
    requires bits & 0xF_FFFF_FFFF_FFFF == 0 && 0 <= e <= MaxExponent && ((bits >> 52) & 0x7FF) as int == e
    ensures DoubleValue(bits) == FieldValue(bits & 0x8000_0000_0000_0000 != 0, e)
  {
    if 0 < e < MaxExponent {
      assert NormalMagnitude((bits >> 52) & 0x7FF, 0) == Pow2(e - 1023);
    }
  }

  lemma FieldOfShift(b: bv12)
    ensures ((b as bv64) << 52) & 0xF_FFFF_FFFF_FFFF == 0
    ensures ((((b as bv64) << 52) >> 52) & 0x7FF) as int == (b as int) % 0x800
    ensures ((b as bv64) << 52) & 0x8000_0000_0000_0000 != 0 <==> b as int >= 0x800
  {
    ShiftedBits(b);
    LowField(b);
  }

  lemma ShiftedBits(b: bv12)
    ensures ((b as bv64) << 52) & 0xF_FFFF_FFFF_FFFF == 0
    ensures (((b as bv64) << 52) >> 52) & 0x7FF == (b & 0x7FF) as bv64
    ensures ((b as bv64) << 52) & 0x8000_0000_0000_0000 != 0 <==> b & 0x800 != 0
  {
  }

  lemma LowField(b: bv12)
    ensures ((b & 0x7FF) as bv64) as int == (b as int) % 0x800
    ensures b & 0x800 != 0 <==> b as int >= 0x800
  {
    assert ((b & 0x7FF) as bv64) as int == (b & 0x7FF) as int;
  }

  /** The uint64_t wrap-around is invisible once the shift has dropped the
      high bits. */
  lemma WrapIsInvisible(exponent: int)
    ensures ShiftedExponent(exponent % 0x1_0000_0000_0000_0000) == ShiftedExponent(exponent)
  {
    var q := exponent / 0x1_0000_0000_0000_0000;
    var r := exponent % 0x1_0000_0000_0000_0000;
    var q2 := r / 0x1000;
    var r2 := r % 0x1000;
    assert exponent == (q * 0x10_0000_0000_0000 + q2) * 0x1000 + r2;
    ModUnique(exponent, q * 0x10_0000_0000_0000 + q2, r2);
  }

  lemma ModUnique(x: int, q: int, r: int)
    requires x == q * 0x1000 + r && 0 <= r < 0x1000
    ensures x % 0x1000 == r
  {
  }

  /** The factor as the handler builds it: `int32_t exponent = scale + 1023`
      (a signed overflow is undefined, None), shifted into the exponent
      field. */
  function FactorAsWritten(scale: Int32): (r: Option<Value>)
    ensures r.None? <==> scale + 1023 >= 0x8000_0000
    ensures r.Some? ==> r.value == ShiftedExponent(scale + 1023)
  {
    var exponent := scale + 1023;
    if exponent >= 0x8000_0000 then None else Some(ShiftedExponent(exponent))
  }

  /** The biased exponent held to the field's range 0..2047. */
  function Clamped(exponent: int): (e: int)
    ensures 0 <= e <= MaxExponent
    ensures 0 <= exponent <= MaxExponent ==> e == exponent
    ensures exponent < 0 ==> e == 0
    ensures exponent > MaxExponent ==> e == MaxExponent
  {
    if exponent < 0 then 0 else if exponent > MaxExponent then MaxExponent else exponent
  }

  /** The factor with the exponent held to its field. */
  function Factor(scale: Int32): (v: Value)
    ensures !v.neg
  {
    ShiftedExponent(Clamped(scale + 1023))
  }

  /** The corrected factor is the power of two wherever a normal double can
      hold it, +0 below and +infinity above: never negative, never a NaN. */
  lemma FactorIsPowerOfTwo(scale: Int32)
    ensures -1022 <= scale <= 1023 ==> Factor(scale) == Normal(false, Pow2(scale))
    ensures scale < -1022 ==> Factor(scale) == Zero(false)
    ensures scale > 1023 ==> Factor(scale) == Inf(false)
  {
    var e := Clamped(scale + 1023);
    assert e % 0x1000 == e && e % 0x800 == e;
  }

  /** Where the exponent fits its field (scale -1023..1024) the handler's
      factor is the corrected one. */
  lemma AsWrittenAgreesInRange(scale: Int32)
    requires -1023 <= scale <= 1024
    ensures FactorAsWritten(scale) == Some(Factor(scale))
  {
  }

  /** Above that range the exponent reaches the sign bit: for scale
      1025..3072 the handler's factor is negative where the corrected one
      is +infinity, and scale 1025 builds -0, so ST(0) times it is a zero
      of the wrong sign. */
  lemma OverflowingScaleFlipsSign(scale: Int32)
    requires 1025 <= scale <= 3072
    ensures FactorAsWritten(scale).Some? && FactorAsWritten(scale).value.neg
    ensures scale == 1025 ==> FactorAsWritten(scale) == Some(Zero(true))
    ensures Factor(scale) == Inf(false)
  {
    FactorIsPowerOfTwo(scale);
    var low := scale + 1023;
    assert low % 0x1000 == low;
  }

  /** Below it the exponent is negative and the sign extension sets the
      sign bit: for scale -3071..-1024 the handler's factor is negative
      where the corrected one is +0, and scale -1024 builds -infinity. */
  lemma UnderflowingScaleFlipsSign(scale: Int32)
    requires -3071 <= scale <= -1024
    ensures FactorAsWritten(scale).Some? && FactorAsWritten(scale).value.neg
    ensures scale == -1024 ==> FactorAsWritten(scale) == Some(Inf(true))
    ensures Factor(scale) == Zero(false)
  {
    FactorIsPowerOfTwo(scale);
    var low := scale + 1023 + 0x1000;
    ModUnique(scale + 1023, -1, low);
    if scale == -1024 {
      assert low % 0x800 == MaxExponent;
    }
  }

  // ---------------------------------------------------------------------
  // The handler

  /** x87_fscale: clear C1, read ST(0) and ST(1) with getSt, truncate ST(1)
      to an int (a NaN, an infinity or an out-of-range value is undefined,
      None), and store `st0 * factor` with setSt. */
  function Fscale(s: State, mul: Binary): (r: Option<State>)
    ensures r.Some? <==> CastToInt32(GetSt(s, 1).value).Some?
    ensures r.Some? ==> GetStFast(r.value, 0) == mul(GetSt(s, 0).value, Factor(CastToInt32(GetSt(s, 1).value).value))
    ensures r.Some? ==> GetStTag(r.value, 0) == Classify(GetStFast(r.value, 0))
    ensures r.Some? ==> Top(r.value) == Top(s) && r.value.control == s.control && !Has(r.value.status, C1)
    ensures r.Some? ==> forall q: Slot :: q != Top(s) ==> r.value.st[q] == s.st[q] && TagAt(r.value.tag, q) == TagAt(s.tag, q)
  {
    var o := ClearAndRead(s, 1, C1);
    match CastToInt32(o.sti)
    case None => None
    case Some(scale) => Some(Scaled(o.state, s, mul(o.st0, Factor(scale))))
  }

  /** setSt(0, v) on the state the reads leave. */
  function Scaled(u: State, s: State, v: Value): (r: State)
    requires u == s.(status := u.status) && Top(u) == Top(s) && u.status & C1 == 0
    ensures GetStFast(r, 0) == v && GetStTag(r, 0) == Classify(v)
    ensures Top(r) == Top(s) && r.control == s.control && !Has(r.status, C1)
    ensures forall q: Slot :: q != Top(s) ==> r.st[q] == s.st[q] && TagAt(r.tag, q) == TagAt(s.tag, q)
  {
    assert StIndex(u, 0) == Top(s);
    SetSt(u, 0, v)
  }

  /** The handler as written: the same, with the factor built by the
      unchecked shift, and undefined also when `scale + 1023` overflows. */
  function FscaleAsWritten(s: State, mul: Binary): (r: Option<State>)
    ensures r.Some? <==> CastToInt32(GetSt(s, 1).value).Some? && CastToInt32(GetSt(s, 1).value).value + 1023 < 0x8000_0000
    ensures r.Some? ==> Top(r.value) == Top(s)
  {
    var o := ClearAndRead(s, 1, C1);
    match CastToInt32(o.sti)
    case None => None
    case Some(scale) =>
      match FactorAsWritten(scale)
      case None => None
      case Some(factor) => Some(Scaled(o.state, s, mul(o.st0, factor)))
  }

  /** For scales whose exponent fits its field the handler as written and
      the corrected one store the same product. */
  lemma FscaleAgreesInRange(s: State, mul: Binary)
    requires CastToInt32(GetSt(s, 1).value).Some?
    requires -1023 <= CastToInt32(GetSt(s, 1).value).value <= 1024
    ensures FscaleAsWritten(s, mul) == Fscale(s, mul)
  {
    AsWrittenAgreesInRange(CastToInt32(GetSt(s, 1).value).value);
  }

  /** fscale multiplies ST(0) by exactly 2^n, with n ST(1) truncated toward
      zero, whenever n is a normal exponent. */
  lemma FscaleMultipliesByPowerOfTwo(s: State, mul: Binary)
    requires CastToInt32(GetSt(s, 1).value).Some?
    requires -1022 <= CastToInt32(GetSt(s, 1).value).value <= 1023
    ensures GetStFast(Fscale(s, mul).value, 0) == mul(GetSt(s, 0).value, Normal(false, Pow2(CastToInt32(GetSt(s, 1).value).value)))
  {
    FactorIsPowerOfTwo(CastToInt32(GetSt(s, 1).value).value);
  }

  /** With an integer n in ST(1), fscale scales by 2^n. */
  lemma FscaleByInteger(s: State, mul: Binary, n: Int32)
    requires GetSt(s, 1).value == IntToValue(n) && -1022 <= n <= 1023
    ensures Fscale(s, mul).Some?
    ensures GetStFast(Fscale(s, mul).value, 0) == mul(GetSt(s, 0).value, Normal(false, Pow2(n)))
  {
    CastIntRoundTrip(n);
    FscaleMultipliesByPowerOfTwo(s, mul);
  }
}
