/** Binary32 to extended: the widening inside x87_fst_fp80
    (rosettaRuntime/X87.cpp), which stores ST(0), already narrowed to a
    float by the host, as an 80-bit extended value. */
module Widen32 {
  import opened Words
  import opened Wrappers
  import opened Values
  import opened Float80
  import opened Float32

  /** The binary32 sign moved to bit 15 of the extended exponent word. */
  function SignOf32(bits: bv32): (s: bv16)
    ensures s & 0x7FFF == 0
    ensures s != 0 <==> bits & SignBit32 != 0
  {
    ((bits >> 16) as bv16) & 0x8000
  }

  /** The biased binary32 exponent field. */
  function Exponent32(bits: bv32): (e: bv32)
    ensures e <= 0xFF
  {
    (bits >> 23) & 0xFF
  }

  /** The widening: zero keeps its sign; a subnormal is normalized so that
      its leading one becomes the integer bit; infinity and NaN get the
      all-ones exponent with the fraction moved up unchanged (a signalling
      NaN is not made quiet and no flag is raised); a normal value is
      rebiased from 127 to 16383. */
  function FromFloat32(bits: bv32): (x: Extended)
    ensures x.exponent & 0x8000 == SignOf32(bits)
  {
    var sign := SignOf32(bits);
    var exp := Exponent32(bits);
    var mantissa := bits & Fraction32;
    if exp == 0 && mantissa == 0 then Extended(sign, 0)
    else if exp == 0 then WidenSubnormal32(sign, mantissa)
    else if exp == 255 then Extended(sign | 0x7FFF, ((mantissa as bv64) << 40) | IntegerBit)
    else Extended(sign | (exp as bv16 + 16256), ((mantissa as bv64) << 40) | IntegerBit)
  }

  /** A subnormal fraction shifted left until its leading one reaches bit 23
      (the source's shift, clz(mantissa) - 8), under the binary32 exponent
      1 - shift rebiased to 16383. */
  function WidenSubnormal32(sign: bv16, f: bv32): (x: Extended)
    requires sign & 0x7FFF == 0 && 0 < f < 0x80_0000
    ensures x.exponent & 0x8000 == sign
    ensures x.exponent & 0x7FFF == x.exponent - sign
  {
    NormalizeCountBound23(f);
    var n := Normalize23(f);
    Extended(sign | (16257 - n.1 as bv16), ((n.0 as bv64) << 40) | IntegerBit)
  }

  /** The subnormal branch as the source writes it: `exp = 1 - shift` is
      assigned to a uint8_t, so every shift but 1 wraps to 257 - shift before
      the common rebias adds 16256. */
  function WidenSubnormal32AsWritten(sign: bv16, f: bv32): (x: Extended)
    requires 0 < f < 0x80_0000
    ensures x.mantissa & IntegerBit == IntegerBit
    ensures sign & 0x7FFF == 0 ==> x.mantissa == WidenSubnormal32(sign, f).mantissa
  {
    NormalizeCountBound23(f);
    var n := Normalize23(f);
    var exp: bv8 := 1 - n.1 as bv8;
    Extended(sign | (exp as bv16 + 16256), ((n.0 as bv64) << 40) | IntegerBit)
  }

  /** x87_fst_fp80's widening as written: differs from FromFloat32 only on
      subnormal inputs. */
  function FromFloat32AsWritten(bits: bv32): (x: Extended)
    ensures Exponent32(bits) != 0 || bits & Fraction32 == 0 ==> x == FromFloat32(bits)
  {
    var mantissa := bits & Fraction32;
    if Exponent32(bits) == 0 && mantissa != 0 then WidenSubnormal32AsWritten(SignOf32(bits), mantissa)
    else FromFloat32(bits)
  }

  // ---------------------------------------------------------------------
  // Normalizing a subnormal fraction

  /** Shift a non-zero fraction left one bit at a time until its leading one
      reaches bit 23; the count is what the source computes as
      clz(f) - 8. */
  function Normalize23(f: bv32): (r: (bv32, nat))
    requires 0 < f < 0x100_0000
    ensures 0x80_0000 <= r.0 < 0x100_0000
    decreases 0x100_0000 - f
  {
    if f >= 0x80_0000 then (f, 0)
    else
      var r := Normalize23(f << 1);
      (r.0, r.1 + 1)
  }

  /** The normalized fraction is f * 2^k. */
  lemma {:induction false} NormalizeScales23(f: bv32)
    requires 0 < f < 0x100_0000
    ensures Normalize23(f).0 as int == f as int * Pow2Nat(Normalize23(f).1)
    decreases 0x100_0000 - f
  {
    if f < 0x80_0000 {
      var g := f << 1;
      Doubling32(f);
      NormalizeScales23(g);
      var r := Normalize23(g);
      assert Normalize23(f) == (r.0, r.1 + 1);
      Reassociate(f as int, r.1);
    }
  }

  lemma Doubling32(f: bv32)
    requires f < 0x80_0000
    ensures (f << 1) as int == 2 * f as int
  {
  }

  /** A fraction below 2^23 needs at least one shift, and exactly one when
      its top bit (bit 22) is set. */
  lemma NormalizeCountPositive23(f: bv32)
    requires 0 < f < 0x80_0000
    ensures Normalize23(f).1 >= 1
    ensures Normalize23(f).1 == 1 <==> f >= 0x40_0000
  {
    if f < 0x40_0000 {
      assert Normalize23(f) == (Normalize23(f << 1).0, Normalize23(f << 1).1 + 1);
      assert f << 1 < 0x80_0000;
    }
  }

  /** At most 23 shifts are needed. */
  lemma NormalizeCountBound23(f: bv32)
    requires 0 < f < 0x100_0000
    ensures Normalize23(f).1 <= 23
  {
    var r := Normalize23(f);
    NormalizeScales23(f);
    Below24(r.0);
    CountFromScale23(r.0 as int, f as int, r.1);
  }

  /** A 32-bit word below 2^24 is, as an integer, below 2^24. */
  lemma Below24(x: bv32)
    requires x < 0x100_0000
    ensures x as int < 0x100_0000
  {
    Truncate24(x);
    Width24(x as bv24);
  }

  lemma Truncate24(x: bv32)
    requires x < 0x100_0000
    ensures x as int == (x as bv24) as int
  {
  }

  lemma Width24(x: bv24)
    ensures x as int < 0x100_0000
  {
  }

  lemma CountFromScale23(n: int, f: int, k: nat)
    requires 1 <= f && n == f * Pow2Nat(k) && n < 0x100_0000
    ensures k <= 23
  {
    if k > 23 {
      Pow2NatMonotone(24, k);
      Pow2Nat24();
      AtLeastFactor(f, Pow2Nat(k));
    }
  }

  lemma Pow2Nat24()
    ensures Pow2Nat(24) == 0x100_0000
  {
    assert Pow2Nat(12) == 4096;
    Pow2NatAdd(12, 12);
  }

  lemma NormalizeFacts23(f: bv32) returns (a: bv32, k: nat)
    requires 0 < f < 0x80_0000
    ensures Normalize23(f) == (a, k)
    ensures 1 <= k <= 23 && 0x80_0000 <= a < 0x100_0000
    ensures a as int == f as int * Pow2Nat(k)
    ensures k == 1 <==> f >= 0x40_0000
  {
    NormalizeCountBound23(f);
    NormalizeCountPositive23(f);
    NormalizeScales23(f);
    a, k := Normalize23(f).0, Normalize23(f).1;
  }

  // ---------------------------------------------------------------------
  // What the widening preserves

  /** Zero, infinity and NaN widen without any flag: zero to the signed
      extended zero, infinity to the bare integer bit, a NaN to the
      all-ones exponent with its payload moved up unchanged. */
  lemma FromFloat32Specials(bits: bv32)
    ensures bits & !SignBit32 == 0 ==> FromFloat32(bits) == Extended(SignOf32(bits), 0)
    ensures Exponent32(bits) == 0xFF ==>
      FromFloat32(bits) == Extended(SignOf32(bits) | 0x7FFF, ((bits & Fraction32) as bv64 << 40) | IntegerBit)
  {
  }

  /** A subnormal float widens exactly: the extended mantissa is normalized
      (integer bit set) and, read against the extended exponent, denotes the
      same number f * 2^-149, that is mantissa * 2^(biased - 16383 - 63). */
  lemma FromFloat32SubnormalExact(bits: bv32)
    requires Exponent32(bits) == 0 && bits & Fraction32 != 0
    ensures FromFloat32(bits).mantissa & IntegerBit != 0
    ensures 0x3F6A <= Biased(FromFloat32(bits)) <= 0x3F80
    ensures FromFloat32(bits).mantissa as int ==
      (bits & Fraction32) as int * Pow2Nat(16297 - Biased(FromFloat32(bits)) as int)
  {
    assert FromFloat32(bits) == WidenSubnormal32(SignOf32(bits), bits & Fraction32);
    WidenSubnormal32Exact(SignOf32(bits), bits & Fraction32);
  }

  lemma WidenSubnormal32Exact(sign: bv16, f: bv32)
    requires sign & 0x7FFF == 0 && 0 < f < 0x80_0000
    ensures WidenSubnormal32(sign, f).mantissa & IntegerBit != 0
    ensures 0x3F6A <= Biased(WidenSubnormal32(sign, f)) <= 0x3F80
    ensures WidenSubnormal32(sign, f).mantissa as int ==
      f as int * Pow2Nat(16297 - Biased(WidenSubnormal32(sign, f)) as int)
  {
    var a, k := NormalizeFacts23(f);
    SubnormalWords32(f, sign, a, k, WidenSubnormal32(sign, f).exponent, WidenSubnormal32(sign, f).mantissa);
  }

  lemma SubnormalWords32(f: bv32, sign: bv16, a: bv32, k: nat, w: bv16, m: bv64)
    requires sign & 0x7FFF == 0 && 1 <= k <= 23
    requires 0x80_0000 <= a < 0x100_0000
    requires a as int == f as int * Pow2Nat(k)
    requires w == sign | (16257 - k as bv16)
    requires m == ((a as bv64) << 40) | IntegerBit
    ensures m & IntegerBit != 0
    ensures 0x3F6A <= w & 0x7FFF <= 0x3F80
    ensures m as int == f as int * Pow2Nat(16297 - (w & 0x7FFF) as int)
  {
    SubnormalExponent32(sign, k, w);
    SubnormalMantissa32(f, a, k, m);
  }

  lemma SubnormalExponent32(sign: bv16, k: nat, w: bv16)
    requires sign & 0x7FFF == 0 && 1 <= k <= 23
    requires w == sign | (16257 - k as bv16)
    ensures (w & 0x7FFF) as int == 16257 - k
  {
    ExponentBits32(sign, k as bv16);
    ExponentValue32(k as bv16, k);
  }

  lemma ExponentBits32(sign: bv16, kb: bv16)
    requires sign & 0x7FFF == 0 && 1 <= kb <= 23
    ensures (sign | (16257 - kb)) & 0x7FFF == 16257 - kb
  {
  }

  lemma ExponentValue32(kb: bv16, k: nat)
    requires 1 <= k <= 23 && kb == k as bv16
    ensures (16257 - kb) as int == 16257 - k
  {
  }

  lemma SubnormalMantissa32(f: bv32, a: bv32, k: nat, m: bv64)
    requires 0x80_0000 <= a < 0x100_0000
    requires a as int == f as int * Pow2Nat(k)
    requires m == ((a as bv64) << 40) | IntegerBit
    ensures m & IntegerBit != 0
    ensures m as int == f as int * Pow2Nat(40 + k)
  {
    var b := a as bv64;
    ShiftForty(b);
    ShiftValue40(b);
    FortyMore(k);
    Rescale40(m as int, b as int, f as int, Pow2Nat(k), Pow2Nat(40 + k));
  }

  lemma ShiftForty(b: bv64)
    requires 0x80_0000 <= b < 0x100_0000
    ensures (b << 40) | IntegerBit == b << 40
    ensures (b << 40) & IntegerBit != 0
  {
  }

  /** b << 40 is b * 2^40, taken as two shifts by 20. */
  lemma ShiftValue40(b: bv64)
    requires b < 0x100_0000
    ensures (b << 40) as int == 0x100_0000_0000 * b as int
  {
    var y := b << 20;
    ShiftBound20(b);
    ShiftValue20(b);
    ShiftValue20(y);
    ShiftTwice20(b);
    Square20(b as int, y as int, (y << 20) as int);
  }

  lemma ShiftValue20(b: bv64)
    requires b < 0x1000_0000_0000
    ensures (b << 20) as int == 0x10_0000 * b as int
  {
  }

  lemma ShiftBound20(b: bv64)
    requires b < 0x100_0000
    ensures b << 20 < 0x1000_0000_0000
  {
  }

  lemma ShiftTwice20(b: bv64)
    ensures (b << 20) << 20 == b << 40
  {
  }

  lemma Square20(x: int, y: int, z: int)
    requires y == 0x10_0000 * x && z == 0x10_0000 * y
    ensures z == 0x100_0000_0000 * x
  {
  }

  lemma FortyMore(k: nat)
    ensures Pow2Nat(40 + k) == 0x100_0000_0000 * Pow2Nat(k)
  {
    Pow2NatAdd(40, k);
    Pow2Nat20();
    Pow2NatAdd(20, 20);
  }

  lemma Pow2Nat20()
    ensures Pow2Nat(20) == 0x10_0000
  {
    assert Pow2Nat(10) == 1024;
    Pow2NatAdd(10, 10);
  }

  lemma Rescale40(m: int, a: int, f: int, p: int, q: int)
    requires m == 0x100_0000_0000 * a && a == f * p && q == 0x100_0000_0000 * p
    ensures m == f * q
  {
  }

  /** Widening a normal float and narrowing it back with
      ConvertX87RegisterToFloat32 is the identity, with no flags. */
  lemma NormalRoundTrip32(bits: bv32)
    requires 0 < Exponent32(bits) < 0xFF
    ensures ToFloat32(FromFloat32(bits)) == Some(Single(bits, 0))
  {
    var x := FromFloat32(bits);
    WidenedFields32(bits, x);
    NarrowsToOriginal32(bits, x);
  }

  /** Any extended value with the fields of a widened normal float
      narrows back to the float, exactly. */
  lemma NarrowsToOriginal32(bits: bv32, x: Extended)
    requires 0 < Exponent32(bits) < 0xFF && 0x3F81 <= Biased(x) <= 0x407E && WidenedAs32(bits, x)
    ensures ToFloat32(x) == Some(Single(bits, 0))
  {
    ToFloat32RoundsToNearestEven(x);
    NarrowedIsOriginal32(bits, x, ToFloat32(x));
  }

  /** The rounded narrowing of such a value is the float. */
  lemma NarrowedIsOriginal32(bits: bv32, x: Extended, r: Option<Single>)
    requires 0 < Exponent32(bits) < 0xFF && WidenedAs32(bits, x)
    requires r == Some(Single(Sign32(x) | Rounded32(Rebiased32(Biased(x)), x.mantissa),
      (if x.mantissa & 0xFF_FFFF_FFFF != 0 then Precision else 0) |
      (if Rounded32(Rebiased32(Biased(x)), x.mantissa) == Infinity32 then Overflow else 0)))
    ensures r == Some(Single(bits, 0))
  {
    NarrowsBack32(bits, x);
    Reassembled32(bits, x.mantissa, r, Sign32(x), Rounded32(Rebiased32(Biased(x)), x.mantissa));
  }

  /** The fields of a widened normal float as the narrowing reads them. */
  predicate WidenedAs32(bits: bv32, x: Extended) {
    && Rebiased32(Biased(x)) == Exponent32(bits)
    && Sign32(x) == bits & SignBit32
    && x.mantissa == ((bits & Fraction32) as bv64 << 40) | IntegerBit
  }

  /** A widened normal float has an exponent in the normal range that
      rebiases back to the original one. */
  lemma WidenedFields32(bits: bv32, x: Extended)
    requires 0 < Exponent32(bits) < 0xFF && x == FromFloat32(bits)
    ensures 0x3F81 <= Biased(x) <= 0x407E
    ensures WidenedAs32(bits, x)
  {
    WidenNormal32(bits);
    WidenedRange32(Exponent32(bits));
  }

  lemma WidenedRange32(e: bv32)
    requires 0 < e < 0xFF
    ensures 0x3F81 <= e as bv16 + 16256 <= 0x407E
  {
  }

  /** Nothing is dropped, the sign and the rounded magnitude reassemble
      the word, and the magnitude is finite. */
  predicate Reassembles32(bits: bv32, m: bv64, sign: bv32, rounded: bv32) {
    m & 0xFF_FFFF_FFFF == 0 && sign | rounded == bits && rounded != Infinity32
  }

  lemma NarrowsBack32(bits: bv32, x: Extended)
    requires 0 < Exponent32(bits) < 0xFF && WidenedAs32(bits, x)
    ensures Reassembles32(bits, x.mantissa, Sign32(x), Rounded32(Rebiased32(Biased(x)), x.mantissa))
  {
    NarrowWidened32(bits, Exponent32(bits), x.mantissa);
  }

  /** A narrowing that reassembles the word returns it with no flags. */
  lemma Reassembled32(bits: bv32, m: bv64, r: Option<Single>, sign: bv32, rounded: bv32)
    requires Reassembles32(bits, m, sign, rounded)
    requires r == Some(Single(sign | rounded,
      (if m & 0xFF_FFFF_FFFF != 0 then Precision else 0) | (if rounded == Infinity32 then Overflow else 0)))
    ensures r == Some(Single(bits, 0))
  {
  }

  /** The fields of a widened normal float. */
  lemma WidenNormal32(bits: bv32)
    requires 0 < Exponent32(bits) < 0xFF
    ensures Biased(FromFloat32(bits)) == Exponent32(bits) as bv16 + 16256
    ensures Rebiased32(Biased(FromFloat32(bits))) == Exponent32(bits)
    ensures Sign32(FromFloat32(bits)) == bits & SignBit32
    ensures FromFloat32(bits).mantissa == ((bits & Fraction32) as bv64 << 40) | IntegerBit
  {
    var sign := SignOf32(bits);
    var e := Exponent32(bits);
    assert FromFloat32(bits) == Extended(sign | (e as bv16 + 16256), ((bits & Fraction32) as bv64 << 40) | IntegerBit);
    NormalWord32(sign, e);
  }

  lemma NormalWord32(sign: bv16, e: bv32)
    requires sign & 0x7FFF == 0 && 0 < e < 0xFF
    ensures (sign | (e as bv16 + 16256)) & 0x7FFF == e as bv16 + 16256
    ensures (sign | (e as bv16 + 16256)) & 0x8000 == sign
    ensures Rebiased32(e as bv16 + 16256) == e
  {
  }

  lemma NarrowWidened32(bits: bv32, e: bv32, m: bv64)
    requires 0 < e < 0xFF && e == Exponent32(bits)
    requires m == ((bits & Fraction32) as bv64 << 40) | IntegerBit
    ensures m & 0xFF_FFFF_FFFF == 0
    ensures (bits & SignBit32) | Rounded32(e, m) == bits
    ensures Rounded32(e, m) != Infinity32
  {
    WidenedFraction32(bits, m);
    ExactRounded32(e, m, bits & Fraction32);
  }

  /** Nothing below the kept 23 bits: rounding only reassembles the fields. */
  lemma ExactRounded32(e: bv32, m: bv64, f: bv32)
    requires m & 0xFF_FFFF_FFFF == 0 && f == ((m >> 40) as bv32) & Fraction32
    ensures Rounded32(e, m) == (e << 23) | f
  {
  }

  lemma WidenedFraction32(bits: bv32, m: bv64)
    requires m == ((bits & Fraction32) as bv64 << 40) | IntegerBit
    ensures m & 0xFF_FFFF_FFFF == 0
    ensures ((m >> 40) as bv32) & Fraction32 == bits & Fraction32
  {
  }

  /** Zero and infinity survive the round trip unchanged; a NaN comes back
      as the quiet NaN of the same sign with Invalid Operation, its payload
      lost in the narrowing. */
  lemma SpecialRoundTrip32(bits: bv32)
    ensures bits & !SignBit32 == 0 ==> ToFloat32(FromFloat32(bits)) == Some(Single(bits, 0))
    ensures bits & !SignBit32 == Infinity32 ==> ToFloat32(FromFloat32(bits)) == Some(Single(bits, 0))
    ensures Exponent32(bits) == 0xFF && bits & Fraction32 != 0 ==>
      ToFloat32(FromFloat32(bits)) == Some(Single((bits & SignBit32) | QuietNaN32, InvalidOperation))
  {
    ToFloat32Specials(FromFloat32(bits));
  }

  // ---------------------------------------------------------------------
  // The uint8_t exponent of the subnormal branch

  /** The wrapped exponent: a subnormal whose top fraction bit (bit 22) is
      set needs one shift and widens correctly; every other subnormal comes
      out 2^256 times too large, with the same mantissa. */
  lemma AsWrittenExponentOffBy256(sign: bv16, f: bv32)
    requires sign & 0x7FFF == 0 && 0 < f < 0x80_0000
    ensures f >= 0x40_0000 ==> WidenSubnormal32AsWritten(sign, f) == WidenSubnormal32(sign, f)
    ensures f < 0x40_0000 ==> WidenSubnormal32AsWritten(sign, f).mantissa == WidenSubnormal32(sign, f).mantissa
    ensures f < 0x40_0000 ==> Biased(WidenSubnormal32AsWritten(sign, f)) == Biased(WidenSubnormal32(sign, f)) + 256
  {
    var a, k := NormalizeFacts23(f);
    WrappedExponent(sign, k);
  }

  lemma WrappedExponent(sign: bv16, k: nat)
    requires sign & 0x7FFF == 0 && 1 <= k <= 23
    ensures k == 1 ==> sign | ((1 - k as bv8) as bv16 + 16256) == sign | (16257 - k as bv16)
    ensures k >= 2 ==> (sign | ((1 - k as bv8) as bv16 + 16256)) & 0x7FFF == ((sign | (16257 - k as bv16)) & 0x7FFF) + 256
  {
    WrappedBits(sign, k as bv8, k as bv16);
  }

  lemma WrappedBits(sign: bv16, k8: bv8, k16: bv16)
    requires sign & 0x7FFF == 0 && 1 <= k8 <= 23 && k16 == k8 as bv16
    ensures k8 == 1 ==> sign | ((1 - k8) as bv16 + 16256) == sign | (16257 - k16)
    ensures k8 >= 2 ==> (sign | ((1 - k8) as bv16 + 16256)) & 0x7FFF == ((sign | (16257 - k16)) & 0x7FFF) + 256
  {
  }

  /** The smallest positive float, 2^-149 (bits 0x00000001), widens as
      written to 2^107 and narrows back to 0x75000000; the corrected
      widening narrows back to the input. */
  lemma AsWrittenScalesUp()
    ensures FromFloat32AsWritten(1) == Extended(0x406A, IntegerBit)
    ensures FromFloat32(1) == Extended(0x3F6A, IntegerBit)
    ensures ToFloat32(Extended(0x406A, IntegerBit)) == Some(Single(0x7500_0000, 0))
    ensures ToFloat32(Extended(0x3F6A, IntegerBit)) == Some(Single(1, Underflow | Precision))
  {
    SmallestNormalizes();
    WidenSmallest();
    NarrowScaledUp();
    NarrowSmallest();
  }

  /** Twenty-three doublings bring bit 0 up to bit 23, one unfolding at a
      time. */
  lemma SmallestNormalizes()
    ensures Normalize23(1) == (0x80_0000, 23)
  {
    assert Normalize23(0x400000) == (0x80_0000, 1);
    assert Normalize23(0x200000) == (0x80_0000, 2);
    assert Normalize23(0x100000) == (0x80_0000, 3);
    assert Normalize23(0x80000) == (0x80_0000, 4);
    assert Normalize23(0x40000) == (0x80_0000, 5);
    assert Normalize23(0x20000) == (0x80_0000, 6);
    assert Normalize23(0x10000) == (0x80_0000, 7);
    assert Normalize23(0x8000) == (0x80_0000, 8);
    assert Normalize23(0x4000) == (0x80_0000, 9);
    assert Normalize23(0x2000) == (0x80_0000, 10);
    assert Normalize23(0x1000) == (0x80_0000, 11);
    assert Normalize23(0x800) == (0x80_0000, 12);
    assert Normalize23(0x400) == (0x80_0000, 13);
    assert Normalize23(0x200) == (0x80_0000, 14);
    assert Normalize23(0x100) == (0x80_0000, 15);
    assert Normalize23(0x80) == (0x80_0000, 16);
    assert Normalize23(0x40) == (0x80_0000, 17);
    assert Normalize23(0x20) == (0x80_0000, 18);
    assert Normalize23(0x10) == (0x80_0000, 19);
    assert Normalize23(0x8) == (0x80_0000, 20);
    assert Normalize23(0x4) == (0x80_0000, 21);
    assert Normalize23(0x2) == (0x80_0000, 22);
  }

  lemma WidenSmallest()
    requires Normalize23(1) == (0x80_0000, 23)
    ensures FromFloat32AsWritten(1) == Extended(0x406A, IntegerBit)
    ensures FromFloat32(1) == Extended(0x3F6A, IntegerBit)
  {
  }

  lemma NarrowScaledUp()
    ensures ToFloat32(Extended(0x406A, IntegerBit)) == Some(Single(0x7500_0000, 0))
  {
  }

  lemma NarrowSmallest()
    ensures ToFloat32(Extended(0x3F6A, IntegerBit)) == Some(Single(1, Underflow | Precision))
  {
  }
}
